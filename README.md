# ValueChanged event scan of `EthersService.updateValue`

`EthersService` is a NestJS service that talks to one deployed contract over
JSON-RPC through ethers.js. Almost all of its methods pass a call straight to
the contract. The one piece of real control flow is in `updateValue`: once the
`updateValue` transaction has been mined, the service walks the receipt's logs
in order and asks the contract interface to decode each one (`parseLog`). A log
is skipped when decoding throws, when it yields no description, or when it
names an event other than `ValueChanged`. The first `ValueChanged` log gives
the result `{oldValue: args[0], newValue: args[1]}`. If no log matches, the
method throws.

This project models that scan in `ethers_service.dfy` (module `EthersService`):

- `Parsed` is the outcome of decoding one log: `Throws`, `Null`, or
  `Description(name, args)`. The decoder is a function parameter `decode`. The
  log type `L` and the argument type `A` are type parameters, because the
  scan never looks inside a log or an argument.
- `Receipt` holds the receipt's ordered logs.
- `Examine` is one pass of the loop body. `FindFirst` is the scan written as a
  recursive first-match search that returns `Success(ValueChange)` or
  `Failure(ValueChangedNotFound)`.
- `ScanForValueChanged` is the source's loop: a `while` over the logs with an
  early `return` and a failure after the loop. It is proved equal to
  `FindFirst`.
- Lemmas about `FindFirst` state what the scan promises. The result comes from
  the first matching log. A skipped log can be removed from anywhere without
  effect. Logs after a match never matter.

Reading `args[0]` and `args[1]` happens inside the `try` block
(ethers.service.ts:104-111). The decoded argument list of ethers v6 throws a
range error when it is indexed past its end. So a `ValueChanged` description
with fewer than two arguments is caught and skipped, like a decode error. The
model follows that reading.

## Model

| member | source | states |
|---|---|---|
| EthersService.Examine | server/src/modules/ethers/ethers.service.ts:104-115 | A log whose decode throws, yields null, or names another event makes the loop continue. The loop returns exactly when the decode is a `ValueChanged` description with at least two arguments. Then `oldValue` is argument 0 and `newValue` is argument 1. |
| EthersService.FindFirst | server/src/modules/ethers/ethers.service.ts:103-118 | The scan fails with `ValueChangedNotFound` if and only if no log matches. That includes an empty receipt. On success, the value is the `{args[0], args[1]}` of some log that matches. |
| EthersService.ScanForValueChanged | server/src/modules/ethers/ethers.service.ts:103-118 | The loop over `receipt.logs`, with its early return and its throw after the loop, computes exactly `FindFirst` of the receipt's logs. The receipt is a value, so its logs are read but never changed or reordered. |
| EthersService.FirstMatchDecides | server/src/modules/ethers/ethers.service.ts:103-111 | If position k is the first log in receipt order that matches, the scan succeeds with `oldValue = args[0]` and `newValue = args[1]` of that log's decoded event. This holds whatever the earlier logs throw or decode to. |
| EthersService.SuccessIsFirstMatch | server/src/modules/ethers/ethers.service.ts:103-111 | A successful scan yields the position k of a log that matches, has no matching log before it, and whose arguments 0 and 1 are the returned `oldValue` and `newValue`. |
| EthersService.SkippedLogIrrelevant | server/src/modules/ethers/ethers.service.ts:104-115 | A log that does not match can be removed from any position without changing the outcome. Such logs include one whose decode throws, one whose decode is null, or one with another event name. Such a log never causes a failure and never affects the value. |
| EthersService.LaterLogsIrrelevant | server/src/modules/ethers/ethers.service.ts:106-111 | Once a prefix of the logs already contains a match, appending any logs after it leaves the result unchanged. So changing the logs after the first match leaves the result unchanged too. |

## Left out

- The constructor's wiring of the JSON-RPC provider, wallet and contract from `RPC_URL` and `PRIVATE_KEY` (ethers.service.ts:21-28). This is configuration and I/O.
- The unit-conversion wrappers `zeroPadValue32`, `encodeBytes32String`, `isBytesLike`, `toUtf8Bytes`, `parseEther` and `formatEther` (ethers.service.ts:30-52). Each is a single call into ethers.js, and ethers.js is not part of this model.
- The read calls `owner`, `fixedValue`, `value`, `checkValue`, `sumUpTo`, `ownerFunction` and `getContractBalance`. Each is one RPC round trip with no logic of its own.
- Submitting transactions and awaiting `tx.wait()` in `updateValue`, `sendEther`, `deposit` and `withDraw`. These are asynchronous chain I/O. The scan takes the confirmed receipt as its input. Failures of submission or confirmation are not modelled.
- `parseEther(value.toString())` on a JavaScript `number` in `sendEther` and `deposit`. This is floating-point formatting plus a library call.
- The internals of `contract.interface.parseLog`, i.e. ABI topic matching. The decoder is an uninterpreted function parameter. It is assumed to be deterministic for a given log.
- An individual argument that ethers could not decode, which throws when it is read. The model treats arguments as plain values.
- The text of the error message thrown at ethers.service.ts:118. The model has a single error, `ValueChangedNotFound`.
- Async/await, and concurrency between callers of the service.
