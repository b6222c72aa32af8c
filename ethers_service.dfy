/**
 The event-extraction scan of `EthersService.updateValue`: once the
 `updateValue` transaction is confirmed, its receipt's logs are walked in
 order, each is decoded by the contract interface, and the first log that
 decodes to a `ValueChanged` event yields `{oldValue, newValue}`. Logs that
 fail to decode, decode to nothing, or decode to another event are skipped;
 running out of logs is an error.

 The contract interface's decoder (`parseLog`) is foreign code: it is a
 parameter `decode` from a raw log to one of three outcomes.
 */
module EthersService {

  /** What `contract.interface.parseLog(log)` does with one raw log. */
  datatype Parsed<A> =
    | Throws                                    // parseLog raised an error
    | Null                                      // parseLog returned null
    | Description(name: string, args: seq<A>)   // fragment name and positional arguments

  /** The object `updateValue` returns. */
  datatype ValueChange<A> = ValueChange(oldValue: A, newValue: A)

  /** The error thrown when no log is a `ValueChanged` event. */
  datatype ScanError = ValueChangedNotFound

  datatype Result<T> = Success(value: T) | Failure(error: ScanError)

  /** A confirmed transaction receipt; only its ordered logs matter to the scan. */
  datatype Receipt<L> = Receipt(logs: seq<L>)

  /** What one pass of the loop body does: go on to the next log, or return. */
  datatype Step<A> = Continue | Return(change: ValueChange<A>)

  const ValueChangedName: string := "ValueChanged"

  /**
   One pass of the loop body for a log whose decode outcome is `p`.
   Reading `args[0]` and `args[1]` happens inside the `try`, and the decoded
   arguments raise a range error when read past their end, so a
   `ValueChanged` description with fewer than two arguments is caught and
   skipped like a decode error.
   */
  function Examine<A>(p: Parsed<A>): (s: Step<A>)
    ensures p.Throws? ==> s == Continue
    ensures p.Null? ==> s == Continue
    ensures p.Description? && p.name != ValueChangedName ==> s == Continue
    ensures s.Return? <==> p.Description? && p.name == ValueChangedName && |p.args| >= 2
    ensures s.Return? ==> s.change.oldValue == p.args[0] && s.change.newValue == p.args[1]
  {
    match p
    case Throws => Continue
    case Null => Continue
    case Description(name, args) =>
      if name != ValueChangedName then Continue
      else if |args| < 2 then Continue
      else Return(ValueChange(args[0], args[1]))
  }

  /** The log decodes to a `ValueChanged` event the scan returns on. */
  predicate Matches<A>(p: Parsed<A>) {
    Examine(p).Return?
  }

  /** `k` is the first position of `logs` that decodes to `ValueChanged`. */
  ghost predicate IsFirstMatch<L, A>(logs: seq<L>, decode: L -> Parsed<A>, k: int) {
    && 0 <= k < |logs|
    && Matches(decode(logs[k]))
    && forall j :: 0 <= j < k ==> !Matches(decode(logs[j]))
  }

  /**
   The scan as a first-match search: the value of the first log in receipt
   order that decodes to `ValueChanged`, or `ValueChangedNotFound`.
   */
  function FindFirst<L, A>(logs: seq<L>, decode: L -> Parsed<A>): (r: Result<ValueChange<A>>)
    ensures r == Failure(ValueChangedNotFound) <==>
              forall i :: 0 <= i < |logs| ==> !Matches(decode(logs[i]))
    ensures r.Success? ==>
              exists k :: 0 <= k < |logs| && Matches(decode(logs[k])) && r.value == Examine(decode(logs[k])).change
    decreases |logs|
  {
    if |logs| == 0 then Failure(ValueChangedNotFound)
    else
      match Examine(decode(logs[0]))
      case Return(change) => Success(change)
      case Continue =>
        var rest := FindFirst(logs[1..], decode);
        assert forall i :: 1 <= i < |logs| ==> logs[1..][i - 1] == logs[i];
        rest
  }

  /**
   The scan as `updateValue` runs it: a loop over the receipt's logs that
   returns at the first `ValueChanged` event and fails after the last log.
   The receipt is a value, so the scan cannot change or reorder its logs.
   */
  method ScanForValueChanged<L, A>(receipt: Receipt<L>, decode: L -> Parsed<A>)
    returns (r: Result<ValueChange<A>>)
    ensures r == FindFirst(receipt.logs, decode)
  {
    var logs := receipt.logs;
    var i := 0;
    while i < |logs|
      invariant 0 <= i <= |logs|
      invariant FindFirst(logs[i..], decode) == FindFirst(logs, decode)
    {
      var parsed := decode(logs[i]);
      match parsed {
        case Throws =>
          // the catch clause: ignore the log
        case Null =>
          // `parsedLog?.fragment.name` is undefined: not a match
        case Description(name, args) =>
          if name == ValueChangedName && |args| >= 2 {
            assert Examine(decode(logs[i..][0])).Return?;
            return Success(ValueChange(args[0], args[1]));
          }
      }
      assert logs[i..][1..] == logs[i + 1..];
      i := i + 1;
    }
    r := Failure(ValueChangedNotFound);
  }

  /**
   Whatever log is the first match decides the result: its arguments 0 and 1
   become `oldValue` and `newValue`.
   */
  lemma {:induction false} FirstMatchDecides<L, A>(logs: seq<L>, decode: L -> Parsed<A>, k: int)
    requires IsFirstMatch(logs, decode, k)
    ensures FindFirst(logs, decode) ==
              Success(ValueChange(decode(logs[k]).args[0], decode(logs[k]).args[1]))
    decreases k
  {
    if k > 0 {
      assert !Matches(decode(logs[0]));
      assert forall j :: 0 <= j < k - 1 ==> logs[1..][j] == logs[j + 1];
      FirstMatchDecides(logs[1..], decode, k - 1);
    }
  }

  /**
   A successful scan's value comes from the first matching log: `k` is that
   log's position, and no earlier log matches.
   */
  lemma {:induction false} SuccessIsFirstMatch<L, A>(logs: seq<L>, decode: L -> Parsed<A>) returns (k: nat)
    requires FindFirst(logs, decode).Success?
    ensures IsFirstMatch(logs, decode, k)
    ensures FindFirst(logs, decode).value ==
              ValueChange(decode(logs[k]).args[0], decode(logs[k]).args[1])
    decreases |logs|
  {
    if Matches(decode(logs[0])) {
      k := 0;
    } else {
      var k' := SuccessIsFirstMatch(logs[1..], decode);
      k := k' + 1;
      assert logs[1..][k'] == logs[k];
      assert forall j :: 1 <= j < k ==> logs[j] == logs[1..][j - 1];
    }
  }

  /**
   A log that is not a `ValueChanged` event (its decode throws, yields null,
   or names another event) can be removed from anywhere in the receipt
   without changing the outcome: it neither causes a failure nor affects the
   value.
   */
  lemma {:induction false} SkippedLogIrrelevant<L, A>(before: seq<L>, log: L, after: seq<L>, decode: L -> Parsed<A>)
    requires !Matches(decode(log))
    ensures FindFirst(before + [log] + after, decode) == FindFirst(before + after, decode)
    decreases |before|
  {
    if |before| == 0 {
      assert before + [log] + after == [log] + after;
      assert ([log] + after)[1..] == after;
      assert before + after == after;
    } else {
      assert (before + [log] + after)[0] == before[0];
      assert (before + after)[0] == before[0];
      assert (before + [log] + after)[1..] == before[1..] + [log] + after;
      assert (before + after)[1..] == before[1..] + after;
      SkippedLogIrrelevant(before[1..], log, after, decode);
    }
  }

  /**
   Logs after the first match are never examined: once a prefix of the
   receipt already holds a match, whatever follows it leaves the result
   unchanged.
   */
  lemma {:induction false} LaterLogsIrrelevant<L, A>(prefix: seq<L>, suffix: seq<L>, decode: L -> Parsed<A>)
    requires FindFirst(prefix, decode).Success?
    ensures FindFirst(prefix + suffix, decode) == FindFirst(prefix, decode)
    decreases |prefix|
  {
    assert (prefix + suffix)[0] == prefix[0];
    if !Matches(decode(prefix[0])) {
      assert (prefix + suffix)[1..] == prefix[1..] + suffix;
      LaterLogsIrrelevant(prefix[1..], suffix, decode);
    }
  }
}
