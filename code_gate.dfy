/**
 * The one-shot login-code gate: `/set_code` stores a five-digit code at most
 * once and releases the login step waiting in `code_callback`.
 */
module CodeGate {
  import opened Wrappers

  /** The two rejections `/set_code` answers with status 400. */
  datatype GateError =
    | AlreadySet    // "Code already set."
    | NotFiveDigit  // "Code must be a 5-digit number."

  /** What `code_callback` does: keep waiting, or resume with the stored code. */
  datatype Wait = Waiting | Resumed(code: int)

  const MinCode: int := 10000
  const MaxCode: int := 99999

  predicate InRange(c: int) {
    MinCode <= c <= MaxCode
  }

  /**
   * A submission against the stored code: the stored value after it and the
   * answer. "Already set" is checked before the range.
   */
  function Submit(stored: Option<int>, c: int): (r: (Option<int>, Outcome<GateError>))
    ensures r.1.Pass? <==> stored.None? && InRange(c)
    ensures r.1.Pass? ==> r.0 == Some(c)
    ensures r.1.Fail? ==> r.0 == stored
    ensures stored.Some? ==> r.1 == Fail(AlreadySet)
    ensures stored.None? && !InRange(c) ==> r.1 == Fail(NotFiveDigit)
  {
    if stored.Some? then (stored, Fail(AlreadySet))
    else if !InRange(c) then (None, Fail(NotFiveDigit))
    else (Some(c), Pass)
  }

  /** The stored code after a run of submissions. */
  function Replay(stored: Option<int>, codes: seq<int>): Option<int>
    decreases |codes|
  {
    if codes == [] then stored else Replay(Submit(stored, codes[0]).0, codes[1..])
  }

  /** The first in-range code of a run, if any. */
  function FirstInRange(codes: seq<int>): (r: Option<int>)
    ensures r.Some? ==> r.value in codes && InRange(r.value)
    ensures r.None? ==> forall i | 0 <= i < |codes| :: !InRange(codes[i])
    decreases |codes|
  {
    if codes == [] then None
    else if InRange(codes[0]) then Some(codes[0])
    else FirstInRange(codes[1..])
  }

  /**
   * Write-once: once a code is stored no submission changes it, and from
   * an empty gate the code that sticks is the first in-range one submitted.
   */
  lemma {:induction false} ReplayKeepsFirst(stored: Option<int>, codes: seq<int>)
    ensures stored.Some? ==> Replay(stored, codes) == stored
    ensures stored.None? ==> Replay(stored, codes) == FirstInRange(codes)
    decreases |codes|
  {
    if codes != [] {
      ReplayKeepsFirst(Submit(stored, codes[0]).0, codes[1..]);
    }
  }

  class Gate {
    /** `five_digit_code`. */
    var code: Option<int>
    /** Whether `code_event` is set. */
    var released: bool

    /** The event is set exactly when a code is stored, and that code is in range. */
    ghost predicate Valid()
      reads this
    {
      released == code.Some? && (code.Some? ==> InRange(code.value))
    }

    constructor ()
      ensures Valid() && code == None && !released
    {
      code := None;
      released := false;
    }

    /** `/set_code`: store the code and release the waiter, or reject with no change. */
    method SetCode(c: int) returns (r: Outcome<GateError>)
      requires Valid()
      modifies this
      ensures Valid()
      ensures (code, r) == Submit(old(code), c)
      ensures r.Fail? ==> unchanged(this)
      ensures r.Pass? ==> code == Some(c) && released
    {
      if code.Some? {
        return Fail(AlreadySet);
      }
      if !InRange(c) {
        return Fail(NotFiveDigit);
      }
      code := Some(c);
      released := true;
      r := Pass;
    }

    /** `code_callback`: resumes with the stored code once the event is set; reads only. */
    method CodeCallback() returns (w: Wait)
      requires Valid()
      ensures w.Resumed? <==> code.Some?
      ensures w.Resumed? ==> code == Some(w.code) && InRange(w.code)
    {
      if released {
        w := Resumed(code.value);
      } else {
        w := Waiting;
      }
    }
  }

  /**
   * The login handshake: a waiter that polls before any submission keeps
   * waiting; `11111` is accepted, `22222` after it, `9999` and `100000` are
   * rejected as already set, and the waiter resumes with `11111`.
   */
  method Handshake() returns (before: Wait, first: Outcome<GateError>,
                              second: Outcome<GateError>, low: Outcome<GateError>,
                              high: Outcome<GateError>, after: Wait)
    ensures before == Waiting
    ensures first == Pass
    ensures second == low == high == Fail(AlreadySet)
    ensures after == Resumed(11111)
  {
    var gate := new Gate();
    before := gate.CodeCallback();
    first := gate.SetCode(11111);
    second := gate.SetCode(22222);
    low := gate.SetCode(9999);
    high := gate.SetCode(100000);
    after := gate.CodeCallback();
  }

  /** On an empty gate, `9999` and `100000` are rejected as not five digits. */
  method RangeRejections() returns (low: Outcome<GateError>, high: Outcome<GateError>, stored: Option<int>)
    ensures low == high == Fail(NotFiveDigit)
    ensures stored == None
  {
    var gate := new Gate();
    low := gate.SetCode(9999);
    high := gate.SetCode(100000);
    stored := gate.code;
  }
}
