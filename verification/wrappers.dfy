/** Failure-carrying datatypes shared by the exporter and the quiz models.
    Errors are the human-readable strings the exporter throws. */
module Wrappers {

  /** A value or JavaScript's `null`. */
  datatype Option<+T> = None | Some(value: T)

  /** The outcome of a parse closure: a value, or the string it throws. */
  datatype Result<+T> = Ok(value: T) | Err(error: string)

  /** The outcome of a check that returns nothing on success. */
  datatype Outcome = Pass | Fail(error: string)

  /** The value of an outcome that did not throw, or `null` when it threw. */
  function OkOrNull<T>(r: Result<T>): Option<T> {
    if r.Ok? then Some(r.value) else None
  }

  /** The message an outcome threw, as a list of zero or one message. */
  function Thrown<T>(r: Result<T>): seq<string> {
    if r.Ok? then [] else [r.error]
  }

  /** A loop that stops at the first outcome that throws: that error is
      the result; otherwise the values, one per outcome, in order. */
  function FirstErrorOrAll<T>(rs: seq<Result<T>>): (r: Result<seq<T>>)
    ensures r.Ok? <==> forall k :: 0 <= k < |rs| ==> rs[k].Ok?
    ensures r.Ok? ==> |r.value| == |rs| && forall k :: 0 <= k < |rs| ==> r.value[k] == rs[k].value
    ensures r.Err? ==> exists k :: && 0 <= k < |rs| && rs[k].Err? && r.error == rs[k].error
                                   && forall j :: 0 <= j < k ==> rs[j].Ok?
  {
    if |rs| == 0 then Ok([])
    else if rs[0].Err? then Err(rs[0].error)
    else
      var tail := FirstErrorOrAll(rs[1..]);
      assert forall k :: 1 <= k < |rs| ==> rs[k] == rs[1..][k - 1];
      if tail.Err? then
        var k :| && 0 <= k < |rs[1..]| && rs[1..][k].Err? && tail.error == rs[1..][k].error
                 && forall j :: 0 <= j < k ==> rs[1..][j].Ok?;
        assert rs[k + 1].Err?;
        Err(tail.error)
      else Ok([rs[0].value] + tail.value)
  }
}
