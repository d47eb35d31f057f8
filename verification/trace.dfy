/** Sequences of calls on one store, and what AUTOINCREMENT guarantees
    across them: an id, once issued, is never issued again. */
module Trace {
  import opened Wrappers
  import opened Table
  import opened Memory

  /** A call a session can make on the store. */
  datatype Op =
    | Add(role: string, content: MessageContent)
    | Append(role: string, text: string, messageId: Option<int>)
    | Rollback(index: int)

  /** One call: the table after it (as it was, when the call raises) and the
      id of the row the call inserted, if it inserted one. */
  function Apply(env: Env, s: Store, op: Op): (r: (Store, Option<nat>))
    ensures r.0.nextId >= s.nextId
    ensures r.1.Some? ==> s.nextId <= r.1.value < r.0.nextId
    ensures r.1.Some? ==> |r.0.rows| == |s.rows| + 1 && r.0.rows[|s.rows|].id == r.1.value
    ensures Valid(s) ==> Valid(r.0)
  {
    match op
    case Add(role, content) =>
      var step := AddMessage(env, s, role, content);
      (step.store, if step.result.Success? then Some(step.result.value) else None)
    case Append(role, text, messageId) =>
      var step := AppendMessage(s, role, text, messageId);
      (step.store, if step.result.Success? then step.result.value else None)
    case Rollback(index) =>
      (Recover(s, index), None)
  }

  /** Runs the calls in order, collecting the ids they issued. The issued
      ids strictly increase and all lie above every id the table held at the
      start, so none is ever reused, even after rows were deleted. */
  function Run(env: Env, s: Store, ops: seq<Op>): (r: (Store, seq<nat>))
    ensures r.0.nextId >= s.nextId
    ensures Valid(s) ==> Valid(r.0)
    ensures forall i :: 0 <= i < |r.1| ==> s.nextId <= r.1[i] < r.0.nextId
    ensures forall i, j :: 0 <= i < j < |r.1| ==> r.1[i] < r.1[j]
    ensures Valid(s) ==> forall i, j :: 0 <= i < |r.1| && 0 <= j < |s.rows| ==> s.rows[j].id < r.1[i]
    decreases |ops|
  {
    if ops == [] then (s, [])
    else
      var (s1, issued) := Apply(env, s, ops[0]);
      var (s2, later) := Run(env, s1, ops[1..]);
      ((s2, (if issued.Some? then [issued.value] else []) + later))
  }
}
