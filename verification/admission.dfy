/** The admission check `isRequestAcceptable`, which both strategies run before
    selecting. Its loop condition and body each create a fresh iterator over the
    active list, so every pass looks at the first active provider only: the
    check answers false on an empty list, true when the first provider has
    capacity, and otherwise never returns. */
module Admission {
  import opened Collections
  import opened ProviderPool

  datatype Verdict = Accept | Reject | Diverge

  /** What one call of the check does, as a whole: it refuses exactly an empty
      active list, accepts exactly when the head provider has capacity (so
      only with some provider holding capacity), and spins on every non-empty
      list whose head has none. */
  function Admit(p: Pool): (v: Verdict)
    requires Wf(p)
    ensures v == Reject <==> p.active == []
    ensures v == Accept <==> p.active != [] && p.capacity[p.active[0]] > 0
    ensures v == Diverge <==> p.active != [] && p.capacity[p.active[0]] <= 0
    ensures v == Accept ==> exists x :: x in p.active && p.capacity[x] > 0
  {
    if |p.active| == 0 then Reject
    else if p.capacity[p.active[0]] > 0 then
      assert p.active[0] in p.active;
      Accept
    else Diverge
  }

  /** The loop of `isRequestAcceptable`, pass by pass, allowed at most `fuel`
      passes; `None` means it was still looping when the fuel ran out. Since
      nothing in a pass changes the pool, the loop either answers on its first
      pass or never. */
  method IsRequestAcceptable(p: Pool, fuel: nat) returns (verdict: Option<bool>)
    requires Wf(p)
    ensures verdict == Some(true) <==> fuel > 0 && |p.active| > 0 && p.capacity[p.active[0]] > 0
    ensures verdict == Some(false) <==> fuel > 0 && |p.active| == 0
    ensures verdict == None <==> fuel == 0 || Admit(p) == Diverge
    ensures verdict.Some? ==> (verdict.value <==> Admit(p) == Accept)
  {
    var passes := 0;
    while passes < fuel
      invariant passes <= fuel
      invariant passes > 0 ==> |p.active| > 0 && p.capacity[p.active[0]] <= 0
    {
      var probe := 0;          // hosts.iterator(): a fresh cursor at the head
      if !(probe < |p.active|) {
        return Some(false);    // hasNext() is false: leave the loop
      }
      var head := 0;           // another fresh iterator; next() yields the head
      if p.capacity[p.active[head]] > 0 {
        return Some(true);
      }
      passes := passes + 1;
    }
    return None;
  }

  /** The check reads nothing of the pool but the head of the active list and
      that head's counter: two pools that agree there get the same verdict,
      whatever the rest of their providers hold. */
  lemma AdmitSeesOnlyHead(p: Pool, q: Pool)
    requires Wf(p) && Wf(q)
    requires p.active == [] <==> q.active == []
    requires p.active != [] ==> q.active != [] && p.active[0] == q.active[0]
                                && p.capacity[p.active[0]] == q.capacity[q.active[0]]
    ensures Admit(p) == Admit(q)
  {
  }
}
