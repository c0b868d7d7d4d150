/** Argument numbering of a format string: automatic or manual, but never both. */
module ParseContext {

  /** A use of an argument: the next one, or the one with the given number. */
  datatype Use = Automatic | Manual(id: nat)

  class Context {
    /** Negative in manual mode; otherwise the number of automatic uses so far. */
    var nextArgId: int

    constructor ()
      ensures nextArgId == 0
    {
      nextArgId := 0;
    }

    method NextArgId() returns (ok: bool, id: nat)
      modifies this
      ensures ok == Allowed(old(nextArgId), Automatic)
      ensures ok ==> id == old(nextArgId) && nextArgId == NextMode(old(nextArgId), Automatic)
      ensures !ok ==> id == 0 && nextArgId == old(nextArgId)
    {
      if nextArgId >= 0 {
        id := nextArgId;
        nextArgId := nextArgId + 1;
        return true, id;
      }
      return false, 0;
    }

    method CheckArgId(id: nat) returns (ok: bool)
      modifies this
      ensures ok == Allowed(old(nextArgId), Manual(id))
      ensures nextArgId == if ok then NextMode(old(nextArgId), Manual(id)) else old(nextArgId)
    {
      if nextArgId > 0 {
        return false;
      }
      nextArgId := -1;
      return true;
    }

    method Take(use: Use) returns (ok: bool, id: nat)
      modifies this
      ensures ok == Allowed(old(nextArgId), use)
      ensures ok ==> nextArgId == NextMode(old(nextArgId), use) && id == Resolved(old(nextArgId), use)
      ensures !ok ==> nextArgId == old(nextArgId)
    {
      match use
      case Automatic => ok, id := NextArgId();
      case Manual(n) =>
        ok := CheckArgId(n);
        id := n;
    }
  }

  // ---------------------------------------------------------------- modes

  predicate Allowed(mode: int, use: Use) {
    if use.Automatic? then mode >= 0 else mode <= 0
  }

  function NextMode(mode: int, use: Use): int
    requires Allowed(mode, use)
  {
    if use.Automatic? then mode + 1 else -1
  }

  function Resolved(mode: int, use: Use): nat
    requires Allowed(mode, use)
  {
    if use.Automatic? then mode else use.id
  }

  datatype Outcome = Mixed | Ids(ids: seq<nat>, mode: int)

  /** Uses in order from a mode, 0 for a fresh context: the resolved numbers, or an error. */
  function Run(mode: int, uses: seq<Use>): (o: Outcome)
    ensures o.Ids? ==> |o.ids| == |uses|
  {
    if uses == [] then Ids([], mode)
    else
      var last := uses[|uses| - 1];
      match Run(mode, uses[..|uses| - 1])
      case Mixed => Mixed
      case Ids(ids, m) => if Allowed(m, last) then Ids(ids + [Resolved(m, last)], NextMode(m, last)) else Mixed
  }

  lemma RunOne(mode: int, use: Use)
    ensures Run(mode, [use]) == if Allowed(mode, use) then Ids([Resolved(mode, use)], NextMode(mode, use)) else Mixed
  {
    assert [use][..0] == [];
  }

  lemma {:induction false} RunConcat(mode: int, a: seq<Use>, b: seq<Use>)
    ensures var before, all := Run(mode, a), Run(mode, a + b);
      && (before.Mixed? ==> all.Mixed?)
      && (before.Ids? ==>
            var behind := Run(before.mode, b);
            all == if behind.Ids? then Ids(before.ids + behind.ids, behind.mode) else Mixed)
  {
    if b == [] {
      assert a + b == a;
      assert Run(mode, a).Ids? ==> Run(mode, a).ids + [] == Run(mode, a).ids;
    } else {
      assert (a + b)[..|a + b| - 1] == a + b[..|b| - 1];
      RunConcat(mode, a, b[..|b| - 1]);
    }
  }

  predicate AllAutomatic(uses: seq<Use>) {
    forall k :: 0 <= k < |uses| ==> uses[k].Automatic?
  }

  predicate AllManual(uses: seq<Use>) {
    forall k :: 0 <= k < |uses| ==> uses[k].Manual?
  }

  /** No error exactly when the uses are all automatic, numbered 0, 1, 2, ..., or all manual. */
  lemma {:induction false} NumberingIsUniform(uses: seq<Use>)
    ensures Run(0, uses).Ids? <==> AllAutomatic(uses) || AllManual(uses)
    ensures AllAutomatic(uses) ==>
              Run(0, uses).mode == |uses| && forall k :: 0 <= k < |uses| ==> Run(0, uses).ids[k] == k
    ensures AllManual(uses) && uses != [] ==>
              Run(0, uses).mode == -1 && forall k :: 0 <= k < |uses| ==> Run(0, uses).ids[k] == uses[k].id
  {
    if uses != [] {
      var n := |uses| - 1;
      NumberingIsUniform(uses[..n]);
      assert AllAutomatic(uses) <==> AllAutomatic(uses[..n]) && uses[n].Automatic?;
      assert AllManual(uses) <==> AllManual(uses[..n]) && uses[n].Manual?;
      assert n == 0 ==> uses[..n] == [];
    }
  }

  /** Automatic uses are numbered on from the mode, manual ones as given; the mode counts, or is manual. */
  lemma {:induction false} RunNumbers(mode: int, uses: seq<Use>)
    requires Run(mode, uses).Ids?
    ensures Run(mode, uses).mode == if AllAutomatic(uses) then mode + |uses| else -1
    ensures forall k :: 0 <= k < |uses| ==>
              Run(mode, uses).ids[k] == if uses[k].Automatic? then mode + k else uses[k].id
  {
    if uses != [] {
      var n := |uses| - 1;
      RunNumbers(mode, uses[..n]);
      assert AllAutomatic(uses) <==> AllAutomatic(uses[..n]) && uses[n].Automatic?;
    }
  }

  /** Behind an automatic use only automatic ones are allowed, and they are numbered on. */
  lemma {:induction false} NumberedOn(mode: int, uses: seq<Use>)
    requires mode > 0
    ensures Run(mode, uses).Ids? <==> AllAutomatic(uses)
    ensures Run(mode, uses).Ids? ==>
              && Run(mode, uses).mode == mode + |uses|
              && forall k :: 0 <= k < |uses| ==> Run(mode, uses).ids[k] == mode + k
  {
    if uses != [] {
      var n := |uses| - 1;
      NumberedOn(mode, uses[..n]);
      assert AllAutomatic(uses) <==> AllAutomatic(uses[..n]) && uses[n].Automatic?;
    }
  }
}
