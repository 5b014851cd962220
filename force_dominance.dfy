/**
 * The `ForcedBy` abstract state of the force-dominance analysis
 * (force_dominance.cpp:15-305) as a class with the source's fields, whose
 * methods update them in place; each method is proved to compute the
 * corresponding function of ForceLattice.
 */
module ForceDominance {
  import opened Ir
  import opened ForceLattice

  /** `x` got a new or different entry from `a` to `b`. */
  predicate Changed(a: map<Value, ForceState>, b: map<Value, ForceState>, x: Value) {
    x in b && (x !in a || b[x] != a[x])
  }

  /** `x` has a force recorded. */
  predicate Done(m: map<Value, ForceState>, x: Value) {
    x in m && m[x] != Unforced
  }

  /** `b` only adds forces to `a`: no key is dropped and no recorded force is
      overwritten. */
  ghost predicate Grows(a: map<Value, ForceState>, b: map<Value, ForceState>) {
    && a.Keys <= b.Keys
    && (forall x :: Done(a, x) ==> b[x] == a[x])
  }

  /** `b` grows `a` by writing `Ambiguous` to values reachable from `v` only. */
  ghost predicate WritesWithin(c: Code, a: map<Value, ForceState>, b: map<Value, ForceState>, v: Value) {
    && Grows(a, b)
    && (forall x :: Changed(a, b, x) ==> b[x] == Ambiguous && Reaches(c, v, x))
  }

  /** A phi input counts as handled once it is a seen phi or a recorded value. */
  ghost predicate Handled(c: Code, m: map<Value, ForceState>, seen: set<Value>, q: Value) {
    (IsPhi(c, q) ==> q in seen) && (!IsPhi(c, q) ==> Done(m, q))
  }

  /** Every phi in `part` has a force recorded and all its inputs handled. */
  ghost predicate ClosedPart(c: Code, m: map<Value, ForceState>, seen: set<Value>, part: set<Value>) {
    forall r :: r in part ==> Done(m, r) && forall q :: q in PhiInputs(c, r) ==> Handled(c, m, seen, q)
  }

  function Phis(c: Code): set<Value> {
    set v | v in c.instrs && c.instrs[v].kind.Phi?
  }

  lemma WritesWithinTrans(c: Code, a: map<Value, ForceState>, b: map<Value, ForceState>,
                          d: map<Value, ForceState>, v: Value, q: Value)
    requires WritesWithin(c, a, b, v) && IsPhi(c, v) && q in PhiInputs(c, v)
    requires WritesWithin(c, b, d, q)
    ensures WritesWithin(c, a, d, v)
    ensures forall x :: Changed(a, b, x) ==> Changed(a, d, x)
  {
    forall x | Changed(a, d, x) ensures d[x] == Ambiguous && Reaches(c, v, x) {
      if Changed(b, d, x) {
        ReachesStep(c, v, q, x);
      } else {
        assert Changed(a, b, x);
      }
    }
  }

  lemma HandledMono(c: Code, m1: map<Value, ForceState>, m2: map<Value, ForceState>,
                    s1: set<Value>, s2: set<Value>, q: Value)
    requires Handled(c, m1, s1, q) && Grows(m1, m2) && s1 <= s2
    ensures Handled(c, m2, s2, q)
  {
  }

  lemma ClosedPartMono(c: Code, m1: map<Value, ForceState>, m2: map<Value, ForceState>,
                       s1: set<Value>, s2: set<Value>, part: set<Value>)
    requires ClosedPart(c, m1, s1, part) && Grows(m1, m2) && s1 <= s2
    ensures ClosedPart(c, m2, s2, part)
  {
    forall r | r in part ensures Done(m2, r) && forall q :: q in PhiInputs(c, r) ==> Handled(c, m2, s2, q) {
      forall q | q in PhiInputs(c, r) ensures Handled(c, m2, s2, q) {
        HandledMono(c, m1, m2, s1, s2, q);
      }
    }
  }

  lemma ProperSubsetSmaller(a: set<Value>, b: set<Value>, v: Value)
    requires a <= b && v in b && v !in a
    ensures |a| < |b|
  {
    assert a <= b - {v};
    assert |b - {v}| == |b| - 1;
    SubsetSize(a, b - {v});
  }

  lemma {:induction false} SubsetSize(a: set<Value>, b: set<Value>)
    requires a <= b
    ensures |a| <= |b|
    decreases |b|
  {
    if a != {} {
      var x :| x in a;
      SubsetSize(a - {x}, b - {x});
    }
  }

  /** A closed set of phis covers every value reachable from a covered start. */
  lemma {:induction false} ClosedCoversReach(c: Code, m: map<Value, ForceState>, seen: set<Value>,
                                             start: Value, x: Value)
    requires ClosedPart(c, m, seen, seen)
    requires Handled(c, m, seen, start) && Done(m, start)
    requires Reaches(c, start, x)
    ensures Done(m, x)
  {
    var p :| PhiPath(c, p) && p[0] == start && p[|p| - 1] == x;
    var k := 0;
    while k < |p| - 1
      invariant 0 <= k <= |p| - 1
      invariant Done(m, p[k]) && Handled(c, m, seen, p[k])
    {
      assert IsPhi(c, p[k]) && p[k + 1] in PhiInputs(c, p[k]);
      k := k + 1;
    }
  }

  /**
   * What one visit of the `forcedAt` lambda guarantees, for a visit of `v`
   * entered with the phis `seen` already visited: only values reachable from
   * `v` change, and only to `Ambiguous`; seen phis are untouched; `hit` names
   * a changed entry when `res` says there is one; `v` and every phi this visit
   * added are handled.
   */
  ghost predicate VisitPost(c: Code, fbOld: map<Value, ForceState>, fbNew: map<Value, ForceState>,
                            seen: set<Value>, seenNew: set<Value>, v: Value, res: bool, hit: Value)
  {
    && seen <= seenNew <= Phis(c)
    && WritesWithin(c, fbOld, fbNew, v)
    && (forall x :: x in seen ==> !Changed(fbOld, fbNew, x))
    && (res ==> Changed(fbOld, fbNew, hit))
    && (!res ==> fbNew == fbOld)
    && Handled(c, fbNew, seenNew, v)
    && ClosedPart(c, fbNew, seenNew, seenNew - seen)
  }

  /** The loop invariant of a visit of the phi `v` after its first `j` inputs. */
  ghost predicate VisitInv(c: Code, fb0: map<Value, ForceState>, fb: map<Value, ForceState>,
                           seen: set<Value>, seenNow: set<Value>, v: Value, j: nat,
                           res: bool, hit: Value)
  {
    && IsPhi(c, v) && j <= |c.instrs[v].args|
    && v !in seen && seen + {v} <= seenNow <= Phis(c)
    && WritesWithin(c, fb0, fb, v)
    && (forall x :: x in seen + {v} ==> !Changed(fb0, fb, x))
    && (res ==> Changed(fb0, fb, hit))
    && (!res ==> fb == fb0)
    && ClosedPart(c, fb, seenNow, seenNow - (seen + {v}))
    && (forall k :: 0 <= k < j ==> Handled(c, fb, seenNow, c.instrs[v].args[k]))
  }

  lemma VisitStart(c: Code, fb0: map<Value, ForceState>, seen: set<Value>, v: Value)
    requires IsPhi(c, v) && seen <= Phis(c) && v !in seen
    ensures VisitInv(c, fb0, fb0, seen, seen + {v}, v, 0, false, v)
  {
  }

  lemma VisitStep(c: Code, fb0: map<Value, ForceState>, fbB: map<Value, ForceState>,
                  fbA: map<Value, ForceState>, seen: set<Value>, sB: set<Value>, sA: set<Value>,
                  v: Value, j: nat, resB: bool, hitB: Value, r: bool, h: Value)
    requires VisitInv(c, fb0, fbB, seen, sB, v, j, resB, hitB) && j < |c.instrs[v].args|
    requires VisitPost(c, fbB, fbA, sB, sA, c.instrs[v].args[j], r, h)
    ensures VisitInv(c, fb0, fbA, seen, sA, v, j + 1, r || resB, if r && !resB then h else hitB)
  {
    var q := c.instrs[v].args[j];
    assert q in PhiInputs(c, v);
    WritesWithinTrans(c, fb0, fbB, fbA, v, q);
    ClosedPartMono(c, fbB, fbA, sB, sA, sB - (seen + {v}));
    assert sA - (seen + {v}) == (sB - (seen + {v})) + (sA - sB);
    forall k | 0 <= k < j + 1 ensures Handled(c, fbA, sA, c.instrs[v].args[k]) {
      if k < j {
        HandledMono(c, fbB, fbA, sB, sA, c.instrs[v].args[k]);
      }
    }
  }

  /** Recording the visited value ends a visit of a phi. */
  lemma VisitFinish(c: Code, fb0: map<Value, ForceState>, fb1: map<Value, ForceState>,
                    seen: set<Value>, sNow: set<Value>, v: Value, res: bool, hit: Value)
    requires IsPhi(c, v) && VisitInv(c, fb0, fb1, seen, sNow, v, |c.instrs[v].args|, res, hit)
    ensures var fb2 := if NotForced(fb1, v) then fb1[v := Ambiguous] else fb1;
      VisitPost(c, fb0, fb2, seen, sNow, v, res || NotForced(fb1, v),
                if !res && NotForced(fb1, v) then v else hit)
  {
    var fb2 := if NotForced(fb1, v) then fb1[v := Ambiguous] else fb1;
    ReachesSelf(c, v);
    ClosedPartMono(c, fb1, fb2, sNow, sNow, sNow - (seen + {v}));
    forall q | q in PhiInputs(c, v) ensures Handled(c, fb2, sNow, q) {
      var k :| 0 <= k < |c.instrs[v].args| && c.instrs[v].args[k] == q;
      HandledMono(c, fb1, fb2, sNow, sNow, q);
    }
    assert sNow - seen == (sNow - (seen + {v})) + {v};
    if res && NotForced(fb1, v) {
      assert Changed(fb0, fb2, hit);
    }
  }

  /** A visit of a value that is not a phi only records that value. */
  lemma VisitLeaf(c: Code, fb0: map<Value, ForceState>, seen: set<Value>, v: Value)
    requires !IsPhi(c, v) && seen <= Phis(c)
    ensures var fb2 := if NotForced(fb0, v) then fb0[v := Ambiguous] else fb0;
      VisitPost(c, fb0, fb2, seen, seen, v, NotForced(fb0, v), v)
  {
    ReachesSelf(c, v);
  }

  /** The entries after `forcedAt`: every value reachable from `val` is now
      recorded, so they are exactly those of ForceRecorded. */
  lemma ForcedAtFinish(c: Code, s: ForcedByState, fb0: map<Value, ForceState>, fb1: map<Value, ForceState>,
                       seen: set<Value>, val: Value, force: Value, cur: ForceState,
                       changed: bool, hit: Value)
    requires s.forcedBy == fb0
    requires IsPhi(c, val) ==> VisitInv(c, fb0, fb1, {}, seen, val, |c.instrs[val].args|, changed, hit)
    requires !IsPhi(c, val) ==> fb1 == fb0 && seen == {}
    requires cur == By(force) || cur == Ambiguous
    requires cur == Ambiguous <==> IsPhi(c, val) && exists q :: q in PhiInputs(c, val) && q != val
    ensures var fb2 := if NotForced(fb1, val) then fb1[val := cur] else fb1;
      fb2 == ForceRecorded(c, s, val, force).forcedBy
  {
    var fb2 := if NotForced(fb1, val) then fb1[val := cur] else fb1;
    if IsPhi(c, val) {
      assert ClosedPart(c, fb2, seen, seen) by {
        ClosedPartMono(c, fb1, fb2, seen, seen, seen - {val});
        forall q | q in PhiInputs(c, val) ensures Handled(c, fb2, seen, q) {
          var k :| 0 <= k < |c.instrs[val].args| && c.instrs[val].args[k] == q;
          HandledMono(c, fb1, fb2, seen, seen, q);
        }
      }
    } else {
      assert ClosedPart(c, fb2, seen, seen);
    }
    forall x | x in ReachSet(c, val) ensures Done(fb2, x) {
      ClosedCoversReach(c, fb2, seen, val, x);
    }
    ForcedAtExact(c, s, fb0, fb1, fb2, val, force, cur);
  }

  /** The entries after `forcedAt` are exactly those of ForceRecorded, given
      that every value reachable from `val` now holds a force. */
  lemma ForcedAtExact(c: Code, s: ForcedByState, fb0: map<Value, ForceState>, fb1: map<Value, ForceState>,
                      fb2: map<Value, ForceState>, val: Value, force: Value, cur: ForceState)
    requires s.forcedBy == fb0
    requires Grows(fb0, fb1)
    requires forall x :: Changed(fb0, fb1, x) ==> fb1[x] == Ambiguous && Reaches(c, val, x) && x != val
    requires cur == By(force) || cur == Ambiguous
    requires cur == Ambiguous <==> IsPhi(c, val) && exists q :: q in PhiInputs(c, val) && q != val
    requires fb2 == if NotForced(fb1, val) then fb1[val := cur] else fb1
    requires forall x :: x in ReachSet(c, val) ==> Done(fb2, x)
    ensures fb2 == ForceRecorded(c, s, val, force).forcedBy
  {
    var spec := ForceRecorded(c, s, val, force).forcedBy;
    var rs := ReachSet(c, val);
    ReachesSelf(c, val);
    ReachSetHasAll(c, val, val);
    ReachesBeyond(c, val);
    assert rs == {val} <==> cur != Ambiguous;
    forall x | x in fb2 ensures x in spec && fb2[x] == spec[x] {
      ForcedAtEntry(c, s, fb0, fb1, fb2, val, force, cur, x);
    }
    forall x | x in spec ensures x in fb2 {
      if x in rs { assert Done(fb2, x); }
    }
  }

  lemma ForcedAtEntry(c: Code, s: ForcedByState, fb0: map<Value, ForceState>, fb1: map<Value, ForceState>,
                      fb2: map<Value, ForceState>, val: Value, force: Value, cur: ForceState, x: Value)
    requires s.forcedBy == fb0
    requires Grows(fb0, fb1)
    requires forall x :: Changed(fb0, fb1, x) ==> fb1[x] == Ambiguous && Reaches(c, val, x) && x != val
    requires cur == By(force) || cur == Ambiguous
    requires ReachSet(c, val) == {val} <==> cur != Ambiguous
    requires val in ReachSet(c, val)
    requires fb2 == if NotForced(fb1, val) then fb1[val := cur] else fb1
    requires forall x :: x in ReachSet(c, val) ==> Done(fb2, x)
    requires x in fb2
    ensures var spec := ForceRecorded(c, s, val, force).forcedBy;
      x in spec && fb2[x] == spec[x]
  {
    var rs := ReachSet(c, val);
    if Changed(fb0, fb1, x) {
      ReachSetHasAll(c, val, x);
    }
    if x in rs && x != val && NotForced(fb0, x) {
      assert Done(fb2, x);
      assert Changed(fb0, fb1, x);
    }
  }

  /** The force entries of `sideeffect` once only the escaped keys in `todo`
      are left to visit. */
  function SideEffectFbLeft(fb: map<Value, ForceState>, esc: set<Value>, todo: set<Value>)
    : map<Value, ForceState>
    requires todo <= esc
  {
    map v | v in fb.Keys + (esc - todo) ::
      if v in esc && v !in todo && NotForced(fb, v) then Ambiguous else fb[v]
  }

  /** The escape sets of `sideeffect` once only the keys in `todo` are left. */
  function SideEffectEscLeft(fb: map<Value, ForceState>, esc: map<Value, set<Value>>, todo: set<Value>)
    : map<Value, set<Value>>
  {
    map v | v in esc :: if v !in todo && NotForced(fb, v) then {} else esc[v]
  }

  /** Some visited escaped key had no force: `sideeffect` reports a change. */
  predicate SideEffectHitLeft(fb: map<Value, ForceState>, esc: set<Value>, todo: set<Value>) {
    exists v :: v in esc && v !in todo && NotForced(fb, v)
  }

  lemma SideEffectStep(fb: map<Value, ForceState>, esc: map<Value, set<Value>>, todo: set<Value>, v: Value)
    requires todo <= esc.Keys && v in todo
    ensures NotForced(SideEffectFbLeft(fb, esc.Keys, todo), v) <==> NotForced(fb, v)
    ensures SideEffectFbLeft(fb, esc.Keys, todo - {v}) ==
      if NotForced(fb, v) then SideEffectFbLeft(fb, esc.Keys, todo)[v := Ambiguous]
      else SideEffectFbLeft(fb, esc.Keys, todo)
    ensures SideEffectEscLeft(fb, esc, todo - {v}) ==
      if NotForced(fb, v) then SideEffectEscLeft(fb, esc, todo)[v := {}] else SideEffectEscLeft(fb, esc, todo)
    ensures SideEffectHitLeft(fb, esc.Keys, todo - {v}) <==>
      SideEffectHitLeft(fb, esc.Keys, todo) || NotForced(fb, v)
  {
    SideEffectFbStep(fb, esc.Keys, todo, v);
    SideEffectEscStep(fb, esc, todo, v);
  }

  lemma SideEffectFbStep(fb: map<Value, ForceState>, esc: set<Value>, todo: set<Value>, v: Value)
    requires todo <= esc && v in todo
    ensures NotForced(SideEffectFbLeft(fb, esc, todo), v) <==> NotForced(fb, v)
    ensures SideEffectFbLeft(fb, esc, todo - {v}) ==
      if NotForced(fb, v) then SideEffectFbLeft(fb, esc, todo)[v := Ambiguous]
      else SideEffectFbLeft(fb, esc, todo)
  {
    var t := SideEffectFbLeft(fb, esc, todo);
    if NotForced(fb, v) {
      assert SideEffectFbLeft(fb, esc, todo - {v}) == t[v := Ambiguous];
    } else {
      assert SideEffectFbLeft(fb, esc, todo - {v}) == t;
    }
  }

  lemma SideEffectEscStep(fb: map<Value, ForceState>, esc: map<Value, set<Value>>, todo: set<Value>, v: Value)
    requires todo <= esc.Keys && v in todo
    ensures SideEffectEscLeft(fb, esc, todo - {v}) ==
      if NotForced(fb, v) then SideEffectEscLeft(fb, esc, todo)[v := {}] else SideEffectEscLeft(fb, esc, todo)
  {
    var t := SideEffectEscLeft(fb, esc, todo);
    if NotForced(fb, v) {
      assert SideEffectEscLeft(fb, esc, todo - {v}) == t[v := {}];
    } else {
      assert SideEffectEscLeft(fb, esc, todo - {v}) == t;
    }
  }

  lemma SideEffectEnds(s: ForcedByState)
    ensures SideEffectFbLeft(s.forcedBy, s.escaped.Keys, s.escaped.Keys) == s.forcedBy
    ensures SideEffectEscLeft(s.forcedBy, s.escaped, s.escaped.Keys) == s.escaped
    ensures !SideEffectHitLeft(s.forcedBy, s.escaped.Keys, s.escaped.Keys)
    ensures SideEffectFbLeft(s.forcedBy, s.escaped.Keys, {}) == SideEffected(s).forcedBy
    ensures SideEffectEscLeft(s.forcedBy, s.escaped, {}) == SideEffected(s).escaped
    ensures SideEffectHitLeft(s.forcedBy, s.escaped.Keys, {}) <==>
      exists v :: v in s.escaped && NotForced(s.forcedBy, v)
  {
    assert SideEffectFbLeft(s.forcedBy, s.escaped.Keys, s.escaped.Keys) == s.forcedBy;
    assert SideEffectEscLeft(s.forcedBy, s.escaped, s.escaped.Keys) == s.escaped;
  }

  /** The force entries of the first merge loop once only the keys in `todo`
      are left to visit. */
  function FirstLoopLeft(a: ForcedByState, b: ForcedByState, exitMerge: bool, todo: set<Value>)
    : map<Value, ForceState>
  {
    map v | v in a.forcedBy :: if v !in todo then FirstLoop(a, b, exitMerge, v) else a.forcedBy[v]
  }

  /** A visited entry lost its single force. */
  predicate LostLeft(a: ForcedByState, b: ForcedByState, exitMerge: bool, todo: set<Value>) {
    exists v :: v in LostForces(a, b, exitMerge) && v !in todo
  }

  lemma FirstLoopStep(c: Code, a: ForcedByState, b: ForcedByState, exitMerge: bool, todo: set<Value>, v: Value)
    requires todo <= a.forcedBy.Keys && v in todo
    ensures v in FirstLoopLeft(a, b, exitMerge, todo)
    ensures FirstLoopLeft(a, b, exitMerge, todo)[v] == a.forcedBy[v]
    ensures v in LostForces(a, b, exitMerge) <==>
      && a.forcedBy[v].By?
      && (if NotForced(b.forcedBy, v) then !exitMerge && v in b.inScope else b.forcedBy[v] != a.forcedBy[v])
    ensures FirstLoopLeft(a, b, exitMerge, todo - {v}) ==
      if v in LostForces(a, b, exitMerge) then FirstLoopLeft(a, b, exitMerge, todo)[v := Ambiguous]
      else FirstLoopLeft(a, b, exitMerge, todo)
    ensures LostLeft(a, b, exitMerge, todo - {v}) <==>
            LostLeft(a, b, exitMerge, todo) || v in LostForces(a, b, exitMerge)
    ensures GotAmbiguous(c, a, b, exitMerge) - (todo - {v}) ==
            if v in LostForces(a, b, exitMerge) && IsMkArg(c, v)
            then (GotAmbiguous(c, a, b, exitMerge) - todo) + {v}
            else GotAmbiguous(c, a, b, exitMerge) - todo
  {
    var t := FirstLoopLeft(a, b, exitMerge, todo);
    if v in LostForces(a, b, exitMerge) {
      assert FirstLoopLeft(a, b, exitMerge, todo - {v}) == t[v := Ambiguous];
    } else {
      assert FirstLoopLeft(a, b, exitMerge, todo - {v}) == t;
    }
  }

  lemma FirstLoopEnds(c: Code, a: ForcedByState, b: ForcedByState, exitMerge: bool)
    ensures FirstLoopLeft(a, b, exitMerge, a.forcedBy.Keys) == a.forcedBy
    ensures !LostLeft(a, b, exitMerge, a.forcedBy.Keys)
    ensures GotAmbiguous(c, a, b, exitMerge) - a.forcedBy.Keys == {}
    ensures LostLeft(a, b, exitMerge, {}) <==> LostForces(a, b, exitMerge) != {}
    ensures GotAmbiguous(c, a, b, exitMerge) - {} == GotAmbiguous(c, a, b, exitMerge)
  {
    assert FirstLoopLeft(a, b, exitMerge, a.forcedBy.Keys) == a.forcedBy;
    if LostForces(a, b, exitMerge) != {} {
      var v :| v in LostForces(a, b, exitMerge);
      assert v !in {};
    }
  }

  /** The first merge loop changes forces only into `Ambiguous`. */
  lemma FirstLoopKeepsUnforced(a: ForcedByState, b: ForcedByState, exitMerge: bool)
    ensures forall x :: NotForced(FirstLoopLeft(a, b, exitMerge, {}), x) <==> NotForced(a.forcedBy, x)
  {
  }

  /** The force entries of the second merge loop, started from `fb1`, once
      only the keys of the other side in `todo` are left to visit. */
  function AdoptedLeft(a: ForcedByState, b: ForcedByState, exitMerge: bool,
                       fb1: map<Value, ForceState>, todo: set<Value>): map<Value, ForceState>
  {
    var ad := Adopted(a, b, exitMerge) - todo;
    map v | v in fb1.Keys + ad :: if v in ad then (if exitMerge then b.forcedBy[v] else Ambiguous) else fb1[v]
  }

  /** A visited entry of the other side was adopted. */
  predicate AdoptLeft(a: ForcedByState, b: ForcedByState, exitMerge: bool, todo: set<Value>) {
    exists v :: v in Adopted(a, b, exitMerge) && v !in todo
  }

  lemma AdoptStep(a: ForcedByState, b: ForcedByState, exitMerge: bool,
                  fb1: map<Value, ForceState>, todo: set<Value>, v: Value)
    requires todo <= b.forcedBy.Keys && v in todo
    requires forall x :: NotForced(fb1, x) <==> NotForced(a.forcedBy, x)
    ensures NotForced(AdoptedLeft(a, b, exitMerge, fb1, todo), v) <==> NotForced(a.forcedBy, v)
    ensures v in Adopted(a, b, exitMerge) <==> NotForced(a.forcedBy, v) && (exitMerge || v in a.inScope)
    ensures AdoptedLeft(a, b, exitMerge, fb1, todo - {v}) ==
      if v in Adopted(a, b, exitMerge)
      then AdoptedLeft(a, b, exitMerge, fb1, todo)[v := if exitMerge then b.forcedBy[v] else Ambiguous]
      else AdoptedLeft(a, b, exitMerge, fb1, todo)
    ensures AdoptLeft(a, b, exitMerge, todo - {v}) <==>
      AdoptLeft(a, b, exitMerge, todo) || v in Adopted(a, b, exitMerge)
  {
    var t := AdoptedLeft(a, b, exitMerge, fb1, todo);
    if v in Adopted(a, b, exitMerge) {
      assert AdoptedLeft(a, b, exitMerge, fb1, todo - {v}) ==
             t[v := if exitMerge then b.forcedBy[v] else Ambiguous];
    } else {
      assert AdoptedLeft(a, b, exitMerge, fb1, todo - {v}) == t;
    }
  }

  lemma AdoptEnds(c: Code, a: ForcedByState, b: ForcedByState, exitMerge: bool)
    ensures var fb1 := FirstLoopLeft(a, b, exitMerge, {});
      && AdoptedLeft(a, b, exitMerge, fb1, b.forcedBy.Keys) == fb1
      && AdoptedLeft(a, b, exitMerge, fb1, {}) == Merged(c, a, b, exitMerge).forcedBy
    ensures !AdoptLeft(a, b, exitMerge, b.forcedBy.Keys)
    ensures AdoptLeft(a, b, exitMerge, {}) <==> Adopted(a, b, exitMerge) != {}
  {
    var fb1 := FirstLoopLeft(a, b, exitMerge, {});
    assert Adopted(a, b, exitMerge) - b.forcedBy.Keys == {};
    assert AdoptedLeft(a, b, exitMerge, fb1, b.forcedBy.Keys) == fb1;
    assert AdoptedLeft(a, b, exitMerge, fb1, {}) == Merged(c, a, b, exitMerge).forcedBy;
    if Adopted(a, b, exitMerge) != {} {
      var v :| v in Adopted(a, b, exitMerge);
      assert v !in {};
    }
  }

  /** Whether the first escape loop of merge clears the set of `v`. */
  predicate ClearsEscape(e: map<Value, set<Value>>, o: map<Value, set<Value>>, g: set<Value>, v: Value)
    requires v in e
  {
    e[v] != {} && (v !in o || o[v] == {} || e[v] != o[v] || v in g)
  }

  /** Escape sets of the first escape loop once only the keys in `todo` are left. */
  function ClearedLeft(e: map<Value, set<Value>>, o: map<Value, set<Value>>, g: set<Value>, todo: set<Value>)
    : map<Value, set<Value>>
  {
    map v | v in e :: if v !in todo && ClearsEscape(e, o, g, v) then {} else e[v]
  }

  predicate ClearHitLeft(e: map<Value, set<Value>>, o: map<Value, set<Value>>, g: set<Value>, todo: set<Value>) {
    exists v :: v in e && v !in todo && ClearsEscape(e, o, g, v)
  }

  /** ... and of the second loop, started from `e1`, once only the keys of
      the other side in `todo` are left. */
  function FilledLeft(e1: map<Value, set<Value>>, o: map<Value, set<Value>>, todo: set<Value>)
    : map<Value, set<Value>>
  {
    map v | v in e1.Keys + (o.Keys - todo) :: if v in e1 then e1[v] else {}
  }

  predicate FillHitLeft(e1: map<Value, set<Value>>, o: map<Value, set<Value>>, todo: set<Value>) {
    exists v :: v in o && v !in todo && v !in e1
  }

  lemma ClearStep(e: map<Value, set<Value>>, o: map<Value, set<Value>>, g: set<Value>,
                  todo: set<Value>, v: Value)
    requires todo <= e.Keys && v in todo
    ensures v in ClearedLeft(e, o, g, todo) && ClearedLeft(e, o, g, todo)[v] == e[v]
    ensures ClearedLeft(e, o, g, todo - {v}) ==
      if ClearsEscape(e, o, g, v) then ClearedLeft(e, o, g, todo)[v := {}] else ClearedLeft(e, o, g, todo)
    ensures ClearHitLeft(e, o, g, todo - {v}) <==> ClearHitLeft(e, o, g, todo) || ClearsEscape(e, o, g, v)
  {
    if ClearsEscape(e, o, g, v) {
      assert ClearedLeft(e, o, g, todo - {v}) == ClearedLeft(e, o, g, todo)[v := {}];
    } else {
      assert ClearedLeft(e, o, g, todo - {v}) == ClearedLeft(e, o, g, todo);
    }
  }

  lemma FillStep(e1: map<Value, set<Value>>, o: map<Value, set<Value>>, todo: set<Value>, v: Value)
    requires todo <= o.Keys && v in todo
    ensures (v in FilledLeft(e1, o, todo)) <==> v in e1
    ensures FilledLeft(e1, o, todo - {v}) ==
      if v in e1 then FilledLeft(e1, o, todo) else FilledLeft(e1, o, todo)[v := {}]
    ensures FillHitLeft(e1, o, todo - {v}) <==> FillHitLeft(e1, o, todo) || v !in e1
  {
    if v in e1 {
      assert FilledLeft(e1, o, todo - {v}) == FilledLeft(e1, o, todo);
    } else {
      assert FilledLeft(e1, o, todo - {v}) == FilledLeft(e1, o, todo)[v := {}];
    }
  }

  lemma EscapeLoopsEnds(e: map<Value, set<Value>>, o: map<Value, set<Value>>, g: set<Value>)
    ensures ClearedLeft(e, o, g, e.Keys) == e && !ClearHitLeft(e, o, g, e.Keys)
    ensures var e1 := ClearedLeft(e, o, g, {});
      && FilledLeft(e1, o, o.Keys) == e1 && !FillHitLeft(e1, o, o.Keys)
      && FilledLeft(e1, o, {}) == MergeEscapedSets(e, o, g)
  {
    var e1 := ClearedLeft(e, o, g, {});
    assert ClearedLeft(e, o, g, e.Keys) == e;
    assert FilledLeft(e1, o, o.Keys) == e1;
    assert FilledLeft(e1, o, {}) == MergeEscapedSets(e, o, g);
  }

  /** The escape loops report a change exactly when the escape sets change. */
  lemma EscapeLoopsChanged(e: map<Value, set<Value>>, o: map<Value, set<Value>>, g: set<Value>)
    ensures MergeEscapedSets(e, o, g) != e <==>
      ClearHitLeft(e, o, g, {}) || FillHitLeft(ClearedLeft(e, o, g, {}), o, {})
  {
    var m := MergeEscapedSets(e, o, g);
    if ClearHitLeft(e, o, g, {}) {
      var v :| v in e && v !in {} && ClearsEscape(e, o, g, v);
      assert m[v] != e[v];
    } else if FillHitLeft(ClearedLeft(e, o, g, {}), o, {}) {
      var v :| v in o && v !in {} && v !in ClearedLeft(e, o, g, {});
      assert v in m && v !in e;
    } else {
      assert forall v :: v in o ==> v in e;
      assert m.Keys == e.Keys;
      forall v | v in e ensures m[v] == e[v] {
        assert !ClearsEscape(e, o, g, v);
      }
    }
  }

  class ForcedBy {
    var forcedBy: map<Value, ForceState>
    var inScope: set<Value>
    var escaped: map<Value, set<Value>>
    var argumentForceOrder: seq<nat>
    var ambiguousForceOrder: bool

    function State(): ForcedByState
      reads this
    {
      ForcedByState(forcedBy, inScope, escaped, argumentForceOrder, ambiguousForceOrder)
    }

    constructor ()
      ensures State() == Initial
    {
      forcedBy := map[];
      inScope := {};
      escaped := map[];
      argumentForceOrder := [];
      ambiguousForceOrder := false;
    }

    /** `declare(arg)` (force_dominance.cpp:62-83). */
    method Declare(c: Code, arg: Value) returns (changed: bool)
      modifies this
      ensures State() == Declared(c, old(State()), arg)
      ensures changed <==> State() != old(State())
    {
      changed := false;
      if arg !in inScope {
        inScope := inScope + {arg};
        changed := true;
      }
      if arg in forcedBy && forcedBy[arg] != Unforced {
        forcedBy := forcedBy[arg := Unforced];
        changed := true;
      }
      if !IsMkArg(c, arg) {
        return;
      }
      if arg in escaped {
        escaped := escaped - {arg};
        changed := true;
      }
      if !changed {
        assert forcedBy == old(forcedBy) && inScope == old(inScope) && escaped == old(escaped);
      }
    }

    /** `sideeffect()` (force_dominance.cpp:85-105). */
    method Sideeffect() returns (changed: bool)
      modifies this
      ensures State() == SideEffected(old(State()))
      ensures changed <==> exists v :: v in old(escaped) && NotForced(old(forcedBy), v)
    {
      SideEffectEnds(State());
      changed, forcedBy, escaped := SideEffectLoop(forcedBy, escaped);
    }

    /** The loop of `sideeffect` over the escaped promises. */
    static method SideEffectLoop(fb0: map<Value, ForceState>, esc0: map<Value, set<Value>>)
      returns (changed: bool, fb: map<Value, ForceState>, esc: map<Value, set<Value>>)
      ensures fb == SideEffectFbLeft(fb0, esc0.Keys, {})
      ensures esc == SideEffectEscLeft(fb0, esc0, {})
      ensures changed <==> SideEffectHitLeft(fb0, esc0.Keys, {})
    {
      changed := false;
      fb, esc := fb0, esc0;
      var todo := esc.Keys;
      SideEffectEnds(ForcedByState(fb0, {}, esc0, [], false));
      while todo != {}
        invariant todo <= esc0.Keys
        invariant fb == SideEffectFbLeft(fb0, esc0.Keys, todo)
        invariant esc == SideEffectEscLeft(fb0, esc0, todo)
        invariant changed <==> SideEffectHitLeft(fb0, esc0.Keys, todo)
        decreases |todo|
      {
        var v :| v in todo;
        SideEffectStep(fb0, esc0, todo, v);
        RemoveOne(todo, v);
        if v !in fb || fb[v] == Unforced {
          fb := fb[v := Ambiguous];
          esc := esc[v := {}];
          changed := true;
        }
        todo := todo - {v};
      }
    }

    /** `escape(val, where)` (force_dominance.cpp:133-152). */
    method Escape(c: Code, val: Value, where: Value) returns (changed: bool)
      modifies this`escaped
      ensures State() == Escaped(c, old(State()), val, where)
      ensures changed == EscapeReports(c, old(State()), val, where)
    {
      if val in forcedBy && forcedBy[val] != Unforced {
        return false;
      }
      if IsMkEnv(c, where) {
        if val !in escaped {
          escaped := escaped[val := {where}];
        } else if escaped[val] != {} {
          if where in escaped[val] {
            return false;
          }
          escaped := escaped[val := escaped[val] + {where}];
        }
      } else {
        escaped := escaped[val := {}];
      }
      return true;
    }

    /**
     * `forcedAt(val, force)` (force_dominance.cpp:107-131): the top-level call
     * of the source's recursive lambda, which walks the inputs of `val` when
     * it is a phi and records `val` itself last.
     */
    method ForcedAt(c: Code, val: Value, force: Value) returns (changed: bool)
      modifies this`forcedBy
      ensures State() == ForceRecorded(c, old(State()), val, force)
      ensures changed <==> forcedBy != old(forcedBy)
    {
      ghost var fb0 := forcedBy;
      ghost var hit: Value := val;
      var seen: set<Value> := {};
      var cur := By(force);
      changed := false;
      ghost var other: nat := 0;
      if IsPhi(c, val) {
        var inputs := c.instrs[val].args;
        VisitStart(c, fb0, {}, val);
        seen := {val};
        for j := 0 to |inputs|
          invariant VisitInv(c, fb0, forcedBy, {}, seen, val, j, changed, hit)
          invariant cur == By(force) || cur == Ambiguous
          invariant cur == Ambiguous ==> other < j && inputs[other] != val
          invariant cur != Ambiguous ==> forall k :: 0 <= k < j ==> inputs[k] == val
          invariant seen == {val} || cur == Ambiguous
        {
          ghost var fbBefore := forcedBy;
          ghost var seenBefore := seen;
          ghost var curBefore := cur;
          var r;
          ghost var h;
          r, seen, cur, h := ForcePhiInput(c, inputs[j], cur, seen);
          VisitStep(c, fb0, fbBefore, forcedBy, {}, seenBefore, seen, val, j, changed, hit, r, h);
          if r && !changed {
            hit := h;
          }
          if cur == Ambiguous && curBefore != Ambiguous {
            other := j;
          }
          changed := r || changed;
        }
      }
      ghost var fb1 := forcedBy;
      ReachesBeyond(c, val);
      if cur == Ambiguous {
        assert IsPhi(c, val) && other < |c.instrs[val].args| && c.instrs[val].args[other] != val;
        assert c.instrs[val].args[other] in PhiInputs(c, val);
      }
      ForcedAtFinish(c, old(State()), fb0, fb1, seen, val, force, cur, changed, hit);
      if val !in forcedBy || forcedBy[val] == Unforced {
        forcedBy := forcedBy[val := cur];
        changed := true;
        assert Changed(fb0, forcedBy, val);
      } else if changed {
        assert Changed(fb0, forcedBy, hit);
      }
    }

    /**
     * One phi-input visit of the recursive lambda in `forcedAt`
     * (force_dominance.cpp:110-126 with `phiArg` true): a phi already seen is
     * skipped; otherwise its inputs are visited, and the visited value gets
     * the (now ambiguous) force unless it already has one. `hit` names an
     * entry that changed, when one did.
     */
    method ForcePhiInput(c: Code, v: Value, force: ForceState, seen: set<Value>)
      returns (res: bool, seen': set<Value>, force': ForceState, ghost hit: Value)
      requires force != Unforced && seen <= Phis(c)
      modifies this`forcedBy
      decreases |Phis(c) - seen|
      ensures IsPhi(c, v) && v in seen ==>
        !res && seen' == seen && force' == force && forcedBy == old(forcedBy)
      ensures !(IsPhi(c, v) && v in seen) ==> force' == Ambiguous
      ensures VisitPost(c, old(forcedBy), forcedBy, seen, seen', v, res, hit)
    {
      res := false;
      seen' := seen;
      force' := force;
      hit := v;
      ghost var fb0 := forcedBy;
      if IsPhi(c, v) {
        if v in seen {
          assert VisitPost(c, fb0, forcedBy, seen, seen', v, res, hit);
          return;
        }
        var inputs := c.instrs[v].args;
        VisitStart(c, fb0, seen, v);
        seen' := seen + {v};
        for j := 0 to |inputs|
          invariant VisitInv(c, fb0, forcedBy, seen, seen', v, j, res, hit)
          invariant force' != Unforced
        {
          ghost var fbBefore := forcedBy;
          ghost var seenBefore := seen';
          ProperSubsetSmaller(Phis(c) - seen', Phis(c) - seen, v);
          var r;
          ghost var h;
          r, seen', force', h := ForcePhiInput(c, inputs[j], force', seen');
          VisitStep(c, fb0, fbBefore, forcedBy, seen, seenBefore, seen', v, j, res, hit, r, h);
          if r && !res {
            hit := h;
          }
          res := r || res;
        }
        VisitFinish(c, fb0, forcedBy, seen, seen', v, res, hit);
      } else {
        VisitLeaf(c, fb0, seen, v);
      }
      force' := Ambiguous;
      if v !in forcedBy || forcedBy[v] == Unforced {
        forcedBy := forcedBy[v := force'];
        if !res {
          hit := v;
        }
        res := true;
      }
    }

    /** `merge(other)` (force_dominance.cpp:154-249, `exitMerge` false). */
    method Merge(c: Code, other: ForcedBy) returns (res: AbstractResult)
      modifies this
      ensures State() == Merged(c, old(State()), old(other.State()), false)
      ensures res == MergeReport(c, old(State()), old(other.State()), false)
    {
      res := MergeWith(c, other, false);
    }

    /** `mergeExit(other)` (force_dominance.cpp:153-155): merge with `exitMerge`. */
    method MergeExit(c: Code, other: ForcedBy) returns (res: AbstractResult)
      modifies this
      ensures State() == Merged(c, old(State()), old(other.State()), true)
      ensures res == MergeReport(c, old(State()), old(other.State()), true)
    {
      res := MergeWith(c, other, true);
    }

    /** The body of merge. `other` is read once, before anything is written,
        so that merging a state into itself is well defined. */
    method MergeWith(c: Code, other: ForcedBy, exitMerge: bool) returns (res: AbstractResult)
      modifies this
      ensures State() == Merged(c, old(State()), old(other.State()), exitMerge)
      ensures res == MergeReport(c, old(State()), old(other.State()), exitMerge)
    {
      var o := other.State();
      ghost var a := State();
      var gotAmbiguous, lost, adopted := MergeForces(c, o, exitMerge);
      var escChanged := MergeEscapeSets(o.escaped, gotAmbiguous);
      var orderChanged := MergeOrders(o);
      assert State() == Merged(c, a, o, exitMerge);
      res := NoChange;
      if lost || adopted {
        res := LostPrecision;
      } else if escChanged || orderChanged {
        res := Updated;
      }
    }

    /** The two loops over force entries (force_dominance.cpp:161-199). */
    method MergeForces(c: Code, o: ForcedByState, exitMerge: bool)
      returns (gotAmbiguous: set<Value>, lost: bool, adopted: bool)
      modifies this`forcedBy
      ensures forcedBy == Merged(c, old(State()), o, exitMerge).forcedBy
      ensures gotAmbiguous == GotAmbiguous(c, old(State()), o, exitMerge)
      ensures lost <==> LostForces(old(State()), o, exitMerge) != {}
      ensures adopted <==> Adopted(old(State()), o, exitMerge) != {}
    {
      ghost var a := State();
      var fb1;
      fb1, gotAmbiguous, lost := FirstMergeLoop(c, State(), o, exitMerge);
      forcedBy, adopted := AdoptLoop(c, State(), o, exitMerge, fb1);
    }

    /** The first loop: a single force this side knows is lost where the other
        side disagrees (force_dominance.cpp:161-184). */
    static method FirstMergeLoop(c: Code, a: ForcedByState, o: ForcedByState, exitMerge: bool)
      returns (fb: map<Value, ForceState>, gotAmbiguous: set<Value>, lost: bool)
      ensures fb == FirstLoopLeft(a, o, exitMerge, {})
      ensures gotAmbiguous == GotAmbiguous(c, a, o, exitMerge)
      ensures lost <==> LostForces(a, o, exitMerge) != {}
    {
      fb := a.forcedBy;
      gotAmbiguous := {};
      lost := false;
      var todo := fb.Keys;
      FirstLoopEnds(c, a, o, exitMerge);
      while todo != {}
        invariant todo <= a.forcedBy.Keys
        invariant fb == FirstLoopLeft(a, o, exitMerge, todo)
        invariant gotAmbiguous == GotAmbiguous(c, a, o, exitMerge) - todo
        invariant lost <==> LostLeft(a, o, exitMerge, todo)
        decreases |todo|
      {
        var v :| v in todo;
        FirstLoopStep(c, a, o, exitMerge, todo, v);
        RemoveOne(todo, v);
        var e := fb[v];
        if e.By? {
          if v !in o.forcedBy || o.forcedBy[v] == Unforced {
            if !exitMerge && v in o.inScope {
              fb := fb[v := Ambiguous];
              if IsMkArg(c, v) {
                gotAmbiguous := gotAmbiguous + {v};
              }
              lost := true;
            }
          } else if o.forcedBy[v] != e {
            fb := fb[v := Ambiguous];
            if IsMkArg(c, v) {
              gotAmbiguous := gotAmbiguous + {v};
            }
            lost := true;
          }
        }
        todo := todo - {v};
      }
    }

    /** The second loop: an entry of the other side is adopted where this
        side has no force (force_dominance.cpp:186-199). */
    static method AdoptLoop(c: Code, a: ForcedByState, o: ForcedByState, exitMerge: bool,
                            fb1: map<Value, ForceState>)
      returns (fb: map<Value, ForceState>, adopted: bool)
      requires fb1 == FirstLoopLeft(a, o, exitMerge, {})
      ensures fb == Merged(c, a, o, exitMerge).forcedBy
      ensures adopted <==> Adopted(a, o, exitMerge) != {}
    {
      fb := fb1;
      adopted := false;
      var todo := o.forcedBy.Keys;
      AdoptEnds(c, a, o, exitMerge);
      FirstLoopKeepsUnforced(a, o, exitMerge);
      while todo != {}
        invariant todo <= o.forcedBy.Keys
        invariant fb == AdoptedLeft(a, o, exitMerge, fb1, todo)
        invariant adopted <==> AdoptLeft(a, o, exitMerge, todo)
        decreases |todo|
      {
        var v :| v in todo;
        AdoptStep(a, o, exitMerge, fb1, todo, v);
        RemoveOne(todo, v);
        if v !in fb || fb[v] == Unforced {
          if exitMerge || v in a.inScope {
            fb := fb[v := if exitMerge then o.forcedBy[v] else Ambiguous];
            adopted := true;
          }
        }
        todo := todo - {v};
      }
    }

    /** The two loops over escape sets (force_dominance.cpp:201-216). */
    method MergeEscapeSets(o: map<Value, set<Value>>, gotAmbiguous: set<Value>) returns (changed: bool)
      modifies this`escaped
      ensures escaped == MergeEscapedSets(old(escaped), o, gotAmbiguous)
      ensures changed <==> escaped != old(escaped)
    {
      EscapeLoopsChanged(escaped, o, gotAmbiguous);
      changed, escaped := EscapeLoops(escaped, o, gotAmbiguous);
    }

    static method EscapeLoops(e0: map<Value, set<Value>>, o: map<Value, set<Value>>, g: set<Value>)
      returns (changed: bool, e: map<Value, set<Value>>)
      ensures e == MergeEscapedSets(e0, o, g)
      ensures changed <==> ClearHitLeft(e0, o, g, {}) || FillHitLeft(ClearedLeft(e0, o, g, {}), o, {})
    {
      var cleared;
      cleared, e := ClearLoop(e0, o, g);
      var filled;
      filled, e := FillLoop(e, o);
      EscapeLoopsEnds(e0, o, g);
      changed := cleared || filled;
    }

    /** A known escape set survives only where the other side holds the same
        one and the promise did not just become ambiguous. */
    static method ClearLoop(e0: map<Value, set<Value>>, o: map<Value, set<Value>>, g: set<Value>)
      returns (changed: bool, e: map<Value, set<Value>>)
      ensures e == ClearedLeft(e0, o, g, {})
      ensures changed <==> ClearHitLeft(e0, o, g, {})
    {
      e := e0;
      changed := false;
      var todo := e.Keys;
      EscapeLoopsEnds(e0, o, g);
      while todo != {}
        invariant todo <= e0.Keys
        invariant e == ClearedLeft(e0, o, g, todo)
        invariant changed <==> ClearHitLeft(e0, o, g, todo)
        decreases |todo|
      {
        var v :| v in todo;
        ClearStep(e0, o, g, todo, v);
        RemoveOne(todo, v);
        if e[v] != {} {
          if v !in o || o[v] == {} || e[v] != o[v] || v in g {
            e := e[v := {}];
            changed := true;
          }
        }
        todo := todo - {v};
      }
    }

    /** A promise escaped only on the other side escapes to unknown places. */
    static method FillLoop(e1: map<Value, set<Value>>, o: map<Value, set<Value>>)
      returns (changed: bool, e: map<Value, set<Value>>)
      ensures e == FilledLeft(e1, o, {})
      ensures changed <==> FillHitLeft(e1, o, {})
    {
      e := e1;
      changed := false;
      var todo := o.Keys;
      assert FilledLeft(e1, o, o.Keys) == e1;
      while todo != {}
        invariant todo <= o.Keys
        invariant e == FilledLeft(e1, o, todo)
        invariant changed <==> FillHitLeft(e1, o, todo)
        decreases |todo|
      {
        var v :| v in todo;
        FillStep(e1, o, todo, v);
        RemoveOne(todo, v);
        if v !in e {
          e := e[v := {}];
          changed := true;
        }
        todo := todo - {v};
      }
    }

    /** The force-order part of merge (force_dominance.cpp:218-246). */
    method MergeOrders(o: ForcedByState) returns (changed: bool)
      modifies this`argumentForceOrder, this`ambiguousForceOrder
      ensures argumentForceOrder == CommonPrefix(old(argumentForceOrder), o.argumentForceOrder)
      ensures ambiguousForceOrder == (old(ambiguousForceOrder) || o.ambiguousForceOrder
                                      || old(argumentForceOrder) != o.argumentForceOrder)
      ensures changed <==> argumentForceOrder != old(argumentForceOrder)
                           || ambiguousForceOrder != old(ambiguousForceOrder)
    {
      ghost var x := argumentForceOrder;
      changed := false;
      if !ambiguousForceOrder && o.ambiguousForceOrder {
        ambiguousForceOrder := true;
        changed := true;
      }
      if argumentForceOrder != o.argumentForceOrder {
        var mySize := |argumentForceOrder|;
        var otherSize := |o.argumentForceOrder|;
        var common := mySize;
        if mySize > otherSize {
          argumentForceOrder := argumentForceOrder[..otherSize];
          ambiguousForceOrder := true;
          common := otherSize;
          changed := true;
        } else if !ambiguousForceOrder && otherSize > mySize {
          ambiguousForceOrder := true;
          changed := true;
        }
        assert common == |x| || common == |o.argumentForceOrder|;
        var i := 0;
        while i < common
          invariant 0 <= i <= common <= |x| && common <= |o.argumentForceOrder|
          invariant argumentForceOrder == x[..common]
          invariant x[..i] == o.argumentForceOrder[..i]
        {
          if argumentForceOrder[i] != o.argumentForceOrder[i] {
            argumentForceOrder := argumentForceOrder[..i];
            ambiguousForceOrder := true;
            changed := true;
            CommonPrefixAt(x, o.argumentForceOrder, i);
            return;
          }
          assert x[..i + 1] == x[..i] + [x[i]];
          assert o.argumentForceOrder[..i + 1] == o.argumentForceOrder[..i] + [o.argumentForceOrder[i]];
          i := i + 1;
        }
        CommonPrefixAt(x, o.argumentForceOrder, common);
        if !changed && mySize <= otherSize {
          assert argumentForceOrder == x;
        }
      } else {
        CommonPrefixAt(x, x, |x|);
      }
    }
  }
}
