/**
 * The abstract state of the force-dominance analysis (`ForcedBy` in
 * rir/src/compiler/opt/force_dominance.cpp) as a value, the meaning of each
 * of its operations as a function on that value, and the lattice facts the
 * analysis relies on.
 *
 * The source marks "forced on some paths only, or by conflicting forces" with
 * a static sentinel Force instance; here it is the third state `Ambiguous`.
 * A `forcedBy` key that is present with no force (a null pointer in the
 * source) is `Unforced`; an absent key is kept distinct from it.
 */
module ForceLattice {
  import opened Ir

  datatype ForceState = Unforced | By(force: Value) | Ambiguous

  /** A snapshot of the five fields of a `ForcedBy`. */
  datatype ForcedByState = ForcedByState(
    forcedBy: map<Value, ForceState>,
    inScope: set<Value>,
    /** MkArg -> MkEnvs it escaped to; {} means "escaped, target unknown". */
    escaped: map<Value, set<Value>>,
    argumentForceOrder: seq<nat>,
    ambiguousForceOrder: bool)

  const Initial := ForcedByState(map[], {}, map[], [], false)

  /** No force is recorded for `v`: absent, or present with a null force. */
  predicate NotForced(m: map<Value, ForceState>, v: Value) {
    v !in m || m[v] == Unforced
  }

  /** Lattice height of an entry: not forced < one known force < ambiguous. */
  function Height(m: map<Value, ForceState>, v: Value): nat {
    if NotForced(m, v) then 0 else if m[v].By? then 1 else 2
  }

  // ---------------------------------------------------------------------
  // declare (force_dominance.cpp:62-83)

  /** `declare(v)`: `v` enters scope, any force of it is forgotten, and an
      MkArg is no longer escaped. */
  function Declared(c: Code, s: ForcedByState, v: Value): (r: ForcedByState)
    ensures v in r.inScope && NotForced(r.forcedBy, v)
    ensures IsMkArg(c, v) ==> v !in r.escaped
    ensures r.inScope == s.inScope + {v}
    ensures forall x :: x != v ==> (x in r.forcedBy <==> x in s.forcedBy)
    ensures forall x :: x in s.forcedBy && x != v ==> r.forcedBy[x] == s.forcedBy[x]
    ensures forall x :: x != v ==> (x in r.escaped <==> x in s.escaped)
    ensures forall x :: x in s.escaped && x != v ==> r.escaped[x] == s.escaped[x]
    ensures r.argumentForceOrder == s.argumentForceOrder
    ensures r.ambiguousForceOrder == s.ambiguousForceOrder
  {
    ForcedByState(
      if v in s.forcedBy && s.forcedBy[v] != Unforced then s.forcedBy[v := Unforced] else s.forcedBy,
      s.inScope + {v},
      if IsMkArg(c, v) then s.escaped - {v} else s.escaped,
      s.argumentForceOrder,
      s.ambiguousForceOrder)
  }

  // ---------------------------------------------------------------------
  // sideeffect (force_dominance.cpp:85-105)

  /** `sideeffect()`: every escaped promise not yet forced may have been
      forced by the effect—its force becomes ambiguous and its escape set
      is cleared; forced entries are left alone. */
  function SideEffected(s: ForcedByState): ForcedByState {
    s.(forcedBy := map v | v in s.forcedBy.Keys + s.escaped.Keys ::
         if v in s.escaped && NotForced(s.forcedBy, v) then Ambiguous else s.forcedBy[v],
       escaped := map v | v in s.escaped :: if NotForced(s.forcedBy, v) then {} else s.escaped[v])
  }

  lemma SideEffectedFacts(s: ForcedByState, v: Value)
    ensures var r := SideEffected(s);
      && (v in s.escaped && NotForced(s.forcedBy, v) ==>
            r.forcedBy[v] == Ambiguous && r.escaped[v] == {})
      && (v in s.escaped && !NotForced(s.forcedBy, v) ==>
            r.forcedBy[v] == s.forcedBy[v] && r.escaped[v] == s.escaped[v])
      && (v !in s.escaped ==>
            (v !in r.escaped && (v in r.forcedBy <==> v in s.forcedBy)
             && (v in s.forcedBy ==> r.forcedBy[v] == s.forcedBy[v])))
      && r.inScope == s.inScope
  {
  }

  /** After one side effect, a second one changes nothing. */
  lemma SideEffectIdempotent(s: ForcedByState)
    ensures SideEffected(SideEffected(s)) == SideEffected(s)
  {
    var r := SideEffected(s);
    var rr := SideEffected(r);
    assert rr.forcedBy.Keys == r.forcedBy.Keys;
    forall v | v in r.forcedBy ensures rr.forcedBy[v] == r.forcedBy[v] {
      if v in r.escaped { assert !NotForced(r.forcedBy, v); }
    }
    assert rr.forcedBy == r.forcedBy;
    forall v | v in r.escaped ensures rr.escaped[v] == r.escaped[v] {
      assert !NotForced(r.forcedBy, v);
    }
    assert rr.escaped == r.escaped;
  }

  // ---------------------------------------------------------------------
  // forcedAt (force_dominance.cpp:107-131)

  /** A walk that only steps from a phi to one of its inputs. */
  ghost predicate PhiPath(c: Code, p: seq<Value>) {
    |p| > 0 && forall k :: 0 <= k < |p| - 1 ==> IsPhi(c, p[k]) && p[k + 1] in PhiInputs(c, p[k])
  }

  /** `to` is `from`, or reached from it through phi inputs. */
  ghost predicate Reaches(c: Code, from: Value, to: Value) {
    exists p :: PhiPath(c, p) && p[0] == from && p[|p| - 1] == to
  }

  function AllPhiInputs(c: Code): set<Value> {
    set p, x | p in c.instrs && c.instrs[p].kind.Phi? && x in c.instrs[p].args :: x
  }

  ghost function ReachSet(c: Code, v: Value): set<Value> {
    set x | x in AllPhiInputs(c) + {v} && Reaches(c, v, x)
  }

  /**
   * `forcedAt(val, f)`: every value reachable from `val` through phi inputs
   * that has no force yet is recorded as forced; values reached through a phi
   * are recorded as ambiguous, and so is `val` itself once anything beyond it
   * was reached. Entries that already hold a force are never overwritten.
   */
  ghost function ForceRecorded(c: Code, s: ForcedByState, val: Value, f: Value): (r: ForcedByState)
    ensures r == s.(forcedBy := r.forcedBy)
  {
    var r := ReachSet(c, val);
    s.(forcedBy := map x | x in s.forcedBy.Keys + r ::
         if x in r && NotForced(s.forcedBy, x) then
           (if x == val && r == {val} then By(f) else Ambiguous)
         else s.forcedBy[x])
  }

  lemma ReachesSelf(c: Code, v: Value)
    ensures Reaches(c, v, v)
  {
    assert PhiPath(c, [v]);
  }

  lemma ReachesStep(c: Code, p: Value, q: Value, x: Value)
    requires IsPhi(c, p) && q in PhiInputs(c, p) && Reaches(c, q, x)
    ensures Reaches(c, p, x)
  {
    var path :| PhiPath(c, path) && path[0] == q && path[|path| - 1] == x;
    var longer := [p] + path;
    assert forall k :: 1 <= k < |longer| ==> longer[k] == path[k - 1];
    assert PhiPath(c, longer);
  }

  lemma ReachSetHasAll(c: Code, v: Value, x: Value)
    requires Reaches(c, v, x)
    ensures x in ReachSet(c, v)
  {
    var path :| PhiPath(c, path) && path[0] == v && path[|path| - 1] == x;
    if |path| > 1 {
      var k := |path| - 2;
      assert IsPhi(c, path[k]) && path[k + 1] in PhiInputs(c, path[k]);
      assert x in AllPhiInputs(c);
    }
  }

  /** Something other than `v` is reachable exactly when `v` is a phi with an
      input other than itself. */
  lemma {:induction false} ReachesBeyond(c: Code, v: Value)
    ensures (exists x :: x in ReachSet(c, v) && x != v) <==>
            (IsPhi(c, v) && exists q :: q in PhiInputs(c, v) && q != v)
  {
    if exists x :: x in ReachSet(c, v) && x != v {
      var x :| x in ReachSet(c, v) && x != v;
      var path :| PhiPath(c, path) && path[0] == v && path[|path| - 1] == x;
      var k := FirstOther(path, v);
      assert IsPhi(c, path[k - 1]) && path[k] in PhiInputs(c, path[k - 1]);
    }
    if IsPhi(c, v) && exists q :: q in PhiInputs(c, v) && q != v {
      var q :| q in PhiInputs(c, v) && q != v;
      assert PhiPath(c, [v, q]);
      ReachSetHasAll(c, v, q);
    }
  }

  lemma {:induction false} FirstOther(p: seq<Value>, v: Value) returns (k: nat)
    requires |p| > 0 && p[0] == v && p[|p| - 1] != v
    ensures 0 < k < |p| && p[k] != v && p[k - 1] == v
    decreases |p|
  {
    if p[1] != v {
      k := 1;
    } else {
      var k' := FirstOther(p[1..], v);
      k := k' + 1;
    }
  }

  /** Forcing a value that is not a phi records exactly that value. */
  lemma ForceOfNonPhi(c: Code, s: ForcedByState, val: Value, f: Value)
    requires !IsPhi(c, val)
    ensures var r := ForceRecorded(c, s, val, f);
      && val in r.forcedBy
      && r.forcedBy[val] == (if NotForced(s.forcedBy, val) then By(f) else s.forcedBy[val])
      && (forall x :: x != val ==> (x in r.forcedBy <==> x in s.forcedBy))
      && (forall x :: x in s.forcedBy && x != val ==> r.forcedBy[x] == s.forcedBy[x])
  {
    ReachesSelf(c, val);
    ReachSetHasAll(c, val, val);
    ReachesBeyond(c, val);
    assert ReachSet(c, val) == {val};
  }

  /** Forcing a phi with an input other than itself records the phi and every
      value reachable through it as ambiguous, unless already forced. */
  lemma ForceOfPhi(c: Code, s: ForcedByState, val: Value, f: Value, x: Value)
    requires IsPhi(c, val) && exists q :: q in PhiInputs(c, val) && q != val
    requires Reaches(c, val, x)
    ensures var r := ForceRecorded(c, s, val, f);
      x in r.forcedBy && r.forcedBy[x] == (if NotForced(s.forcedBy, x) then Ambiguous else s.forcedBy[x])
  {
    ReachesBeyond(c, val);
    ReachSetHasAll(c, val, x);
  }

  /** `forcedAt` never overwrites a recorded force (ambiguous included), and
      every entry it writes is a force, never `Unforced`. */
  lemma ForceRecordedKeepsForces(c: Code, s: ForcedByState, val: Value, f: Value, x: Value)
    ensures var r := ForceRecorded(c, s, val, f);
      && (x in s.forcedBy ==> x in r.forcedBy)
      && (!NotForced(s.forcedBy, x) ==> r.forcedBy[x] == s.forcedBy[x])
      && (x in r.forcedBy && NotForced(s.forcedBy, x) && Reaches(c, val, x) ==>
            r.forcedBy[x] != Unforced)
      && (!Reaches(c, val, x) ==>
            ((x in r.forcedBy <==> x in s.forcedBy)
             && (x in s.forcedBy ==> r.forcedBy[x] == s.forcedBy[x])))
  {
    if Reaches(c, val, x) { ReachSetHasAll(c, val, x); }
  }

  // ---------------------------------------------------------------------
  // escape (force_dominance.cpp:133-152)

  /** `escape(val, where)`: the new state. */
  function Escaped(c: Code, s: ForcedByState, val: Value, where: Value): ForcedByState {
    if !NotForced(s.forcedBy, val) then s
    else if IsMkEnv(c, where) then
      if val !in s.escaped then s.(escaped := s.escaped[val := {where}])
      else if s.escaped[val] == {} || where in s.escaped[val] then s
      else s.(escaped := s.escaped[val := s.escaped[val] + {where}])
    else s.(escaped := s.escaped[val := {}])
  }

  /** `escape(val, where)`: what it returns. */
  predicate EscapeReports(c: Code, s: ForcedByState, val: Value, where: Value) {
    NotForced(s.forcedBy, val) &&
    !(IsMkEnv(c, where) && val in s.escaped && where in s.escaped[val])
  }

  lemma EscapeFacts(c: Code, s: ForcedByState, val: Value, where: Value)
    ensures var r := Escaped(c, s, val, where);
      && (!NotForced(s.forcedBy, val) ==> r == s && !EscapeReports(c, s, val, where))
      && (NotForced(s.forcedBy, val) && !IsMkEnv(c, where) ==>
            r.escaped[val] == {} && EscapeReports(c, s, val, where))
      && (NotForced(s.forcedBy, val) && val in s.escaped && s.escaped[val] == {} ==>
            r.escaped[val] == {})
      && (NotForced(s.forcedBy, val) && IsMkEnv(c, where) && val !in s.escaped ==>
            r.escaped[val] == {where})
      && ((NotForced(s.forcedBy, val) && IsMkEnv(c, where) && val in s.escaped
            && s.escaped[val] != {}) ==> r.escaped[val] == s.escaped[val] + {where})
      && (val in s.escaped && IsMkEnv(c, where) && where in s.escaped[val] ==>
            r == s && !EscapeReports(c, s, val, where))
      && r.forcedBy == s.forcedBy && r.inScope == s.inScope
      && r.argumentForceOrder == s.argumentForceOrder
      && r.ambiguousForceOrder == s.ambiguousForceOrder
      && (forall x :: x != val ==> (x in r.escaped <==> x in s.escaped))
      && (forall x :: x in s.escaped && x != val ==> r.escaped[x] == s.escaped[x])
  {
  }

  /** When `escape` reports no change, the state is indeed unchanged. */
  lemma EscapeSilentMeansUnchanged(c: Code, s: ForcedByState, val: Value, where: Value)
    requires !EscapeReports(c, s, val, where)
    ensures Escaped(c, s, val, where) == s
  {
  }

  // ---------------------------------------------------------------------
  // merge / mergeExit (force_dominance.cpp:154-249)

  /** The entry of `v` after the first loop of merge, which only looks at
      entries of `a` holding a single known force. */
  function FirstLoop(a: ForcedByState, b: ForcedByState, exitMerge: bool, v: Value): ForceState
    requires v in a.forcedBy
  {
    match a.forcedBy[v]
    case By(g) =>
      if NotForced(b.forcedBy, v) then
        (if !exitMerge && v in b.inScope then Ambiguous else By(g))
      else if b.forcedBy[v] != By(g) then Ambiguous
      else By(g)
    case other => other
  }

  /** Entries of `a` whose single known force the first loop turned ambiguous. */
  function LostForces(a: ForcedByState, b: ForcedByState, exitMerge: bool): set<Value> {
    set v | v in a.forcedBy && a.forcedBy[v].By? && FirstLoop(a, b, exitMerge, v) == Ambiguous
  }

  /** Entries of `b` the second loop writes into `a` (where `a` has no force). */
  function Adopted(a: ForcedByState, b: ForcedByState, exitMerge: bool): set<Value> {
    set v | v in b.forcedBy && NotForced(a.forcedBy, v) && (exitMerge || v in a.inScope)
  }

  /** The longest common prefix of two force orders. */
  function CommonPrefix(x: seq<nat>, y: seq<nat>): (r: seq<nat>)
    ensures |r| <= |x| && |r| <= |y|
    ensures r == x[..|r|] && r == y[..|r|]
  {
    if x == [] || y == [] || x[0] != y[0] then []
    else [x[0]] + CommonPrefix(x[1..], y[1..])
  }

  /** The MkArgs among the lost forces (`gotAmbiguous` in the source). */
  function GotAmbiguous(c: Code, a: ForcedByState, b: ForcedByState, exitMerge: bool): set<Value> {
    set v | v in LostForces(a, b, exitMerge) && IsMkArg(c, v)
  }

  /** Escape sets after a merge: a known set survives only where both sides
      hold the same one and the promise did not just become ambiguous; an
      MkArg escaped only on the other side is escaped to unknown places. */
  function MergeEscapedSets(x: map<Value, set<Value>>, y: map<Value, set<Value>>, dropped: set<Value>)
    : map<Value, set<Value>>
  {
    map v | v in x.Keys + y.Keys ::
      if v in x && x[v] != {} && v in y && y[v] == x[v] && v !in dropped then x[v] else {}
  }

  /** `a.merge(b, exitMerge)`: the new state of `a`. */
  function Merged(c: Code, a: ForcedByState, b: ForcedByState, exitMerge: bool): ForcedByState {
    var adopted := Adopted(a, b, exitMerge);
    ForcedByState(
      map v | v in a.forcedBy.Keys + adopted ::
        if v in adopted then (if exitMerge then b.forcedBy[v] else Ambiguous)
        else FirstLoop(a, b, exitMerge, v),
      a.inScope,
      MergeEscapedSets(a.escaped, b.escaped, GotAmbiguous(c, a, b, exitMerge)),
      CommonPrefix(a.argumentForceOrder, b.argumentForceOrder),
      a.ambiguousForceOrder || b.ambiguousForceOrder
        || a.argumentForceOrder != b.argumentForceOrder)
  }

  /** What merge reports: lost precision when a force entry was written,
      otherwise an update when escape sets or the force order changed. */
  function MergeReport(c: Code, a: ForcedByState, b: ForcedByState, exitMerge: bool): AbstractResult {
    var m := Merged(c, a, b, exitMerge);
    if LostForces(a, b, exitMerge) != {} || Adopted(a, b, exitMerge) != {} then LostPrecision
    else if m.escaped != a.escaped || m.argumentForceOrder != a.argumentForceOrder
         || m.ambiguousForceOrder != a.ambiguousForceOrder then Updated
    else NoChange
  }

  /** Ambiguous entries are never changed back, in either kind of merge. */
  lemma MergeKeepsAmbiguous(c: Code, a: ForcedByState, b: ForcedByState, exitMerge: bool, v: Value)
    requires v in a.forcedBy && a.forcedBy[v] == Ambiguous
    ensures var m := Merged(c, a, b, exitMerge); v in m.forcedBy && m.forcedBy[v] == Ambiguous
  {
  }

  /** In a non-exit merge, a force F on one side meets a different force, an
      ambiguous entry, or an unforced in-scope value on the other side and
      becomes ambiguous; the same force F on both sides is kept. */
  lemma MergeDisagreement(c: Code, a: ForcedByState, b: ForcedByState, v: Value, f: Value)
    requires v in a.forcedBy && a.forcedBy[v] == By(f)
    ensures var m := Merged(c, a, b, false);
      && (NotForced(b.forcedBy, v) && v in b.inScope ==> m.forcedBy[v] == Ambiguous)
      && (NotForced(b.forcedBy, v) && v !in b.inScope ==> m.forcedBy[v] == By(f))
      && (v in b.forcedBy && b.forcedBy[v] != Unforced && b.forcedBy[v] != By(f) ==>
            m.forcedBy[v] == Ambiguous)
      && (v in b.forcedBy && b.forcedBy[v] == By(f) ==> m.forcedBy[v] == By(f))
  {
  }

  /** In a non-exit merge, a value unforced on this side but forced on the
      other becomes ambiguous when it is in scope here, and stays as it was
      otherwise. */
  lemma MergeOtherSideForced(c: Code, a: ForcedByState, b: ForcedByState, v: Value)
    requires NotForced(a.forcedBy, v) && v in b.forcedBy && b.forcedBy[v] != Unforced
    ensures var m := Merged(c, a, b, false);
      && (v in a.inScope ==> v in m.forcedBy && m.forcedBy[v] == Ambiguous)
      && (v !in a.inScope ==> (v in m.forcedBy <==> v in a.forcedBy) && NotForced(m.forcedBy, v))
  {
  }

  /** In an exit merge, the other side's entry is copied in wherever this side
      has no force, and a single known force survives an unforced other side. */
  lemma MergeExitCopies(c: Code, a: ForcedByState, b: ForcedByState, v: Value)
    ensures var m := Merged(c, a, b, true);
      && (NotForced(a.forcedBy, v) && v in b.forcedBy ==> m.forcedBy[v] == b.forcedBy[v])
      && (v in a.forcedBy && a.forcedBy[v].By? && NotForced(b.forcedBy, v) ==>
            m.forcedBy[v] == a.forcedBy[v])
  {
  }

  /** A merge, exit merge or not, only climbs the lattice: an entry's height
      never drops, and a single known force is either kept or becomes ambiguous. */
  lemma MergeMonotone(c: Code, a: ForcedByState, b: ForcedByState, exitMerge: bool, v: Value)
    ensures var m := Merged(c, a, b, exitMerge);
      && Height(a.forcedBy, v) <= Height(m.forcedBy, v)
      && (v in a.forcedBy && a.forcedBy[v].By? ==>
            m.forcedBy[v] == a.forcedBy[v] || m.forcedBy[v] == Ambiguous)
  {
  }

  /**
   * The order after a merge is exactly the longest common prefix of both
   * orders; the order becomes ambiguous when either side was ambiguous or the
   * orders differed, and an ambiguous order never becomes unambiguous.
   */
  lemma {:induction false} MergeOrder(c: Code, a: ForcedByState, b: ForcedByState, exitMerge: bool)
    ensures var m := Merged(c, a, b, exitMerge);
      && m.argumentForceOrder == a.argumentForceOrder[..|m.argumentForceOrder|]
      && m.argumentForceOrder == b.argumentForceOrder[..|m.argumentForceOrder|]
      && (|m.argumentForceOrder| == |a.argumentForceOrder|
          || |m.argumentForceOrder| == |b.argumentForceOrder|
          || a.argumentForceOrder[|m.argumentForceOrder|] != b.argumentForceOrder[|m.argumentForceOrder|])
      && (m.ambiguousForceOrder <==>
            a.ambiguousForceOrder || b.ambiguousForceOrder || a.argumentForceOrder != b.argumentForceOrder)
      && (a.ambiguousForceOrder ==> m.ambiguousForceOrder)
  {
    CommonPrefixMaximal(a.argumentForceOrder, b.argumentForceOrder);
  }

  lemma {:induction false} CommonPrefixMaximal(x: seq<nat>, y: seq<nat>)
    ensures var r := CommonPrefix(x, y);
      |r| == |x| || |r| == |y| || x[|r|] != y[|r|]
  {
    if x == [] || y == [] || x[0] != y[0] {
    } else {
      CommonPrefixMaximal(x[1..], y[1..]);
    }
  }

  /** The common prefix is the prefix up to the first position where the two
      orders differ (or one ends). */
  lemma {:induction false} CommonPrefixAt(x: seq<nat>, y: seq<nat>, k: nat)
    requires k <= |x| && k <= |y| && x[..k] == y[..k]
    requires k == |x| || k == |y| || x[k] != y[k]
    ensures CommonPrefix(x, y) == x[..k]
  {
    if k == 0 {
    } else {
      assert x[0] == y[0] by { assert x[..k][0] == y[..k][0]; }
      assert x[1..][..k - 1] == x[..k][1..];
      assert y[1..][..k - 1] == y[..k][1..];
      CommonPrefixAt(x[1..], y[1..], k - 1);
      assert x[..k] == [x[0]] + x[1..][..k - 1];
    }
  }

  /** Escape sets after a merge: a known set survives only when both sides hold
      the same one, an ambiguous (empty) set stays ambiguous, and an MkArg
      escaped only on the other side becomes escaped-ambiguous here. */
  lemma MergeEscapes(c: Code, a: ForcedByState, b: ForcedByState, exitMerge: bool, v: Value)
    ensures var m := Merged(c, a, b, exitMerge);
      && (v in m.escaped <==> v in a.escaped || v in b.escaped)
      && (v in m.escaped && m.escaped[v] != {} ==>
            v in a.escaped && v in b.escaped && m.escaped[v] == a.escaped[v] == b.escaped[v])
      && (v in a.escaped && a.escaped[v] == {} ==> m.escaped[v] == {})
      && (v in b.escaped && v !in a.escaped ==> m.escaped[v] == {})
  {
  }

  /**
   * Merging an explicitly unforced, in-scope entry with a state that holds an
   * explicit unforced entry for the same value makes it ambiguous: the second
   * loop of the source does not skip the other side's null entries. So a
   * state merged with itself is not always left unchanged.
   */
  lemma MergeOfUnforcedEntries(c: Code, a: ForcedByState, b: ForcedByState, v: Value)
    requires v in a.forcedBy && a.forcedBy[v] == Unforced && v in a.inScope
    requires v in b.forcedBy && b.forcedBy[v] == Unforced
    ensures Merged(c, a, b, false).forcedBy[v] == Ambiguous
    ensures MergeReport(c, a, b, false) == LostPrecision
  {
    assert v in Adopted(a, b, false);
  }

  /** Merging a state holding no explicit unforced in-scope entry with itself
      changes nothing. */
  lemma MergeSelf(c: Code, a: ForcedByState, exitMerge: bool)
    requires forall v :: v in a.forcedBy && a.forcedBy[v] == Unforced ==> v !in a.inScope || exitMerge
    ensures Merged(c, a, a, exitMerge).forcedBy.Keys == a.forcedBy.Keys
    ensures forall v :: v in a.forcedBy && a.forcedBy[v] != Unforced ==>
      Merged(c, a, a, exitMerge).forcedBy[v] == a.forcedBy[v]
    ensures Merged(c, a, a, exitMerge).escaped == a.escaped
    ensures Merged(c, a, a, exitMerge).argumentForceOrder == a.argumentForceOrder
    ensures Merged(c, a, a, exitMerge).ambiguousForceOrder == a.ambiguousForceOrder
  {
    var m := Merged(c, a, a, exitMerge);
    assert LostForces(a, a, exitMerge) == {};
    CommonPrefixAt(a.argumentForceOrder, a.argumentForceOrder, |a.argumentForceOrder|);
    assert m.escaped.Keys == a.escaped.Keys;
    forall v | v in a.escaped ensures m.escaped[v] == a.escaped[v] { }
  }

  // ---------------------------------------------------------------------
  // Queries (force_dominance.cpp:251-304)

  /** `maybeForced(i)`: the argument `i` may already have been forced. */
  method MaybeForced(s: ForcedByState, i: nat) returns (r: bool)
    ensures r <==> i in s.argumentForceOrder || s.ambiguousForceOrder
  {
    for k := 0 to |s.argumentForceOrder|
      invariant forall j :: 0 <= j < k ==> s.argumentForceOrder[j] != i
    {
      if s.argumentForceOrder[k] == i {
        return true;
      }
    }
    return s.ambiguousForceOrder;
  }

  /** `eagerLikeFunction(fun)`: the first `nargs` arguments are forced, in
      order, before anything else could observe it. */
  method EagerLikeFunction(s: ForcedByState, nargs: nat) returns (r: bool)
    ensures r <==> !s.ambiguousForceOrder && |s.argumentForceOrder| >= nargs
                   && forall k :: 0 <= k < nargs ==> s.argumentForceOrder[k] == k
  {
    if s.ambiguousForceOrder || |s.argumentForceOrder| < nargs {
      return false;
    }
    for i := 0 to nargs
      invariant forall k :: 0 <= k < i ==> s.argumentForceOrder[k] == k
    {
      if s.argumentForceOrder[i] != i {
        return false;
      }
    }
    return true;
  }

  /** The value a Force instruction forces, after casts. */
  function ForcedValue(c: Code, f: Value): Value
    requires IsForce(c, f)
  {
    FollowCasts(c, c.instrs[f].kind.target)
  }

  /** `getDominatingForce(f)`: the unique force recorded for what `f` forces;
      none when nothing, or something ambiguous, is recorded. */
  function GetDominatingForce(c: Code, s: ForcedByState, f: Value): (r: Option<Value>)
    requires IsForce(c, f)
    ensures r.Some? <==> ForcedValue(c, f) in s.forcedBy && s.forcedBy[ForcedValue(c, f)].By?
    ensures r.Some? ==> s.forcedBy[ForcedValue(c, f)] == By(r.value)
  {
    var a := ForcedValue(c, f);
    if a !in s.forcedBy then None
    else match s.forcedBy[a]
      case By(g) => Some(g)
      case _ => None
  }

  predicate IsDominatingForce(c: Code, s: ForcedByState, f: Value)
    requires IsForce(c, f)
  {
    GetDominatingForce(c, s, f) == Some(f)
  }

  datatype PromiseInlineable = SafeToInline | SafeToInlineWithUpdate | NotSafeToInline

  /**
   * `isSafeToInline(a, f, finalState)`, asked of the state before `f`: a
   * promise that has not escaped can be inlined; one escaped to unknown
   * places cannot; one escaped to known environments can, with those
   * environments updated, exactly when `f` dominates in the final state.
   */
  function IsSafeToInline(c: Code, s: ForcedByState, a: Value, f: Value, final: ForcedByState)
    : (r: PromiseInlineable)
    requires IsForce(c, f)
    ensures r == SafeToInline <==> a !in s.escaped
    ensures r == NotSafeToInline <==>
      a in s.escaped && (s.escaped[a] == {} || !IsDominatingForce(c, final, f))
    ensures r == SafeToInlineWithUpdate <==>
      a in s.escaped && s.escaped[a] != {} && IsDominatingForce(c, final, f)
  {
    if a !in s.escaped then SafeToInline
    else if s.escaped[a] == {} then NotSafeToInline
    else if IsDominatingForce(c, final, f) then SafeToInlineWithUpdate
    else NotSafeToInline
  }

  /** A force recorded by `forcedAt` on a fresh declaration dominates. */
  lemma DeclareThenForceDominates(c: Code, s: ForcedByState, f: Value)
    requires IsForce(c, f) && !IsPhi(c, ForcedValue(c, f))
    ensures var v := ForcedValue(c, f);
      IsDominatingForce(c, ForceRecorded(c, Declared(c, s, v), v, f), f)
  {
    var v := ForcedValue(c, f);
    ForceOfNonPhi(c, Declared(c, s, v), v, f);
  }

  /** Once a side effect made an escaped, unforced promise ambiguous, no force
      of it dominates any more. */
  lemma SideEffectBlocksDomination(c: Code, s: ForcedByState, f: Value)
    requires IsForce(c, f)
    requires ForcedValue(c, f) in s.escaped && NotForced(s.forcedBy, ForcedValue(c, f))
    ensures GetDominatingForce(c, SideEffected(s), f) == None
    ensures GetDominatingForce(c, ForceRecorded(c, SideEffected(s), ForcedValue(c, f), f), f) == None
  {
    var v := ForcedValue(c, f);
    SideEffectedFacts(s, v);
    ForceRecordedKeepsForces(c, SideEffected(s), v, f, v);
  }
}
