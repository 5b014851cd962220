/**
 * The decisions of the force-dominance pass (`ForceDominance::apply`,
 * force_dominance.cpp:513-804): which forces are made strict and inlined,
 * which are replaced by the force that dominates them, and which forces and
 * casts of eager MkArgs are replaced by the eager value. The rewrites
 * themselves are recorded as a list of actions; the analysis results they
 * are based on are inputs.
 */
module ForcePlan {
  import opened Ir
  import opened ForceLattice

  /** `PROMISE_INLINER_MAX_SIZE` unless the environment sets it (force_dominance.cpp:807-810). */
  const DefaultPromiseInlinerMaxSize: nat := 3000

  /** In huge code only promises smaller than this are inlined. */
  const HugeCodePromiseLimit: nat := 10

  /** What the decision pass concludes about one Force. */
  datatype Verdict =
    | Inline(update: Option<set<Value>>)  // dominating and inlined; `update`: the environments to patch
    | StrictOnly                           // dominating, not inlined
    | DominatedBy(dom: Value)              // another force dominates it
    | NoVerdict

  /**
   * The decision for the Force `f` from the analysis result at the exits
   * reachable from `f` (`atReachableExits`), the state `before` it and the
   * final state (force_dominance.cpp:538-563).
   */
  function Decide(c: Code, f: Value, atReachableExits: ForcedByState, before: ForcedByState,
                  final: ForcedByState, huge: bool): (r: Verdict)
    requires IsForce(c, f)
    ensures r.Inline? || r.StrictOnly? <==> IsDominatingForce(c, atReachableExits, f)
  {
    if IsDominatingForce(c, atReachableExits, f) then
      var mk := FollowCastsAndForce(c, f);
      if IsMkArg(c, mk) && !IsEagerMkArg(c, mk)
         && (!huge || c.instrs[mk].kind.promSize < HugeCodePromiseLimit) then
        match IsSafeToInline(c, before, mk, f, final)
        case NotSafeToInline => StrictOnly
        case SafeToInline => Inline(None)
        case SafeToInlineWithUpdate => Inline(Some(before.escaped[mk]))
      else StrictOnly
    else
      match GetDominatingForce(c, atReachableExits, f)
      case Some(d) => if d != f then DominatedBy(d) else NoVerdict
      case None => NoVerdict
  }

  /** The sets and maps the decision pass fills. */
  datatype Plan = Plan(
    strict: set<Value>,                   // `f->strict = true`
    toInline: set<Value>,
    needsUpdate: map<Value, set<Value>>,
    dominatedBy: map<Value, Value>)

  const EmptyPlan := Plan({}, {}, map[], map[])

  /** The analysis results the decisions read, per instruction. */
  datatype Results = Results(
    atReachableExits: Value -> ForcedByState,  // resultIgnoringUnreachableExits(f)
    before: Value -> ForcedByState,       // before(i)
    final: ForcedByState)                 // result()

  /** The plan after recording the decision for the Force `f`. */
  function Record(p: Plan, f: Value, v: Verdict): (r: Plan)
    ensures forall g :: g in r.strict <==> g in p.strict || (g == f && (v.Inline? || v.StrictOnly?))
    ensures forall g :: g in r.toInline <==> g in p.toInline || (g == f && v.Inline?)
    ensures forall g :: g in r.needsUpdate <==>
      (if g == f then (v.Inline? && v.update.Some?) || g in p.needsUpdate else g in p.needsUpdate)
    ensures forall g :: g in r.needsUpdate ==>
      r.needsUpdate[g] == if g == f && v.Inline? && v.update.Some? then v.update.value else p.needsUpdate[g]
    ensures forall g :: g in r.dominatedBy <==>
      (if g == f then v.DominatedBy? || g in p.dominatedBy else g in p.dominatedBy)
    ensures forall g :: g in r.dominatedBy ==>
      r.dominatedBy[g] == if g == f && v.DominatedBy? then v.dom else p.dominatedBy[g]
  {
    match v
    case Inline(u) =>
      p.(strict := p.strict + {f}, toInline := p.toInline + {f},
         needsUpdate := if u.Some? then p.needsUpdate[f := u.value] else p.needsUpdate)
    case StrictOnly => p.(strict := p.strict + {f})
    case DominatedBy(d) => p.(dominatedBy := p.dominatedBy[f := d])
    case NoVerdict => p
  }

  /** The plan after visiting `instrs` in order. */
  function PlanOf(c: Code, instrs: seq<Value>, r: Results, huge: bool): Plan
    decreases |instrs|
  {
    if instrs == [] then EmptyPlan
    else
      var p := PlanOf(c, instrs[..|instrs| - 1], r, huge);
      var f := instrs[|instrs| - 1];
      if IsForce(c, f) then Record(p, f, Decide(c, f, r.atReachableExits(f), r.before(f), r.final, huge)) else p
  }

  /** `f` is a Force among `instrs`. */
  predicate VisitedForce(c: Code, instrs: seq<Value>, f: Value) {
    f in instrs && IsForce(c, f)
  }

  /**
   * What the plan holds, for every value: the forces made strict are the
   * dominating ones; those inlined, those whose environments need an update
   * and those dominated are the ones so decided, with the decided data.
   */
  lemma {:induction false} PlanContents(c: Code, instrs: seq<Value>, r: Results, huge: bool, f: Value)
    ensures var p := PlanOf(c, instrs, r, huge);
      && (f in p.strict <==> VisitedForce(c, instrs, f) && IsDominatingForce(c, r.atReachableExits(f), f))
      && (f in p.toInline <==> VisitedForce(c, instrs, f)
                               && Decide(c, f, r.atReachableExits(f), r.before(f), r.final, huge).Inline?)
      && (f in p.needsUpdate <==>
            (VisitedForce(c, instrs, f)
             && Decide(c, f, r.atReachableExits(f), r.before(f), r.final, huge).Inline?
             && Decide(c, f, r.atReachableExits(f), r.before(f), r.final, huge).update.Some?))
      && (f in p.needsUpdate ==>
            p.needsUpdate[f] == Decide(c, f, r.atReachableExits(f), r.before(f), r.final, huge).update.value)
      && (f in p.dominatedBy <==>
            (VisitedForce(c, instrs, f)
             && Decide(c, f, r.atReachableExits(f), r.before(f), r.final, huge).DominatedBy?))
      && (f in p.dominatedBy ==>
            p.dominatedBy[f] == Decide(c, f, r.atReachableExits(f), r.before(f), r.final, huge).dom)
    decreases |instrs|
  {
    if instrs != [] {
      var front := instrs[..|instrs| - 1];
      var g := instrs[|instrs| - 1];
      PlanContents(c, front, r, huge, f);
      assert instrs == front + [g];
      assert f in instrs <==> f in front || f == g;
    }
  }

  /** An inlined force dominates, forces a lazy promise small enough for the
      code's size, and is safe to inline; the environments it must update
      are the known, non-empty places the promise escaped to. */
  lemma InlineDecision(c: Code, f: Value, atReachableExits: ForcedByState, before: ForcedByState,
                       final: ForcedByState, huge: bool)
    requires IsForce(c, f)
    ensures var v := Decide(c, f, atReachableExits, before, final, huge);
      var mk := FollowCastsAndForce(c, f);
      v.Inline? ==>
        && IsDominatingForce(c, atReachableExits, f)
        && IsMkArg(c, mk) && !IsEagerMkArg(c, mk)
        && (huge ==> c.instrs[mk].kind.promSize < HugeCodePromiseLimit)
        && IsSafeToInline(c, before, mk, f, final) != NotSafeToInline
        && (v.update.Some? <==> mk in before.escaped)
        && (v.update.Some? ==> v.update.value == before.escaped[mk] && v.update.value != {}
                               && IsDominatingForce(c, final, f))
  {
  }

  /** A dominated force is not dominating itself, and is replaced by the one
      force recorded for its value, which is a different force. */
  lemma DominatedDecision(c: Code, f: Value, atReachableExits: ForcedByState, before: ForcedByState,
                          final: ForcedByState, huge: bool)
    requires IsForce(c, f)
    ensures var v := Decide(c, f, atReachableExits, before, final, huge);
      && (v.DominatedBy? <==> !IsDominatingForce(c, atReachableExits, f) && GetDominatingForce(c, atReachableExits, f).Some?)
      && (v.DominatedBy? ==> v.dom != f && atReachableExits.forcedBy[ForcedValue(c, f)] == By(v.dom))
  {
  }

  /** A force is never both made strict and replaced by another one. */
  lemma StrictAndDominatedDisjoint(c: Code, instrs: seq<Value>, r: Results, huge: bool, f: Value)
    ensures var p := PlanOf(c, instrs, r, huge);
      !(f in p.strict && f in p.dominatedBy) && p.needsUpdate.Keys <= p.toInline && p.toInline <= p.strict
  {
    var p := PlanOf(c, instrs, r, huge);
    forall g ensures !(g in p.strict && g in p.dominatedBy) && (g in p.needsUpdate ==> g in p.toInline)
                     && (g in p.toInline ==> g in p.strict)
    {
      PlanContents(c, instrs, r, huge, g);
    }
  }

  // ---------------------------------------------------------------------
  // The rewrite phases (force_dominance.cpp:573-778)

  /** Where a dominated force's uses go. */
  datatype Replacement =
    | Dominator(dom: Value)       // the dominating force itself
    | InlinedResult(dom: Value)   // the result of the promise inlined at the dominating force

  datatype Rewrite =
    | UseEagerValue(force: Value, eager: Value)            // a force of an eager MkArg is removed
    | InlinePromise(force: Value, mkarg: Value, update: set<Value>)
    | UpcastEager(cast: Value, eager: Value)               // a cast of an eager MkArg
    | ReplaceDominated(force: Value, target: Replacement)

  /** The outcome of the first phase. */
  datatype Phase1 = Phase1(rewrites: seq<Rewrite>, removed: set<Value>, inlined: set<Value>, anyChange: bool)

  /** What the first phase does with the instruction `x` (force_dominance.cpp:573-755). */
  function Phase1Step(c: Code, p: Plan, acc: Phase1, x: Value): Phase1 {
    if IsForce(c, x) then
      var mk := FollowCastsAndForce(c, x);
      if IsEagerMkArg(c, mk) then
        Phase1(acc.rewrites + [UseEagerValue(x, c.instrs[mk].kind.eagerArg.value)],
               acc.removed + {x}, acc.inlined, true)
      else if IsMkArg(c, mk) && x in p.toInline then
        Phase1(acc.rewrites + [InlinePromise(x, mk, if x in p.needsUpdate then p.needsUpdate[x] else {})],
               acc.removed + {x}, acc.inlined + {x}, true)
      else acc
    else if x in c.instrs && c.instrs[x].kind.CastType? && IsEagerMkArg(c, c.instrs[x].kind.castArg) then
      var mk := c.instrs[x].kind.castArg;
      Phase1(acc.rewrites + [UpcastEager(x, c.instrs[mk].kind.eagerArg.value)], acc.removed, acc.inlined, true)
    else acc
  }

  function Phase1Of(c: Code, instrs: seq<Value>, p: Plan): Phase1
    decreases |instrs|
  {
    if instrs == [] then Phase1([], {}, {}, false)
    else Phase1Step(c, p, Phase1Of(c, instrs[..|instrs| - 1], p), instrs[|instrs| - 1])
  }

  /** What the second phase does with the instruction `x` (force_dominance.cpp:756-778). */
  function Phase2Step(c: Code, p: Plan, done: Phase1, x: Value): seq<Rewrite> {
    if IsForce(c, x) && x !in done.removed && x in p.dominatedBy then
      var d := p.dominatedBy[x];
      [ReplaceDominated(x, if d in done.inlined then InlinedResult(d) else Dominator(d))]
    else []
  }

  function Phase2Of(c: Code, instrs: seq<Value>, p: Plan, done: Phase1): seq<Rewrite>
    decreases |instrs|
  {
    if instrs == [] then []
    else Phase2Of(c, instrs[..|instrs| - 1], p, done) + Phase2Step(c, p, done, instrs[|instrs| - 1])
  }

  /**
   * The first phase: every force of an eager MkArg is replaced by the eager
   * value and removed; every force planned for inlining is inlined; the
   * pass reports a change exactly when it rewrote something.
   */
  lemma {:induction false} Phase1Contents(c: Code, instrs: seq<Value>, p: Plan, f: Value, e: Value)
    ensures var r := Phase1Of(c, instrs, p);
      var mk := FollowCastsAndForce(c, f);
      && (UseEagerValue(f, e) in r.rewrites <==>
            VisitedForce(c, instrs, f) && IsEagerMkArg(c, mk) && e == c.instrs[mk].kind.eagerArg.value)
      && (f in r.inlined <==> VisitedForce(c, instrs, f) && IsMkArg(c, mk) && !IsEagerMkArg(c, mk)
                              && f in p.toInline)
      && (f in r.removed <==> VisitedForce(c, instrs, f) && IsMkArg(c, mk)
                              && (IsEagerMkArg(c, mk) || f in p.toInline))
      && (r.anyChange <==> r.rewrites != [])
    decreases |instrs|
  {
    if instrs != [] {
      var front := instrs[..|instrs| - 1];
      var x := instrs[|instrs| - 1];
      Phase1Contents(c, front, p, f, e);
      assert instrs == front + [x];
      assert f in instrs <==> f in front || f == x;
    }
  }

  /**
   * The second phase replaces each remaining dominated force by its
   * dominator, or by the inlined result when the dominator was inlined; a
   * force is never replaced by itself (the source asserts this at
   * force_dominance.cpp:765).
   */
  lemma {:induction false} Phase2Contents(c: Code, decisionOrder: seq<Value>, phaseOrder: seq<Value>,
                                          r: Results, huge: bool, done: Phase1, f: Value, target: Replacement)
    ensures var p := PlanOf(c, decisionOrder, r, huge);
      ReplaceDominated(f, target) in Phase2Of(c, phaseOrder, p, done) <==>
        && VisitedForce(c, phaseOrder, f) && VisitedForce(c, decisionOrder, f)
        && f !in done.removed && f in p.dominatedBy
        && target == (if p.dominatedBy[f] in done.inlined then InlinedResult(p.dominatedBy[f])
                  else Dominator(p.dominatedBy[f]))
    ensures var p := PlanOf(c, decisionOrder, r, huge);
      ReplaceDominated(f, target) in Phase2Of(c, phaseOrder, p, done) ==> target.dom != f
  {
    var p := PlanOf(c, decisionOrder, r, huge);
    Phase2Members(c, phaseOrder, p, done, f, target);
    PlanContents(c, decisionOrder, r, huge, f);
    if IsForce(c, f) {
      DominatedDecision(c, f, r.atReachableExits(f), r.before(f), r.final, huge);
    }
  }

  lemma {:induction false} Phase2Members(c: Code, instrs: seq<Value>, p: Plan, done: Phase1,
                                         f: Value, target: Replacement)
    ensures ReplaceDominated(f, target) in Phase2Of(c, instrs, p, done) <==>
      && VisitedForce(c, instrs, f) && f !in done.removed && f in p.dominatedBy
      && target == (if p.dominatedBy[f] in done.inlined then InlinedResult(p.dominatedBy[f])
                else Dominator(p.dominatedBy[f]))
    decreases |instrs|
  {
    if instrs != [] {
      var front := instrs[..|instrs| - 1];
      var x := instrs[|instrs| - 1];
      Phase2Members(c, front, p, done, f, target);
      assert instrs == front + [x];
      assert f in instrs <==> f in front || f == x;
    }
  }

  /** Phase two only replaces forces that phase one left in place and did
      not inline, so no force is rewritten twice. */
  lemma PhasesDisjoint(c: Code, decisionOrder: seq<Value>, phaseOrder: seq<Value>, r: Results, huge: bool,
                       f: Value, target: Replacement)
    requires var p := PlanOf(c, decisionOrder, r, huge);
      ReplaceDominated(f, target) in Phase2Of(c, phaseOrder, p, Phase1Of(c, phaseOrder, p))
    ensures f !in Phase1Of(c, phaseOrder, PlanOf(c, decisionOrder, r, huge)).inlined
    ensures f !in PlanOf(c, decisionOrder, r, huge).strict
  {
    var p := PlanOf(c, decisionOrder, r, huge);
    var done := Phase1Of(c, phaseOrder, p);
    Phase2Members(c, phaseOrder, p, done, f, target);
    Phase1Contents(c, phaseOrder, p, f, 0);
    StrictAndDominatedDisjoint(c, decisionOrder, r, huge, f);
  }

  /**
   * The decisions skip deoptimization branches, the rewrite phases do not
   * (force_dominance.cpp:532, 574, 757). A force the decision walk did not
   * visit gets no verdict, so it is never made strict, inlined or replaced
   * by a dominator; phase one still replaces it by the eager value when it
   * forces an eager MkArg, which counts as a change.
   */
  lemma ForcesOutsideTheDecisionWalk(c: Code, decisionOrder: seq<Value>, phaseOrder: seq<Value>,
                                     r: Results, huge: bool, f: Value, e: Value, target: Replacement)
    requires IsForce(c, f) && f !in decisionOrder
    ensures var p := PlanOf(c, decisionOrder, r, huge);
      f !in p.strict && f !in p.toInline && f !in p.dominatedBy
    ensures var p := PlanOf(c, decisionOrder, r, huge);
      var done := Phase1Of(c, phaseOrder, p);
      var mk := FollowCastsAndForce(c, f);
      && f !in done.inlined
      && ReplaceDominated(f, target) !in Phase2Of(c, phaseOrder, p, done)
      && (UseEagerValue(f, e) in done.rewrites <==>
            f in phaseOrder && IsEagerMkArg(c, mk) && e == c.instrs[mk].kind.eagerArg.value)
      && (UseEagerValue(f, e) in done.rewrites ==> done.anyChange)
  {
    var p := PlanOf(c, decisionOrder, r, huge);
    var done := Phase1Of(c, phaseOrder, p);
    PlanContents(c, decisionOrder, r, huge, f);
    Phase1Contents(c, phaseOrder, p, f, e);
    Phase2Members(c, phaseOrder, p, done, f, target);
  }

  // ---------------------------------------------------------------------
  // The pass, imperatively

  /** The closure properties the pass records for a closure's own code
      (force_dominance.cpp:526-530). */
  datatype ClosureProperties = ClosureProperties(isEager: bool, argumentForceOrder: seq<nat>)

  class ForceDominancePass {
    /** The plan of the decision walk. */
    var plan: Plan
    /** The outcome of the first rewrite phase. */
    var phase1: Phase1
    /** The rewrites of the second phase. */
    var phase2: seq<Rewrite>

    constructor ()
      ensures plan == EmptyPlan && phase1 == Phase1([], {}, {}, false) && phase2 == []
    {
      plan := EmptyPlan;
      phase1 := Phase1([], {}, {}, false);
      phase2 := [];
    }

    /**
     * `ForceDominance::apply`: decide, then rewrite in two phases; returns
     * whether the code changed, as the source reports it (only the first
     * phase counts). The decisions visit `decisionOrder`, the instructions
     * outside deoptimization branches; the phases visit `phaseOrder`, all of
     * them.
     */
    method Run(c: Code, decisionOrder: seq<Value>, phaseOrder: seq<Value>, r: Results,
               codeSize: nat, maxSize: nat)
      returns (anyChange: bool)
      modifies this
      ensures plan == PlanOf(c, decisionOrder, r, codeSize > maxSize)
      ensures phase1 == Phase1Of(c, phaseOrder, plan)
      ensures phase2 == Phase2Of(c, phaseOrder, plan, phase1)
      ensures anyChange == phase1.anyChange
    {
      var huge := codeSize > maxSize;
      Decisions(c, decisionOrder, r, huge);
      InlinePhase(c, phaseOrder);
      ReplacePhase(c, phaseOrder);
      anyChange := phase1.anyChange;
    }

    /** The walk over all instructions deciding each Force (force_dominance.cpp:532-566). */
    method Decisions(c: Code, instrs: seq<Value>, r: Results, huge: bool)
      modifies this`plan
      ensures plan == PlanOf(c, instrs, r, huge)
    {
      plan := EmptyPlan;
      for j := 0 to |instrs|
        invariant plan == PlanOf(c, instrs[..j], r, huge)
      {
        assert instrs[..j + 1][..j] == instrs[..j];
        var f := instrs[j];
        if IsForce(c, f) {
          var a := r.atReachableExits(f);
          if IsDominatingForce(c, a, f) {
            plan := plan.(strict := plan.strict + {f});
            var mk := FollowCastsAndForce(c, f);
            if IsMkArg(c, mk) && !IsEagerMkArg(c, mk) {
              if !huge || c.instrs[mk].kind.promSize < HugeCodePromiseLimit {
                var b := r.before(f);
                var inl := IsSafeToInline(c, b, mk, f, r.final);
                if inl != NotSafeToInline {
                  plan := plan.(toInline := plan.toInline + {f});
                  if inl == SafeToInlineWithUpdate {
                    plan := plan.(needsUpdate := plan.needsUpdate[f := b.escaped[mk]]);
                  }
                }
              }
            }
          } else {
            var dom := GetDominatingForce(c, a, f);
            if dom.Some? && f != dom.value {
              plan := plan.(dominatedBy := plan.dominatedBy[f := dom.value]);
            }
          }
        }
      }
      assert instrs[..|instrs|] == instrs;
    }

    /** Phase 1: inline dominating promises and use eager values (force_dominance.cpp:573-755). */
    method InlinePhase(c: Code, instrs: seq<Value>)
      modifies this`phase1
      ensures phase1 == Phase1Of(c, instrs, plan)
    {
      phase1 := Phase1([], {}, {}, false);
      for j := 0 to |instrs|
        invariant phase1 == Phase1Of(c, instrs[..j], plan)
      {
        assert instrs[..j + 1][..j] == instrs[..j];
        var x := instrs[j];
        if IsForce(c, x) {
          var mk := FollowCastsAndForce(c, x);
          if IsMkArg(c, mk) {
            if IsEagerMkArg(c, mk) {
              var eager := c.instrs[mk].kind.eagerArg.value;
              phase1 := Phase1(phase1.rewrites + [UseEagerValue(x, eager)],
                               phase1.removed + {x}, phase1.inlined, true);
            } else if x in plan.toInline {
              var update := if x in plan.needsUpdate then plan.needsUpdate[x] else {};
              phase1 := Phase1(phase1.rewrites + [InlinePromise(x, mk, update)],
                               phase1.removed + {x}, phase1.inlined + {x}, true);
            }
          }
        } else if x in c.instrs && c.instrs[x].kind.CastType? {
          var mk := c.instrs[x].kind.castArg;
          if IsMkArg(c, mk) && IsEagerMkArg(c, mk) {
            var eager := c.instrs[mk].kind.eagerArg.value;
            phase1 := phase1.(rewrites := phase1.rewrites + [UpcastEager(x, eager)], anyChange := true);
          }
        }
      }
      assert instrs[..|instrs|] == instrs;
    }

    /** Phase 2: replace dominated forces (force_dominance.cpp:756-778). */
    method ReplacePhase(c: Code, instrs: seq<Value>)
      modifies this`phase2
      ensures phase2 == Phase2Of(c, instrs, plan, phase1)
    {
      phase2 := [];
      for j := 0 to |instrs|
        invariant phase2 == Phase2Of(c, instrs[..j], plan, phase1)
      {
        assert instrs[..j + 1][..j] == instrs[..j];
        var f := instrs[j];
        if IsForce(c, f) && f !in phase1.removed && f in plan.dominatedBy {
          var dom := plan.dominatedBy[f];
          var target := if dom in phase1.inlined then InlinedResult(dom) else Dominator(dom);
          phase2 := phase2 + [ReplaceDominated(f, target)];
        }
      }
      assert instrs[..|instrs|] == instrs;
    }
  }

  /**
   * The properties recorded after the analysis (force_dominance.cpp:526-530).
   * Only when the pass runs on the closure's own code (`code == cls`) and
   * not on a promise's: `IsEager` is then set, never cleared, when the final
   * state says the function forces its arguments in order, and the force
   * order is recorded. Otherwise the properties stay as they were.
   */
  method RecordProperties(prev: ClosureProperties, isOwnCode: bool, final: ForcedByState, nargs: nat)
    returns (props: ClosureProperties)
    ensures !isOwnCode ==> props == prev
    ensures isOwnCode ==> props.argumentForceOrder == final.argumentForceOrder
    ensures isOwnCode ==>
      (props.isEager <==> prev.isEager
                          || (!final.ambiguousForceOrder && |final.argumentForceOrder| >= nargs
                              && forall k :: 0 <= k < nargs ==> final.argumentForceOrder[k] == k))
  {
    props := prev;
    if isOwnCode {
      var eager := EagerLikeFunction(final, nargs);
      if eager {
        props := props.(isEager := true);
      }
      props := props.(argumentForceOrder := final.argumentForceOrder);
    }
  }
}
