/**
 * The transfer rule of the force-dominance analysis
 * (`ForceDominanceAnalysis::apply`, force_dominance.cpp:353-479) as a
 * function of the abstract state, and what it guarantees.
 */
module ForceTransfer {
  import opened Ir
  import opened ForceLattice

  /** The MkArgs (after casts) that the bindings in `locals` named `name`
      hold, as `eachLocalVar` finds them. */
  function BoundPromises(c: Code, locals: seq<Binding>, name: Name): (r: set<Value>)
    ensures forall p :: p in r ==> IsMkArg(c, p)
    decreases |locals|
  {
    if locals == [] then {}
    else
      var b := locals[|locals| - 1];
      BoundPromises(c, locals[..|locals| - 1], name)
        + (if b.name == name && IsMkArg(c, FollowCasts(c, b.value)) then {FollowCasts(c, b.value)} else {})
  }

  /** A binding of `locals` named `name` holds the MkArg `p`. */
  predicate Binds(c: Code, locals: seq<Binding>, name: Name, p: Value) {
    exists k :: 0 <= k < |locals| && locals[k].name == name && IsMkArg(c, FollowCasts(c, locals[k].value))
                && FollowCasts(c, locals[k].value) == p
  }

  lemma {:induction false} BoundPromisesIff(c: Code, locals: seq<Binding>, name: Name, p: Value)
    ensures p in BoundPromises(c, locals, name) <==> Binds(c, locals, name, p)
    decreases |locals|
  {
    if locals != [] {
      var n := |locals| - 1;
      var front := locals[..n];
      BoundPromisesIff(c, front, name, p);
      if Binds(c, front, name, p) {
        var k :| 0 <= k < |front| && front[k].name == name && IsMkArg(c, FollowCasts(c, front[k].value))
                 && FollowCasts(c, front[k].value) == p;
        assert locals[k] == front[k];
      }
      if Binds(c, locals, name, p) {
        var k :| 0 <= k < |locals| && locals[k].name == name && IsMkArg(c, FollowCasts(c, locals[k].value))
                 && FollowCasts(c, locals[k].value) == p;
        if k < n {
          assert front[k] == locals[k];
        }
      }
    }
  }

  /** Escape bookkeeping of a variable access: the new escape sets, whether
      the access was handled without losing track of escapes, and whether a
      change was reported. */
  datatype EnvStep = EnvStep(escaped: map<Value, set<Value>>, handled: bool, updated: bool)

  /** Some promise in `p` has a known escape set. */
  predicate KnownAmong(esc: map<Value, set<Value>>, p: set<Value>) {
    exists v :: v in p && v in esc && esc[v] != {}
  }

  /** The escape sets of the promises in `p` become unknown. */
  function ClearSome(esc: map<Value, set<Value>>, p: set<Value>): map<Value, set<Value>> {
    map v | v in esc :: if v in p then {} else esc[v]
  }

  /**
   * A store into a local environment overwrites the promise bound to the
   * name, which no longer counts as escaped; a load of it from a local
   * environment leaks it further, so its escape set becomes unknown; a load
   * that finds no promise and goes past local environments needs no further
   * care (force_dominance.cpp:367-408).
   */
  function EnvAccess(c: Code, s: ForcedByState, i: Value): EnvStep
    requires IsInstr(c, i)
  {
    match c.instrs[i].kind
    case StVar(name, env) =>
      if IsMkEnv(c, env) then
        var p := BoundPromises(c, c.instrs[env].kind.locals, name);
        EnvStep(s.escaped - p, p != {}, p * s.escaped.Keys != {})
      else EnvStep(s.escaped, false, false)
    case LdVar(name, env) =>
      if IsMkEnv(c, env) then
        var p := BoundPromises(c, c.instrs[env].kind.locals, name);
        EnvStep(ClearSome(s.escaped, p), p != {} || !IsMkEnv(c, c.instrs[env].kind.lexicalEnv),
                KnownAmong(s.escaped, p))
      else EnvStep(s.escaped, false, false)
    case _ => EnvStep(s.escaped, false, false)
  }

  /** Every escape set becomes unknown (an environment read, 411-419). */
  function ClearAll(esc: map<Value, set<Value>>): (r: map<Value, set<Value>>)
    ensures r.Keys == esc.Keys
    ensures forall v :: v in r ==> r[v] == {}
  {
    map v | v in esc :: {}
  }

  /** Some promise has a known escape set. */
  predicate SomeKnown(esc: map<Value, set<Value>>) {
    exists v :: v in esc && esc[v] != {}
  }

  /** The instruction may leak its operands (the `apply` lambda's guard). */
  predicate LeaksArgs(c: Code, i: Value)
    requires IsInstr(c, i)
  {
    LeakArg in c.instrs[i].effects || IsMkEnv(c, i)
  }

  /** Every MkArg operand in `args` escapes to `where`, left to right; the
      flag says whether some `escape` call reported a change. */
  function EscapeArgs(c: Code, s: ForcedByState, args: seq<Value>, where: Value): (r: (ForcedByState, bool))
    ensures r.0 == s.(escaped := r.0.escaped)
    decreases |args|
  {
    if args == [] then (s, false)
    else
      var prev := EscapeArgs(c, s, args[..|args| - 1], where);
      var m := FollowCasts(c, args[|args| - 1]);
      if IsMkArg(c, m) then (Escaped(c, prev.0, m, where), prev.1 || EscapeReports(c, prev.0, m, where))
      else prev
  }

  /** The `apply` lambda (force_dominance.cpp:356-365). */
  function EscapeOperands(c: Code, s: ForcedByState, i: Value): (ForcedByState, bool)
    requires IsInstr(c, i)
  {
    if LeaksArgs(c, i) then EscapeArgs(c, s, c.instrs[i].args, i) else (s, false)
  }

  /** What `sideeffect()` returns. */
  predicate SideEffectReports(s: ForcedByState) {
    exists v :: v in s.escaped && NotForced(s.forcedBy, v)
  }

  /** A state change together with the reports made on the way:
      `res.update()` and `res.taint()`. */
  datatype Transition = Transition(state: ForcedByState, updated: bool, tainted: bool) {
    /** The `AbstractResult` the reports add up to. */
    function Report(): AbstractResult {
      if tainted then Tainted else if updated then Updated else NoChange
    }
  }

  /** A phi that may be lazy enters scope the first time it is seen; its
      operands may escape (force_dominance.cpp:422-428). */
  ghost function PhiStep(c: Code, s: ForcedByState, i: Value): (r: Transition)
    requires IsPhi(c, i)
    ensures r.state.argumentForceOrder == s.argumentForceOrder
    ensures r.state.ambiguousForceOrder == s.ambiguousForceOrder
    ensures r.state.inScope == s.inScope || r.state.inScope == s.inScope + {i}
    ensures !r.tainted
  {
    var ins := c.instrs[i];
    var d := if ins.maybeLazy && i !in s.forcedBy then Declared(c, s, i) else s;
    var e := EscapeOperands(c, d, i);
    Transition(e.0, d != s || e.1, false)
  }

  /** A Force records its forced value, and an argument's id joins the
      force order (force_dominance.cpp:429-446). */
  ghost function ForceStep(c: Code, s: ForcedByState, i: Value): (r: Transition)
    requires IsForce(c, i)
    ensures r.state == s.(forcedBy := r.state.forcedBy, argumentForceOrder := r.state.argumentForceOrder)
    ensures s.argumentForceOrder <= r.state.argumentForceOrder
    ensures s.ambiguousForceOrder ==> r.state.argumentForceOrder == s.argumentForceOrder
    ensures !r.tainted
  {
    var t := FollowCasts(c, c.instrs[i].kind.target);
    if IsLdArg(c, t) then
      var f := if c.instrs[t].maybeLazy then ForceRecorded(c, s, t, i) else s;
      var id := c.instrs[t].kind.argId;
      if !f.ambiguousForceOrder && id !in f.argumentForceOrder then
        Transition(f.(argumentForceOrder := f.argumentForceOrder + [id]), true, false)
      else Transition(f, f != s, false)
    else if IsMkArg(c, t) || (IsInstr(c, t) && c.instrs[t].maybeLazy) then
      var f := ForceRecorded(c, s, t, i);
      Transition(f, f != s, false)
    else Transition(s, false, false)
  }

  /** Any other instruction: a lazy result enters scope, operands may escape,
      an environment read may force escaped promises, and a possible force
      ends force-order tracking (force_dominance.cpp:449-477). */
  ghost function OtherStep(c: Code, nargs: nat, s: ForcedByState, i: Value): (r: Transition)
    requires IsInstr(c, i)
    ensures r.state.argumentForceOrder == s.argumentForceOrder
    ensures s.ambiguousForceOrder ==> r.state.ambiguousForceOrder
    ensures s.inScope <= r.state.inScope
  {
    var ins := c.instrs[i];
    var d := if ins.maybeLazy then Declared(c, s, i) else s;
    var e := EscapeOperands(c, d, i);
    var se := ReadsEnv in ins.effects && !ins.kind.IsEnvStub?;
    var g := if se then SideEffected(e.0) else e.0;
    var freeze := Forcing in ins.effects && !g.ambiguousForceOrder && |g.argumentForceOrder| < nargs;
    var h := if freeze then g.(ambiguousForceOrder := true) else g;
    Transition(h, d != s || e.1, (se && SideEffectReports(e.0)) || freeze)
  }

  /** The instruction-specific part of the transfer rule (force_dominance.cpp:422-477). */
  ghost function ByKind(c: Code, nargs: nat, s: ForcedByState, i: Value): Transition
    requires IsInstr(c, i)
  {
    match c.instrs[i].kind
    case Phi => PhiStep(c, s, i)
    case Force(_) => ForceStep(c, s, i)
    case MkArg(_, _) =>
      var d := Declared(c, s, i);
      Transition(d, d != s, false)
    case PushContext => Transition(s, false, false)
    case CastType(_) => Transition(s, false, false)
    case Deopt => Transition(s, false, false)
    case _ => OtherStep(c, nargs, s, i)
  }

  /** `ForceDominanceAnalysis::apply(state, i)`; `nargs` is the closure's
      `effectiveNArgs()`. */
  ghost function Transfer(c: Code, nargs: nat, s: ForcedByState, i: Value): Transition
    requires IsInstr(c, i)
  {
    var env := EnvAccess(c, s, i);
    var clear := ReadsEnv in c.instrs[i].effects && !env.handled;
    var s0 := s.(escaped := if clear then ClearAll(env.escaped) else env.escaped);
    var t := ByKind(c, nargs, s0, i);
    Transition(t.state, env.updated || (clear && SomeKnown(env.escaped)) || t.updated, t.tainted)
  }

  // ---------------------------------------------------------------------
  // Properties of the transfer rule

  /** When no `escape` call reports a change, escaping the operands changes nothing. */
  lemma {:induction false} EscapeArgsSilent(c: Code, s: ForcedByState, args: seq<Value>, where: Value)
    ensures !EscapeArgs(c, s, args, where).1 ==> EscapeArgs(c, s, args, where).0 == s
    decreases |args|
  {
    if args != [] {
      var prev := EscapeArgs(c, s, args[..|args| - 1], where);
      EscapeArgsSilent(c, s, args[..|args| - 1], where);
      var m := FollowCasts(c, args[|args| - 1]);
      if IsMkArg(c, m) && !EscapeReports(c, prev.0, m, where) {
        EscapeSilentMeansUnchanged(c, prev.0, m, where);
      }
    }
  }

  /** The escape bookkeeping of a variable access reports every change it makes. */
  lemma EnvAccessSilent(c: Code, s: ForcedByState, i: Value)
    requires IsInstr(c, i)
    ensures !EnvAccess(c, s, i).updated ==> EnvAccess(c, s, i).escaped == s.escaped
  {
    var e := EnvAccess(c, s, i);
    if !e.updated {
      match c.instrs[i].kind
      case StVar(name, env) =>
        if IsMkEnv(c, env) {
          var p := BoundPromises(c, c.instrs[env].kind.locals, name);
          assert forall v :: v in p && v in s.escaped ==> v in p * s.escaped.Keys;
          assert e.escaped == s.escaped;
        }
      case LdVar(name, env) =>
        if IsMkEnv(c, env) {
          var p := BoundPromises(c, c.instrs[env].kind.locals, name);
          assert e.escaped == ClearSome(s.escaped, p);
          forall v | v in s.escaped ensures e.escaped[v] == s.escaped[v] {
            if v in p {
              assert !(v in p && v in s.escaped && s.escaped[v] != {});
            }
          }
        }
      case _ =>
    }
  }

  /**
   * The analysis reports every change: a transfer that reports `NoChange`
   * leaves the state as it was, which is what lets the fixed-point driver
   * stop.
   */
  lemma TransferSilentMeansUnchanged(c: Code, nargs: nat, s: ForcedByState, i: Value)
    requires IsInstr(c, i)
    ensures Transfer(c, nargs, s, i).Report() == NoChange ==> Transfer(c, nargs, s, i).state == s
  {
    var t := Transfer(c, nargs, s, i);
    if t.Report() == NoChange {
      var env := EnvAccess(c, s, i);
      EnvAccessSilent(c, s, i);
      var clear := ReadsEnv in c.instrs[i].effects && !env.handled;
      if clear {
        assert !SomeKnown(env.escaped);
        assert ClearAll(env.escaped) == env.escaped;
      }
      var s0 := s.(escaped := if clear then ClearAll(env.escaped) else env.escaped);
      assert s0 == s;
      ByKindSilent(c, nargs, s, i);
    }
  }

  lemma ByKindSilent(c: Code, nargs: nat, s: ForcedByState, i: Value)
    requires IsInstr(c, i)
    ensures ByKind(c, nargs, s, i).Report() == NoChange ==> ByKind(c, nargs, s, i).state == s
  {
    match c.instrs[i].kind
    case Phi => PhiStepSilent(c, s, i);
    case Force(_) =>
    case MkArg(_, _) =>
    case PushContext =>
    case CastType(_) =>
    case Deopt =>
    case _ => OtherStepSilent(c, nargs, s, i);
  }

  lemma PhiStepSilent(c: Code, s: ForcedByState, i: Value)
    requires IsPhi(c, i)
    ensures PhiStep(c, s, i).Report() == NoChange ==> PhiStep(c, s, i).state == s
  {
    var ins := c.instrs[i];
    var d := if ins.maybeLazy && i !in s.forcedBy then Declared(c, s, i) else s;
    EscapeArgsSilent(c, d, ins.args, i);
  }

  lemma OtherStepSilent(c: Code, nargs: nat, s: ForcedByState, i: Value)
    requires IsInstr(c, i)
    ensures OtherStep(c, nargs, s, i).Report() == NoChange ==> OtherStep(c, nargs, s, i).state == s
  {
    var ins := c.instrs[i];
    var d := if ins.maybeLazy then Declared(c, s, i) else s;
    EscapeArgsSilent(c, d, ins.args, i);
    var e := EscapeOperands(c, d, i);
    SideEffectSilent(e.0);
  }

  /** `sideeffect` changes the state exactly when it reports so. */
  lemma SideEffectSilent(s: ForcedByState)
    ensures SideEffected(s) == s <==> !SideEffectReports(s)
  {
    if SideEffectReports(s) {
      var v :| v in s.escaped && NotForced(s.forcedBy, v);
      SideEffectedFacts(s, v);
      assert SideEffected(s).forcedBy[v] == Ambiguous;
      if v in s.forcedBy {
        assert s.forcedBy[v] == Unforced;
      }
    } else {
      assert SideEffected(s).forcedBy == s.forcedBy;
      assert SideEffected(s).escaped == s.escaped;
    }
  }

  /**
   * A Force of a (lazy or eager) argument load appends the argument's id to
   * the force order at most once, and only while the order is not
   * ambiguous; nothing else happens to the order (force_dominance.cpp:429-437).
   */
  lemma ForceOfArgumentOrder(c: Code, nargs: nat, s: ForcedByState, i: Value)
    requires IsForce(c, i) && IsLdArg(c, FollowCasts(c, c.instrs[i].kind.target))
    ensures var r := Transfer(c, nargs, s, i);
      var id := c.instrs[FollowCasts(c, c.instrs[i].kind.target)].kind.argId;
      && r.state.ambiguousForceOrder == s.ambiguousForceOrder
      && r.state.argumentForceOrder ==
           (if !s.ambiguousForceOrder && id !in s.argumentForceOrder then s.argumentForceOrder + [id]
            else s.argumentForceOrder)
      && (id in r.state.argumentForceOrder || r.state.ambiguousForceOrder)
      && r.Report() != Tainted
  {
  }

  /** Forcing the same argument twice records it once. */
  lemma ForceOfArgumentOnce(c: Code, nargs: nat, s: ForcedByState, i: Value)
    requires IsForce(c, i) && IsLdArg(c, FollowCasts(c, c.instrs[i].kind.target))
    ensures var r := Transfer(c, nargs, s, i).state;
      Transfer(c, nargs, r, i).state.argumentForceOrder == r.argumentForceOrder
  {
    ForceOfArgumentOrder(c, nargs, s, i);
    ForceOfArgumentOrder(c, nargs, Transfer(c, nargs, s, i).state, i);
  }

  /** Is `i` handled by the last, generic case of the transfer rule? */
  predicate GenericCase(c: Code, i: Value)
    requires IsInstr(c, i)
  {
    !(c.instrs[i].kind.Phi? || c.instrs[i].kind.Force? || c.instrs[i].kind.MkArg?
      || c.instrs[i].kind.PushContext? || c.instrs[i].kind.CastType? || c.instrs[i].kind.Deopt?)
  }

  /** The variable-access bookkeeping before the instruction-specific part
      only touches escape sets. */
  lemma TransferSplit(c: Code, nargs: nat, s: ForcedByState, i: Value) returns (s0: ForcedByState)
    requires IsInstr(c, i)
    ensures s0 == s.(escaped := s0.escaped)
    ensures Transfer(c, nargs, s, i).state == ByKind(c, nargs, s0, i).state
    ensures Transfer(c, nargs, s, i).tainted == ByKind(c, nargs, s0, i).tainted
  {
    var env := EnvAccess(c, s, i);
    var clear := ReadsEnv in c.instrs[i].effects && !env.handled;
    s0 := s.(escaped := if clear then ClearAll(env.escaped) else env.escaped);
  }

  /**
   * Any other instruction that may force promises, seen while fewer than
   * `nargs` arguments are in the order, freezes the order as ambiguous and
   * taints the result (force_dominance.cpp:468-476).
   */
  lemma ForcingEffectFreezesOrder(c: Code, nargs: nat, s: ForcedByState, i: Value)
    requires IsInstr(c, i) && GenericCase(c, i) && Forcing in c.instrs[i].effects
    requires |s.argumentForceOrder| < nargs
    ensures Transfer(c, nargs, s, i).state.ambiguousForceOrder
    ensures Transfer(c, nargs, s, i).state.argumentForceOrder == s.argumentForceOrder
    ensures Transfer(c, nargs, s, i).Report() == Tainted || s.ambiguousForceOrder
  {
    var s0 := TransferSplit(c, nargs, s, i);
  }

  /**
   * The force order only ever grows at its end, and once ambiguous it stays
   * ambiguous; the promises in scope only grow.
   */
  lemma TransferMonotone(c: Code, nargs: nat, s: ForcedByState, i: Value)
    requires IsInstr(c, i)
    ensures var r := Transfer(c, nargs, s, i).state;
      && s.argumentForceOrder <= r.argumentForceOrder
      && (s.ambiguousForceOrder ==> r.ambiguousForceOrder && r.argumentForceOrder == s.argumentForceOrder)
      && s.inScope <= r.inScope
  {
    var s0 := TransferSplit(c, nargs, s, i);
  }

  /** PushContext, CastType and Deopt only take part in the escape
      bookkeeping of environment reads; no force is recorded for them. */
  lemma InertInstructions(c: Code, nargs: nat, s: ForcedByState, i: Value)
    requires IsInstr(c, i)
    requires c.instrs[i].kind.PushContext? || c.instrs[i].kind.CastType? || c.instrs[i].kind.Deopt?
    ensures var r := Transfer(c, nargs, s, i);
      && r.state == s.(escaped := r.state.escaped)
      && r.Report() != Tainted
      && (ReadsEnv !in c.instrs[i].effects ==> r.state == s && r.Report() == NoChange)
  {
  }
}
