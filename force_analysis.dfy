/**
 * `ForceDominanceAnalysis` (force_dominance.cpp:343-479): the transfer rule
 * applied in place to a `ForcedBy` state, proved to compute
 * `ForceTransfer.Transfer`.
 */
module ForceAnalysis {
  import opened Ir
  import opened ForceLattice
  import opened ForceTransfer
  import opened ForceDominance

  /** The promises named `name` in `locals[..j]` plus those of the next binding. */
  lemma BoundStep(c: Code, locals: seq<Binding>, name: Name, j: nat)
    requires j < |locals|
    ensures BoundPromises(c, locals[..j + 1], name) ==
      BoundPromises(c, locals[..j], name)
        + (if locals[j].name == name && IsMkArg(c, FollowCasts(c, locals[j].value))
           then {FollowCasts(c, locals[j].value)} else {})
  {
    assert locals[..j + 1][..j] == locals[..j];
  }

  /** Clearing one more promise's escape set. */
  lemma ClearSomeStep(esc0: map<Value, set<Value>>, p: set<Value>, m: Value)
    ensures var e := ClearSome(esc0, p);
      && ((m in e && e[m] != {}) <==> m in esc0 && m !in p && esc0[m] != {})
      && ClearSome(esc0, p + {m}) == (if m in e && e[m] != {} then e[m := {}] else e)
      && (KnownAmong(esc0, p + {m}) <==> KnownAmong(esc0, p) || (m in e && e[m] != {}))
  {
    var e := ClearSome(esc0, p);
    if m in e && e[m] != {} {
      assert ClearSome(esc0, p + {m}) == e[m := {}];
    } else {
      assert ClearSome(esc0, p + {m}) == e;
    }
  }

  /** Every escape set visited so far is cleared. */
  function ClearAllLeft(esc: map<Value, set<Value>>, todo: set<Value>): map<Value, set<Value>> {
    map v | v in esc :: if v in todo then esc[v] else {}
  }

  predicate KnownLeft(esc: map<Value, set<Value>>, todo: set<Value>) {
    exists v :: v in esc && v !in todo && esc[v] != {}
  }

  lemma ClearAllStep(esc: map<Value, set<Value>>, todo: set<Value>, v: Value)
    requires todo <= esc.Keys && v in todo
    ensures v in ClearAllLeft(esc, todo) && ClearAllLeft(esc, todo)[v] == esc[v]
    ensures ClearAllLeft(esc, todo - {v}) ==
      if esc[v] != {} then ClearAllLeft(esc, todo)[v := {}] else ClearAllLeft(esc, todo)
    ensures KnownLeft(esc, todo - {v}) <==> KnownLeft(esc, todo) || esc[v] != {}
  {
    if esc[v] != {} {
      assert ClearAllLeft(esc, todo - {v}) == ClearAllLeft(esc, todo)[v := {}];
    } else {
      assert ClearAllLeft(esc, todo - {v}) == ClearAllLeft(esc, todo);
    }
  }

  lemma ClearAllEnds(esc: map<Value, set<Value>>)
    ensures ClearAllLeft(esc, esc.Keys) == esc && !KnownLeft(esc, esc.Keys)
    ensures ClearAllLeft(esc, {}) == ClearAll(esc)
    ensures KnownLeft(esc, {}) <==> SomeKnown(esc)
  {
    assert ClearAllLeft(esc, esc.Keys) == esc;
  }

  class ForceDominanceAnalysis {
    /** The code unit analysed. */
    const code: Code
    /** `closure->effectiveNArgs()`. */
    const nargs: nat

    constructor (code: Code, nargs: nat)
      ensures this.code == code && this.nargs == nargs
    {
      this.code := code;
      this.nargs := nargs;
    }

    /** `apply(state, i)` (force_dominance.cpp:353-479). */
    method Apply(state: ForcedBy, i: Value) returns (res: AbstractResult)
      requires IsInstr(code, i)
      modifies state
      ensures state.State() == Transfer(code, nargs, old(state.State()), i).state
      ensures res == Transfer(code, nargs, old(state.State()), i).Report()
    {
      ghost var s := state.State();
      var updated := EscapeBookkeeping(state, i);
      ghost var s0 := state.State();
      res := if updated then Updated else NoChange;
      var r := ApplyKind(state, i);
      res := res.Raise(r);
      assert s0 == s.(escaped := s0.escaped);
    }

    /**
     * The escape bookkeeping of variable accesses and environment reads
     * (force_dominance.cpp:367-420); returns whether it reported a change.
     */
    method EscapeBookkeeping(state: ForcedBy, i: Value) returns (updated: bool)
      requires IsInstr(code, i)
      modifies state`escaped
      ensures var env := EnvAccess(code, old(state.State()), i);
        var clear := ReadsEnv in code.instrs[i].effects && !env.handled;
        && state.escaped == (if clear then ClearAll(env.escaped) else env.escaped)
        && (updated <==> env.updated || (clear && SomeKnown(env.escaped)))
    {
      var handledEscape := false;
      updated := false;
      match code.instrs[i].kind {
        case StVar(name, env) =>
          if IsMkEnv(code, env) {
            var esc;
            esc, handledEscape, updated := DropBound(code, code.instrs[env].kind.locals, name, state.escaped);
            state.escaped := esc;
          }
        case LdVar(name, env) =>
          if IsMkEnv(code, env) {
            var esc;
            esc, handledEscape, updated := ClearBound(code, code.instrs[env].kind.locals, name, state.escaped);
            state.escaped := esc;
            if !handledEscape && !IsMkEnv(code, code.instrs[env].kind.lexicalEnv) {
              handledEscape := true;
            }
          }
        case _ =>
      }
      if ReadsEnv in code.instrs[i].effects && !handledEscape {
        var esc, u := ClearEscapes(state.escaped);
        state.escaped := esc;
        updated := updated || u;
      }
    }

    /** A store overwrites the promises bound to `name`: they are no longer escaped. */
    static method DropBound(c: Code, locals: seq<Binding>, name: Name, esc0: map<Value, set<Value>>)
      returns (esc: map<Value, set<Value>>, handled: bool, updated: bool)
      ensures esc == esc0 - BoundPromises(c, locals, name)
      ensures handled <==> BoundPromises(c, locals, name) != {}
      ensures updated <==> BoundPromises(c, locals, name) * esc0.Keys != {}
    {
      esc, handled, updated := esc0, false, false;
      for j := 0 to |locals|
        invariant esc == esc0 - BoundPromises(c, locals[..j], name)
        invariant handled <==> BoundPromises(c, locals[..j], name) != {}
        invariant updated <==> BoundPromises(c, locals[..j], name) * esc0.Keys != {}
      {
        BoundStep(c, locals, name, j);
        var b := locals[j];
        if b.name == name {
          var m := FollowCasts(c, b.value);
          if IsMkArg(c, m) {
            handled := true;
            if m in esc {
              esc := esc - {m};
              updated := true;
            }
          }
        }
      }
      assert locals[..|locals|] == locals;
    }

    /** A load leaks the promises bound to `name` further: their escape sets
        become unknown. */
    static method ClearBound(c: Code, locals: seq<Binding>, name: Name, esc0: map<Value, set<Value>>)
      returns (esc: map<Value, set<Value>>, handled: bool, updated: bool)
      ensures esc == ClearSome(esc0, BoundPromises(c, locals, name))
      ensures handled <==> BoundPromises(c, locals, name) != {}
      ensures updated <==> KnownAmong(esc0, BoundPromises(c, locals, name))
    {
      esc, handled, updated := esc0, false, false;
      ghost var p: set<Value> := {};
      for j := 0 to |locals|
        invariant p == BoundPromises(c, locals[..j], name)
        invariant esc == ClearSome(esc0, p)
        invariant handled <==> p != {}
        invariant updated <==> KnownAmong(esc0, p)
      {
        BoundStep(c, locals, name, j);
        var b := locals[j];
        if b.name == name {
          var m := FollowCasts(c, b.value);
          if IsMkArg(c, m) {
            ClearSomeStep(esc0, p, m);
            handled := true;
            if m in esc && esc[m] != {} {
              esc := esc[m := {}];
              updated := true;
            }
            p := p + {m};
          }
        }
      }
      assert locals[..|locals|] == locals;
    }

    /** An environment read loses track of where every promise escaped to. */
    static method ClearEscapes(esc0: map<Value, set<Value>>) returns (esc: map<Value, set<Value>>, updated: bool)
      ensures esc == ClearAll(esc0)
      ensures updated <==> SomeKnown(esc0)
    {
      esc, updated := esc0, false;
      var todo := esc0.Keys;
      ClearAllEnds(esc0);
      while todo != {}
        invariant todo <= esc0.Keys
        invariant esc == ClearAllLeft(esc0, todo)
        invariant updated <==> KnownLeft(esc0, todo)
        decreases |todo|
      {
        var v :| v in todo;
        ClearAllStep(esc0, todo, v);
        RemoveOne(todo, v);
        if esc[v] != {} {
          updated := true;
          esc := esc[v := {}];
        }
        todo := todo - {v};
      }
    }

    /** The instruction-specific part of `apply` (force_dominance.cpp:422-477). */
    method ApplyKind(state: ForcedBy, i: Value) returns (res: AbstractResult)
      requires IsInstr(code, i)
      modifies state
      ensures state.State() == ByKind(code, nargs, old(state.State()), i).state
      ensures res == ByKind(code, nargs, old(state.State()), i).Report()
    {
      match code.instrs[i].kind {
        case Phi => res := ApplyPhi(state, i);
        case Force(_) => res := ApplyForce(state, i);
        case MkArg(_, _) =>
          var changed := state.Declare(code, i);
          res := if changed then Updated else NoChange;
        case PushContext => res := NoChange;
        case CastType(_) => res := NoChange;
        case Deopt => res := NoChange;
        case _ => res := ApplyOther(state, i);
      }
    }

    method ApplyPhi(state: ForcedBy, i: Value) returns (res: AbstractResult)
      requires IsPhi(code, i)
      modifies state
      ensures state.State() == PhiStep(code, old(state.State()), i).state
      ensures res == PhiStep(code, old(state.State()), i).Report()
    {
      res := NoChange;
      if code.instrs[i].maybeLazy && i !in state.forcedBy {
        var changed := state.Declare(code, i);
        if changed {
          res := res.Raise(Updated);
        }
      }
      var leaked := EscapeOperandsOf(state, i);
      if leaked {
        res := res.Raise(Updated);
      }
    }

    method ApplyForce(state: ForcedBy, i: Value) returns (res: AbstractResult)
      requires IsForce(code, i)
      modifies state
      ensures state.State() == ForceStep(code, old(state.State()), i).state
      ensures res == ForceStep(code, old(state.State()), i).Report()
    {
      res := NoChange;
      var t := FollowCasts(code, code.instrs[i].kind.target);
      if IsLdArg(code, t) {
        if code.instrs[t].maybeLazy {
          var changed := state.ForcedAt(code, t, i);
          if changed {
            res := res.Raise(Updated);
          }
        }
        var id := code.instrs[t].kind.argId;
        var maybe := MaybeForced(state.State(), id);
        if !state.ambiguousForceOrder && !maybe {
          state.argumentForceOrder := state.argumentForceOrder + [id];
          res := res.Raise(Updated);
        }
      } else if IsMkArg(code, t) || (IsInstr(code, t) && code.instrs[t].maybeLazy) {
        var changed := state.ForcedAt(code, t, i);
        if changed {
          res := res.Raise(Updated);
        }
      }
    }

    method ApplyOther(state: ForcedBy, i: Value) returns (res: AbstractResult)
      requires IsInstr(code, i)
      modifies state
      ensures state.State() == OtherStep(code, nargs, old(state.State()), i).state
      ensures res == OtherStep(code, nargs, old(state.State()), i).Report()
    {
      ghost var s := state.State();
      res := NoChange;
      if code.instrs[i].maybeLazy {
        var changed := state.Declare(code, i);
        if changed {
          res := res.Raise(Updated);
        }
      }
      var leaked := EscapeOperandsOf(state, i);
      if leaked {
        res := res.Raise(Updated);
      }
      if ReadsEnv in code.instrs[i].effects && !code.instrs[i].kind.IsEnvStub? {
        var changed := state.Sideeffect();
        if changed {
          res := res.Raise(Tainted);
        }
      }
      if Forcing in code.instrs[i].effects && !state.ambiguousForceOrder
         && |state.argumentForceOrder| < nargs {
        state.ambiguousForceOrder := true;
        res := res.Raise(Tainted);
      }
    }

    /** The `apply` lambda: each MkArg operand of an instruction that may leak
        it escapes to that instruction (force_dominance.cpp:356-365). */
    method EscapeOperandsOf(state: ForcedBy, i: Value) returns (changed: bool)
      requires IsInstr(code, i)
      modifies state`escaped
      ensures (state.State(), changed) == EscapeOperands(code, old(state.State()), i)
    {
      changed := false;
      if !(LeakArg in code.instrs[i].effects) && !IsMkEnv(code, i) {
        return;
      }
      var args := code.instrs[i].args;
      ghost var s0 := state.State();
      for j := 0 to |args|
        invariant (state.State(), changed) == EscapeArgs(code, s0, args[..j], i)
      {
        assert args[..j + 1][..j] == args[..j];
        var m := FollowCasts(code, args[j]);
        if IsMkArg(code, m) {
          var e := state.Escape(code, m, i);
          if e {
            changed := true;
          }
        }
      }
      assert args[..|args|] == args;
    }
  }
}
