/**
 * The slice of PIR (the optimizing IR of the R runtime) that the analyses
 * read: values, instruction kinds, declared effects, and the result kind of
 * the generic static-analysis framework.
 *
 * Helpers of the IR that are not part of this model (`followCasts`,
 * `followCastsAndForce`, `Instruction::Cast`, the instruction's type
 * predicates) are represented by data the IR producer supplies.
 */
module Ir {

  datatype Option<T> = None | Some(value: T)

  /** Identity of an IR value: an instruction, a constant or an environment. */
  type Value = nat

  /** An R symbol, as used for variable names and builtin names. */
  type Name = string

  /** The declared effects the passes look at (PIR's `Effect` enum). */
  datatype Effect =
    | LeakArg     // Effect::LeakArg: may store an argument into an environment
    | ReadsEnv    // Effect::ReadsEnv
    | Forcing     // Effect::Force: may force promises
    | Reflection  // Effect::Reflection

  /** One `name = value` pair of an MkEnv (what `eachLocalVar` visits). */
  datatype Binding = Binding(name: Name, value: Value)

  /** Instruction tags, with the operands the passes inspect. */
  datatype Kind =
    | Phi
    | Force(target: Value)                          // arg<0>
    | MkArg(eagerArg: Option<Value>, promSize: nat) // isEager() <==> eagerArg.Some?
    | MkEnv(locals: seq<Binding>, lexicalEnv: Value)
    | StVar(varName: Name, env: Value)
    | LdVar(varName: Name, env: Value)
    | LdArg(argId: nat)
    | PushContext
    | CastType(castArg: Value)                      // arg<0>
    | Deopt
    | IsEnvStub
      /** The call arguments are the instruction's operands (`callArg(k)` is
          `args[k]`); `vectorTypeName` is `Some(s)` when arg(0) is an LdConst
          holding the one-element character vector `s`. */
    | CallSafeBuiltin(builtin: Name, vectorTypeName: Option<string>)
    | Extract1D(vec: Value, idx: Value)             // Extract1_1D, a vector access
    | VectorAccess                                  // the other VECTOR_RW_INSTRUCTIONS
    | OtherKind

  /**
   * An instruction: its tag, the operands `eachArg` visits (for a Phi its
   * inputs), and the facts about it that come from its type and tag.
   */
  datatype Instr = Instr(
    kind: Kind,
    args: seq<Value>,
    maybeLazy: bool,        // type.maybeLazy()
    effects: set<Effect>,
    needsRefCount: bool,    // needsReferenceCount()
    producesResult: bool)   // producesRirResult()

  /**
   * A code unit: its instructions by identity, and the results of
   * `followCasts` (castRoot) and `followCastsAndForce` (strictRoot) for the
   * values where they differ from the value itself.
   */
  datatype Code = Code(
    instrs: map<Value, Instr>,
    castRoot: map<Value, Value>,
    strictRoot: map<Value, Value>)

  predicate IsInstr(c: Code, v: Value) { v in c.instrs }
  predicate IsPhi(c: Code, v: Value) { v in c.instrs && c.instrs[v].kind.Phi? }
  predicate IsForce(c: Code, v: Value) { v in c.instrs && c.instrs[v].kind.Force? }
  predicate IsMkArg(c: Code, v: Value) { v in c.instrs && c.instrs[v].kind.MkArg? }
  predicate IsMkEnv(c: Code, v: Value) { v in c.instrs && c.instrs[v].kind.MkEnv? }
  predicate IsLdArg(c: Code, v: Value) { v in c.instrs && c.instrs[v].kind.LdArg? }
  predicate IsEagerMkArg(c: Code, v: Value) { IsMkArg(c, v) && c.instrs[v].kind.eagerArg.Some? }

  /** The inputs of a phi; nothing for any other value. */
  function PhiInputs(c: Code, v: Value): seq<Value> {
    if IsPhi(c, v) then c.instrs[v].args else []
  }

  /** `v->followCasts()`. */
  function FollowCasts(c: Code, v: Value): Value {
    if v in c.castRoot then c.castRoot[v] else v
  }

  /** `v->followCastsAndForce()`. */
  function FollowCastsAndForce(c: Code, v: Value): Value {
    if v in c.strictRoot then c.strictRoot[v] else v
  }

  /**
   * What the analysis framework's `AbstractResult` reports; the framework
   * (generic_static_analysis.h) is not part of this model. Each report only
   * ever raises the level: `update()`, `lostPrecision()`, `taint()`.
   */
  datatype AbstractResult = NoChange | Updated | LostPrecision | Tainted {
    function Level(): nat {
      match this
      case NoChange => 0
      case Updated => 1
      case LostPrecision => 2
      case Tainted => 3
    }

    /** Raising a result to `other` keeps the higher of the two levels. */
    function Raise(other: AbstractResult): (r: AbstractResult)
      ensures r.Level() == if Level() >= other.Level() then Level() else other.Level()
      ensures r == this || r == other
    {
      if Level() >= other.Level() then this else other
    }
  }

  /** Removing a member makes a set of values one smaller: the measure of
      the loops that visit a set one member at a time. */
  lemma RemoveOne(s: set<Value>, v: Value)
    requires v in s
    ensures |s - {v}| == |s| - 1
  {
  }
}
