/**
 * The type-inference pass (`TypeInference::apply`, types.cpp:17-280):
 * sweeps over all instructions, inferring each result type from the types
 * inferred so far for its operands, until a sweep changes nothing; then
 * writes the inferred types back. Inferred types are intersected with the
 * instruction's current type, so the pass only ever narrows.
 */
module TypeInference {
  import opened Ir
  import opened PirTypes

  /**
   * What the pass calls into that is not part of this model: the type of a
   * value that is not an instruction, an instruction's own `inferType`
   * (given the types `getType` gives its operands), `mergeWithConversion`,
   * `mergedInputType(..).collectionType(n)` for `c`, and the range analysis.
   * These are assumed to query every operand through `getType`.
   * `absentArg` is the type `getType(callArg(k))` gives for a `k` past the
   * call's arguments; what `callArg` reads there is not part of this model.
   */
  datatype Oracle = Oracle(
    valueType: Value -> PirType,
    inferType: (Value, seq<PirType>) -> PirType,
    mergeWithConversion: (PirType, PirType) -> PirType,
    collectionType: (Value, seq<PirType>, nat) -> PirType,
    positiveIndex: Value -> bool,   // the range before this Extract1_1D gives its index a positive bound
    absentArg: PirType)

  /** A type and whether computing it met an operand instruction without an
      entry yet (which sets `done = false`). */
  datatype Typed = Typed(t: PirType, missing: bool)

  /** The type an instruction has before the write-back (`i->type`). */
  function CurrentType(o: Oracle, itype: map<Value, PirType>, v: Value): PirType {
    if v in itype then itype[v] else o.valueType(v)
  }

  /** `getType` (types.cpp:30-41): an operand instruction's entry, bottom when
      it has none yet; any other value's own type. */
  function GetType(c: Code, o: Oracle, types: map<Value, PirType>, v: Value): Typed {
    if IsInstr(c, v) then
      if v in types then Typed(types[v], false) else Typed(Bottom, true)
    else Typed(o.valueType(v), false)
  }

  /** `getType(callArg(k))`; an argument past the call's reads as `o.absentArg`. */
  function CallArgType(c: Code, o: Oracle, types: map<Value, PirType>, args: seq<Value>, k: nat): Typed {
    if k < |args| then GetType(c, o, types, args[k]) else Typed(o.absentArg, false)
  }

  function ArgTypes(c: Code, o: Oracle, types: map<Value, PirType>, args: seq<Value>): seq<PirType> {
    seq(|args|, k requires 0 <= k < |args| => GetType(c, o, types, args[k]).t)
  }

  predicate AnyMissing(c: Code, types: map<Value, PirType>, args: seq<Value>) {
    exists k :: 0 <= k < |args| && IsInstr(c, args[k]) && args[k] !in types
  }

  /** `m.mergeWithConversion(..)` over all argument types, from bottom. */
  function MergeAll(o: Oracle, ts: seq<PirType>): PirType
    decreases |ts|
  {
    if ts == [] then Bottom else o.mergeWithConversion(MergeAll(o, ts[..|ts| - 1]), ts[|ts| - 1])
  }

  // ---------------------------------------------------------------------
  // The builtin rules (types.cpp:45-222)

  /** The bitwise builtins and those of them that take a single argument. */
  datatype BitwiseTable = BitwiseTable(names: set<string>, unary: set<string>)

  /** The bitwise set as the source spells it; both arguments are checked
      for every name (types.cpp:50-58). */
  const BitwiseAsWritten := BitwiseTable(
    {"bitwiseXor", "bitwiseShiftL", "bitwiseShiftLR", "bitwiseAnd", "bitwiseNot", "bitwiseOr"}, {})

  /** The six bitwise builtins of R, with `bitwiseNot` taking one argument. */
  const Bitwise := BitwiseTable(
    {"bitwiseXor", "bitwiseShiftL", "bitwiseShiftR", "bitwiseAnd", "bitwiseNot", "bitwiseOr"}, {"bitwiseNot"})

  const Summaries: set<string> := {"min", "max", "prod", "sum"}
  const VecTests: set<string> := {"is.na", "is.nan", "is.finite", "is.infinite"}
  const Tests: set<string> := {
    "is.vector", "is.null", "is.integer", "is.double", "is.complex", "is.character",
    "is.symbol", "is.name", "is.environment", "is.list", "is.pairlist", "is.expression",
    "is.raw", "is.object", "isS4", "is.numeric", "is.matrix", "is.array",
    "is.atomic", "is.recursive", "is.call", "is.language", "is.function", "all", "any"}

  /** `str2type` for the names `vector` handles (types.cpp:176-209);
      `str2type` itself is not part of this model. */
  function VectorType(s: string): Option<RType> {
    if s == "logical" then Some(Logical)
    else if s == "integer" then Some(Integer)
    else if s == "double" || s == "numeric" then Some(Real)
    else if s == "complex" then Some(Cplx)
    else if s == "character" then Some(Str)
    else if s == "list" then Some(Vec)
    else if s == "raw" then Some(Raw)
    else None
  }

  /** Integer, a simple scalar when the checked arguments are. */
  function BitwiseRule(tbl: BitwiseTable, c: Code, o: Oracle, types: map<Value, PirType>,
                       name: string, args: seq<Value>): Typed
  {
    var g0 := CallArgType(c, o, types, args, 0);
    if !IsSimpleScalar(g0.t) then Typed(Of(Integer), g0.missing)
    else if name in tbl.unary then Typed(SimpleScalar(Of(Integer)), g0.missing)
    else
      var g1 := CallArgType(c, o, types, args, 1);
      Typed(if IsSimpleScalar(g1.t) then SimpleScalar(Of(Integer)) else Of(Integer), g0.missing || g1.missing)
  }

  /** `abs`, `min`, `max`, `prod`, `sum` over a merged argument type without objects (types.cpp:76-92). */
  function SummaryType(name: string, m: PirType): PirType {
    var t0 := Meet(m, OrAttribsOrObj(Num));
    var t1 := if Maybe(t0, Logical) then NotT(OrT(t0, Integer), Logical) else t0;
    var t2 := if name in Summaries then SimpleScalar(t1) else t1;
    var t3 := if name == "prod" then NotT(OrT(t2, Real), Integer) else t2;
    if name == "abs" && Maybe(t3, Cplx) then NotT(OrT(t3, Real), Cplx) else t3
  }

  /** `is.na` and friends on an argument that is not an object (types.cpp:133-141). */
  function VecTestType(a: PirType): PirType {
    var t0 := Of(Logical);
    var t1 := if MaybeHasAttrs(a) then NotObject(OrAttribsOrObj(t0)) else t0;
    var t2 := if !MaybeNotFastVecelt(a) then FastVecelt(t1) else t1;
    if IsSimpleScalar(a) then SimpleScalar(t2) else t2
  }

  /** The rule for a CallSafeBuiltin named `name` with operands `args`. */
  function BuiltinRule(tbl: BitwiseTable, c: Code, o: Oracle, types: map<Value, PirType>,
                       i: Value, name: string, vectorName: Option<string>, args: seq<Value>): Typed
  {
    var ts := ArgTypes(c, o, types, args);
    var fallback := Typed(o.inferType(i, ts), AnyMissing(c, types, args));
    var m := MergeAll(o, ts);
    var g0 := CallArgType(c, o, types, args, 0);
    if name in tbl.names then BitwiseRule(tbl, c, o, types, name, args)
    else if name == "length" then Typed(OrNAOrNaN(SimpleScalar(OfAll({Integer, Real}))), false)
    else if (name == "abs" || name in Summaries) && |args| > 0 && !MaybeObj(m) then
      Typed(SummaryType(name, m), AnyMissing(c, types, args))
    else if name == "sqrt" && |args| > 0 && !MaybeObj(m) then
      Typed(NotT(OrT(Meet(m, OrAttribsOrObj(Num)), Real), Integer), AnyMissing(c, types, args))
    else if name == "as.integer" then
      if !MaybeObj(g0.t) then
        Typed(if IsSimpleScalar(g0.t) then SimpleScalar(Of(Integer)) else Of(Integer), g0.missing)
      else Typed(fallback.t, g0.missing || fallback.missing)
    else if name == "typeof" then Typed(SimpleScalar(Of(Str)), false)
    else if name in VecTests then
      if !MaybeObj(g0.t) then Typed(VecTestType(g0.t), g0.missing)
      else Typed(fallback.t, g0.missing || fallback.missing)
    else if name in Tests then
      if !MaybeObj(g0.t) then Typed(NotNAOrNaN(SimpleScalar(Of(Logical))), g0.missing)
      else Typed(fallback.t, g0.missing || fallback.missing)
    else if name == "c" then Typed(o.collectionType(i, ts, |args|), AnyMissing(c, types, args))
    else if name == "vector" && vectorName.Some? && VectorType(vectorName.value).Some? then
      Typed(Of(VectorType(vectorName.value).value), false)
    else if name == "strsplit" then Typed(OrAttribsOrObj(Of(Vec)), false)
    else fallback
  }

  /** The rule for vector reads and writes (types.cpp:223-251). */
  function VectorRule(c: Code, o: Oracle, itype: map<Value, PirType>, types: map<Value, PirType>,
                      i: Value, k: Kind, args: seq<Value>): Typed
  {
    var t0 := o.inferType(i, ArgTypes(c, o, types, args));
    var miss := AnyMissing(c, types, args);
    var t1 := if |args| > 0 && !MaybeObj(CurrentType(o, itype, args[0])) then Meet(t0, Val) else t0;
    if k.Extract1D? && !IsSimpleScalar(t1) then
      var gv := GetType(c, o, types, k.vec);
      if IsA(gv.t, Num) && !MaybeHasAttrs(gv.t) then
        var gi := GetType(c, o, types, k.idx);
        Typed(if IsSimpleScalar(gi.t) && o.positiveIndex(i) then SimpleScalar(t1) else t1,
              miss || gv.missing || gi.missing)
      else Typed(t1, miss || gv.missing)
    else Typed(t1, miss)
  }

  /** The type inferred for instruction `i` before the final intersection. */
  function Infer(tbl: BitwiseTable, c: Code, o: Oracle, itype: map<Value, PirType>,
                 types: map<Value, PirType>, i: Value): Typed
    requires IsInstr(c, i)
  {
    var k := c.instrs[i].kind;
    var args := c.instrs[i].args;
    match k
    case CallSafeBuiltin(name, vectorName) => BuiltinRule(tbl, c, o, types, i, name, vectorName, args)
    case Extract1D(_, _) => VectorRule(c, o, itype, types, i, k, args)
    case VectorAccess => VectorRule(c, o, itype, types, i, k, args)
    case _ => Typed(o.inferType(i, ArgTypes(c, o, types, args)), AnyMissing(c, types, args))
  }

  // ---------------------------------------------------------------------
  // The sweeps (types.cpp:24-270)

  datatype SweepState = SweepState(types: map<Value, PirType>, done: bool)

  /** The instruction produces a result, so it takes part in the inference. */
  predicate Inferred(c: Code, i: Value) {
    IsInstr(c, i) && c.instrs[i].producesResult
  }

  /** The type stored for `i` in one visit: the inferred type, narrowed to
      the instruction's current type (types.cpp:257-258). */
  function Narrowed(tbl: BitwiseTable, c: Code, o: Oracle, itype: map<Value, PirType>, types: map<Value, PirType>, i: Value): PirType
    requires IsInstr(c, i)
  {
    Meet(Infer(tbl, c, o, itype, types, i).t, CurrentType(o, itype, i))
  }

  /** One visit of the sweep (types.cpp:26-264). */
  function Visit(tbl: BitwiseTable, c: Code, o: Oracle, itype: map<Value, PirType>, st: SweepState, i: Value): SweepState {
    if !Inferred(c, i) then st
    else
      var r := Infer(tbl, c, o, itype, st.types, i);
      var inferred := Narrowed(tbl, c, o, itype, st.types, i);
      var changed := i !in st.types || st.types[i] != inferred;
      SweepState(if changed then st.types[i := inferred] else st.types, st.done && !r.missing && !changed)
  }

  function SweepOf(tbl: BitwiseTable, c: Code, o: Oracle, itype: map<Value, PirType>, order: seq<Value>, st: SweepState): SweepState
    decreases |order|
  {
    if order == [] then st
    else Visit(tbl, c, o, itype, SweepOf(tbl, c, o, itype, order[..|order| - 1], st), order[|order| - 1])
  }

  /** `while (!done) { done = true; apply(); }`, for at most `fuel` sweeps;
      the flag says whether the last sweep was quiet. */
  function Iterate(tbl: BitwiseTable, c: Code, o: Oracle, itype: map<Value, PirType>, order: seq<Value>,
                   types: map<Value, PirType>, fuel: nat): (map<Value, PirType>, bool)
    decreases fuel
  {
    if fuel == 0 then (types, false)
    else
      var s := SweepOf(tbl, c, o, itype, order, SweepState(types, true));
      if s.done then (s.types, true) else Iterate(tbl, c, o, itype, order, s.types, fuel - 1)
  }

  /** The write-back visit (types.cpp:272-277). */
  function WriteBack(c: Code, order: seq<Value>, itype: map<Value, PirType>, types: map<Value, PirType>)
    : map<Value, PirType>
    decreases |order|
  {
    if order == [] then itype
    else
      var m := WriteBack(c, order[..|order| - 1], itype, types);
      var i := order[|order| - 1];
      if Inferred(c, i) && i in types then m[i := types[i]] else m
  }

  /** Every entry is within the instruction's current type and belongs to
      an instruction that produces a result. */
  predicate Within(c: Code, o: Oracle, itype: map<Value, PirType>, types: map<Value, PirType>) {
    forall k :: k in types ==> Inferred(c, k) && IsA(types[k], CurrentType(o, itype, k))
  }

  /** A sweep keeps every entry within the current types: inference never
      widens; instructions without a result get no entry. */
  lemma {:induction false} SweepNarrows(tbl: BitwiseTable, c: Code, o: Oracle, itype: map<Value, PirType>,
                                        order: seq<Value>, st: SweepState)
    requires Within(c, o, itype, st.types)
    ensures Within(c, o, itype, SweepOf(tbl, c, o, itype, order, st).types)
    decreases |order|
  {
    if order != [] {
      var front := order[..|order| - 1];
      var i := order[|order| - 1];
      SweepNarrows(tbl, c, o, itype, front, st);
      var s := SweepOf(tbl, c, o, itype, front, st);
      if Inferred(c, i) {
        MeetNarrows(Infer(tbl, c, o, itype, s.types, i).t, CurrentType(o, itype, i));
      }
    }
  }

  /**
   * A sweep ends with `done` only when it started with `done`, no entry
   * changed, and no visited instruction met an operand without an entry:
   * the entries are then a fixed point of every visit. Conversely, a sweep
   * started from such a fixed point ends with `done`.
   */
  lemma {:induction false} SweepDone(tbl: BitwiseTable, c: Code, o: Oracle, itype: map<Value, PirType>,
                                     order: seq<Value>, types: map<Value, PirType>, done: bool)
    ensures var s := SweepOf(tbl, c, o, itype, order, SweepState(types, done));
      s.done ==> done && s.types == types && Quiet(tbl, c, o, itype, order, types)
    ensures done && Quiet(tbl, c, o, itype, order, types) ==>
      SweepOf(tbl, c, o, itype, order, SweepState(types, done)) == SweepState(types, true)
    decreases |order|
  {
    if order != [] {
      var front := order[..|order| - 1];
      var i := order[|order| - 1];
      SweepDone(tbl, c, o, itype, front, types, done);
      assert forall j :: j in order <==> j in front || j == i;
    }
  }

  /** Every instruction in `order` that takes part has an entry equal to its
      re-inferred type from `types`, and none of its operands lacks an entry. */
  predicate Quiet(tbl: BitwiseTable, c: Code, o: Oracle, itype: map<Value, PirType>, order: seq<Value>, types: map<Value, PirType>) {
    forall i :: i in order && Inferred(c, i) ==>
      i in types && types[i] == Narrowed(tbl, c, o, itype, types, i)
      && !Infer(tbl, c, o, itype, types, i).missing
  }

  /** A sweep never removes an entry. */
  lemma {:induction false} SweepGrows(tbl: BitwiseTable, c: Code, o: Oracle, itype: map<Value, PirType>,
                                      order: seq<Value>, st: SweepState)
    ensures st.types.Keys <= SweepOf(tbl, c, o, itype, order, st).types.Keys
    decreases |order|
  {
    if order != [] {
      SweepGrows(tbl, c, o, itype, order[..|order| - 1], st);
    }
  }

  /** The loop stops only after a sweep in which no entry changed and every
      operand had an entry; the entries stay within the current types. */
  lemma {:induction false} IterateFacts(tbl: BitwiseTable, c: Code, o: Oracle, itype: map<Value, PirType>, order: seq<Value>,
                                        types: map<Value, PirType>, fuel: nat)
    requires Within(c, o, itype, types)
    ensures var r := Iterate(tbl, c, o, itype, order, types, fuel);
      && Within(c, o, itype, r.0)
      && (r.1 ==> SweepOf(tbl, c, o, itype, order, SweepState(r.0, true)) == SweepState(r.0, true)
                  && Quiet(tbl, c, o, itype, order, r.0))
    decreases fuel
  {
    if fuel > 0 {
      var s := SweepOf(tbl, c, o, itype, order, SweepState(types, true));
      SweepNarrows(tbl, c, o, itype, order, SweepState(types, true));
      SweepDone(tbl, c, o, itype, order, types, true);
      if !s.done {
        IterateFacts(tbl, c, o, itype, order, s.types, fuel - 1);
      }
    }
  }

  /** The write-back changes exactly the instructions that take part and
      have an entry, to that entry; every other type is left alone. */
  lemma {:induction false} WriteBackContents(c: Code, order: seq<Value>, itype: map<Value, PirType>,
                                             types: map<Value, PirType>, v: Value)
    ensures var m := WriteBack(c, order, itype, types);
      && (v in m <==> v in itype || (v in order && Inferred(c, v) && v in types))
      && (v in m ==> m[v] == if v in order && Inferred(c, v) && v in types then types[v] else itype[v])
    decreases |order|
  {
    if order != [] {
      var front := order[..|order| - 1];
      WriteBackContents(c, front, itype, types, v);
      assert order == front + [order[|order| - 1]];
      assert v in order <==> v in front || v == order[|order| - 1];
    }
  }

  // ---------------------------------------------------------------------
  // Properties of the rule table

  /** As written, every bitwise builtin infers integer, a simple scalar
      exactly when call arguments 0 and 1 both are (types.cpp:50-58). */
  lemma BitwiseAsWrittenInfersInteger(c: Code, o: Oracle, types: map<Value, PirType>, i: Value,
                                      name: string, vn: Option<string>, args: seq<Value>)
    requires name in BitwiseAsWritten.names
    ensures var r := BuiltinRule(BitwiseAsWritten, c, o, types, i, name, vn, args).t;
      && r.rtypes == {Integer}
      && (IsSimpleScalar(r) <==>
            IsSimpleScalar(CallArgType(c, o, types, args, 0).t)
            && IsSimpleScalar(CallArgType(c, o, types, args, 1).t))
  {
  }

  /** With the corrected table, every bitwise builtin, `bitwiseShiftR`
      included, infers integer; a simple scalar exactly when its first
      argument is and, unless it is `bitwiseNot`, its second one too. */
  lemma BitwiseInfersInteger(c: Code, o: Oracle, types: map<Value, PirType>, i: Value,
                             name: string, vn: Option<string>, args: seq<Value>)
    requires name in Bitwise.names
    ensures var r := BuiltinRule(Bitwise, c, o, types, i, name, vn, args).t;
      && r.rtypes == {Integer}
      && (IsSimpleScalar(r) <==>
            IsSimpleScalar(CallArgType(c, o, types, args, 0).t)
            && (name == "bitwiseNot" || IsSimpleScalar(CallArgType(c, o, types, args, 1).t)))
  {
  }

  /** `typeof` gives a scalar string; the `is.*`, `all` and `any` tests give
      a logical scalar that is never NA when the argument cannot be an object. */
  lemma TestsInferLogical(c: Code, o: Oracle, types: map<Value, PirType>, i: Value,
                          name: string, vn: Option<string>, args: seq<Value>)
    ensures name == "typeof" ==>
      var r := BuiltinRule(BitwiseAsWritten, c, o, types, i, name, vn, args).t;
      r.rtypes == {Str} && IsSimpleScalar(r)
    ensures name in Tests && !MaybeObj(CallArgType(c, o, types, args, 0).t) ==>
      var r := BuiltinRule(BitwiseAsWritten, c, o, types, i, name, vn, args).t;
      r.rtypes == {Logical} && IsSimpleScalar(r) && MaybeNAOrNaN !in r.flags
  {
    assert "typeof" !in BitwiseAsWritten.names && "typeof" !in Summaries && "typeof" !in VecTests;
    if name in Tests {
      assert name !in BitwiseAsWritten.names && name !in Summaries && name !in VecTests;
      assert name != "length" && name != "abs" && name != "sqrt" && name != "as.integer" && name != "typeof";
    }
  }

  /** The summaries give a simple scalar of no logical type; `prod` gives no
      integer, `abs` no complex. */
  lemma SummaryShapes(name: string, m: PirType)
    ensures name in Summaries ==> IsSimpleScalar(SummaryType(name, m))
    ensures Logical !in SummaryType(name, m).rtypes
    ensures name == "prod" ==> Integer !in SummaryType(name, m).rtypes
    ensures name == "abs" ==> Cplx !in SummaryType(name, m).rtypes
  {
  }

  // ---------------------------------------------------------------------
  // The pass, imperatively

  /**
   * `TypeInference::apply` with at most `fuel` sweeps: returns whether the
   * CFG changed (never), whether the sweeps settled, and the instruction
   * types after the write-back.
   */
  method Apply(c: Code, o: Oracle, order: seq<Value>, itype: map<Value, PirType>, fuel: nat)
    returns (cfgChanged: bool, converged: bool, newType: map<Value, PirType>)
    ensures !cfgChanged
    ensures (newType, converged) == (WriteBack(c, order, itype, Iterate(BitwiseAsWritten, c, o, itype, order, map[], fuel).0),
                                     Iterate(BitwiseAsWritten, c, o, itype, order, map[], fuel).1)
  {
    var types: map<Value, PirType> := map[];
    var done := false;
    var left := fuel;
    while !done && left > 0
      invariant Iterate(BitwiseAsWritten, c, o, itype, order, map[], fuel) ==
        if done then (types, true) else Iterate(BitwiseAsWritten, c, o, itype, order, types, left)
      decreases left
    {
      done := true;
      ghost var start := types;
      for j := 0 to |order|
        invariant SweepOf(BitwiseAsWritten, c, o, itype, order[..j], SweepState(start, true)) == SweepState(types, done)
      {
        assert order[..j + 1][..j] == order[..j];
        var i := order[j];
        if IsInstr(c, i) && c.instrs[i].producesResult {
          var r := Infer(BitwiseAsWritten, c, o, itype, types, i);
          if r.missing {
            done := false;
          }
          var inferred := Meet(r.t, CurrentType(o, itype, i));
          if i !in types || types[i] != inferred {
            done := false;
            types := types[i := inferred];
          }
        }
      }
      assert order[..|order|] == order;
      left := left - 1;
    }
    converged := done;
    newType := itype;
    for j := 0 to |order|
      invariant newType == WriteBack(c, order[..j], itype, types)
    {
      assert order[..j + 1][..j] == order[..j];
      var i := order[j];
      if IsInstr(c, i) && c.instrs[i].producesResult && i in types {
        newType := newType[i := types[i]];
      }
    }
    assert order[..|order|] == order;
    cfgChanged := false;
  }

  /** After the pass, every instruction's type is within its type before. */
  lemma ApplyNarrows(tbl: BitwiseTable, c: Code, o: Oracle, order: seq<Value>, itype: map<Value, PirType>, fuel: nat, v: Value)
    requires v in itype
    ensures var m := WriteBack(c, order, itype, Iterate(tbl, c, o, itype, order, map[], fuel).0);
      v in m && IsA(m[v], itype[v])
  {
    var types := Iterate(tbl, c, o, itype, order, map[], fuel).0;
    IterateFacts(tbl, c, o, itype, order, map[], fuel);
    WriteBackContents(c, order, itype, types, v);
  }

  // ---------------------------------------------------------------------
  // The bitwise table as written (types.cpp:50-58)

  /** As written, `bitwiseShiftR` is not in the table (the set spells
      `bitwiseShiftLR`), so it falls through to the generic inference; the
      corrected table infers integer for it. */
  lemma ShiftRightMissedAsWritten(c: Code, o: Oracle, types: map<Value, PirType>, i: Value, args: seq<Value>)
    ensures "bitwiseShiftR" !in BitwiseAsWritten.names
    ensures BuiltinRule(BitwiseAsWritten, c, o, types, i, "bitwiseShiftR", None, args).t
            == o.inferType(i, ArgTypes(c, o, types, args))
    ensures BuiltinRule(Bitwise, c, o, types, i, "bitwiseShiftR", None, args).t.rtypes == {Integer}
  {
    assert "bitwiseShiftR" !in Summaries && "bitwiseShiftR" !in VecTests && "bitwiseShiftR" !in Tests;
  }

  /** The call arguments a bitwise rule queries, in order. */
  function BitwiseReads(tbl: BitwiseTable, name: string, c: Code, o: Oracle,
                        types: map<Value, PirType>, args: seq<Value>): (r: seq<nat>)
    ensures r == [0] || r == [0, 1]
  {
    if !IsSimpleScalar(CallArgType(c, o, types, args, 0).t) || name in tbl.unary then [0] else [0, 1]
  }

  /** A bitwise rule's result depends on the call arguments it reads and on
      no other: two argument lists that agree there give the same result. */
  lemma BitwiseRuleReadsOnly(tbl: BitwiseTable, c: Code, o: Oracle, types: map<Value, PirType>,
                             name: string, args: seq<Value>, args': seq<Value>)
    requires forall k :: k in BitwiseReads(tbl, name, c, o, types, args) ==>
      CallArgType(c, o, types, args, k) == CallArgType(c, o, types, args', k)
    ensures BitwiseReads(tbl, name, c, o, types, args') == BitwiseReads(tbl, name, c, o, types, args)
    ensures BitwiseRule(tbl, c, o, types, name, args') == BitwiseRule(tbl, c, o, types, name, args)
  {
    assert 0 in BitwiseReads(tbl, name, c, o, types, args);
    if BitwiseReads(tbl, name, c, o, types, args) == [0, 1] {
      assert 1 in BitwiseReads(tbl, name, c, o, types, args);
    }
  }

  /** As written, `bitwiseNot(x)` with a simple-scalar `x` reads a second
      call argument that the call does not have, and its result depends on
      what that read gives: when it is not a simple scalar the result is a
      plain integer vector, where the corrected rule gives a simple scalar. */
  lemma BitwiseNotReadsPastItsArgument(c: Code, o: Oracle, types: map<Value, PirType>, i: Value, x: Value)
    requires IsSimpleScalar(GetType(c, o, types, x).t) && !IsSimpleScalar(o.absentArg)
    ensures BitwiseReads(BitwiseAsWritten, "bitwiseNot", c, o, types, [x]) == [0, 1]
    ensures BuiltinRule(BitwiseAsWritten, c, o, types, i, "bitwiseNot", None, [x]).t == Of(Integer)
    ensures BitwiseReads(Bitwise, "bitwiseNot", c, o, types, [x]) == [0]
    ensures BuiltinRule(Bitwise, c, o, types, i, "bitwiseNot", None, [x]).t == SimpleScalar(Of(Integer))
  {
  }

  /** In the corrected table every bitwise builtin called with its R arity
      (one argument for `bitwiseNot`, two for the others) reads only
      arguments it has, so its result does not depend on `absentArg`. */
  lemma BitwiseReadsWithinArity(name: string, c: Code, o: Oracle, types: map<Value, PirType>,
                                args: seq<Value>, other: PirType)
    requires name in Bitwise.names
    requires |args| == if name == "bitwiseNot" then 1 else 2
    ensures forall k :: k in BitwiseReads(Bitwise, name, c, o, types, args) ==> k < |args|
    ensures BitwiseRule(Bitwise, c, o.(absentArg := other), types, name, args)
            == BitwiseRule(Bitwise, c, o, types, name, args)
  {
  }
}
