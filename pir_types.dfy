/**
 * An abstraction of PIR's static types (`PirType`): a set of R types the
 * value may have and a set of "maybe" flags. Every flag states a possibility
 * (may not be a scalar, may carry attributes, ...), so fewer members mean a
 * more precise type and `&` is intersection of both parts. The real class
 * (pir_type.h) is not part of this model; the operations below follow the
 * names the type-inference pass uses.
 */
module PirTypes {

  /** The R types a value may have (`RType`). */
  datatype RType = Nil | Logical | Integer | Real | Cplx | Str | Vec | Raw | Sym | Env | Closure | Prom

  /** The possibilities a type leaves open besides its R types. */
  datatype TypeFlag =
    | MaybeNotScalar       // absent: a scalar
    | MaybeAttribs         // may carry attributes
    | MaybeObject          // may be an object (class attribute)
    | MaybeNAOrNaN
    | NotFastVecelt        // absent: elements can be read without dispatch
    | MaybeLazy            // may be an unevaluated promise
    | MaybePromiseWrapped

  datatype PirType = PirType(rtypes: set<RType>, flags: set<TypeFlag>)

  const AllRTypes: set<RType> := {Nil, Logical, Integer, Real, Cplx, Str, Vec, Raw, Sym, Env, Closure, Prom}
  const AllFlags: set<TypeFlag> :=
    {MaybeNotScalar, MaybeAttribs, MaybeObject, MaybeNAOrNaN, NotFastVecelt, MaybeLazy, MaybePromiseWrapped}

  /** The flags a type made from an R type starts with: any length, maybe NA. */
  const DefaultFlags: set<TypeFlag> := {MaybeNotScalar, MaybeNAOrNaN, NotFastVecelt}

  /** `PirType::bottom()`: no value at all. */
  const Bottom := PirType({}, {})

  /** `PirType(RType t)`. */
  function Of(r: RType): PirType { PirType({r}, DefaultFlags) }

  /** `PirType()` with the R types `rs` or-ed in. */
  function OfAll(rs: set<RType>): PirType { PirType(rs, DefaultFlags) }

  /** `PirType::num()`: logical, integer, real or complex, without attributes. */
  const Num := OfAll({Logical, Integer, Real, Cplx})

  /** `PirType::val()`: any evaluated R value. */
  const Val := PirType(AllRTypes - {Prom}, AllFlags - {MaybeLazy, MaybePromiseWrapped})

  /** `a & b`. */
  function Meet(a: PirType, b: PirType): PirType {
    PirType(a.rtypes * b.rtypes, a.flags * b.flags)
  }

  /** `a.isA(b)`: every possibility of `a` is one of `b`. */
  predicate IsA(a: PirType, b: PirType) {
    a.rtypes <= b.rtypes && a.flags <= b.flags
  }

  predicate MaybeObj(t: PirType) { MaybeObject in t.flags }
  predicate MaybeHasAttrs(t: PirType) { MaybeAttribs in t.flags || MaybeObject in t.flags }
  predicate MaybeNotFastVecelt(t: PirType) { NotFastVecelt in t.flags }
  predicate Maybe(t: PirType, r: RType) { r in t.rtypes }

  /** `isSimpleScalar()`: a scalar without attributes. */
  predicate IsSimpleScalar(t: PirType) {
    MaybeNotScalar !in t.flags && !MaybeHasAttrs(t)
  }

  /** `simpleScalar()`. */
  function SimpleScalar(t: PirType): (r: PirType)
    ensures IsSimpleScalar(r) && IsA(r, t)
  {
    t.(flags := t.flags - {MaybeNotScalar, MaybeAttribs, MaybeObject})
  }

  function OrAttribsOrObj(t: PirType): PirType { t.(flags := t.flags + {MaybeAttribs, MaybeObject}) }
  function NotObject(t: PirType): PirType { t.(flags := t.flags - {MaybeObject}) }
  function FastVecelt(t: PirType): PirType { t.(flags := t.flags - {NotFastVecelt}) }
  function OrNAOrNaN(t: PirType): PirType { t.(flags := t.flags + {MaybeNAOrNaN}) }
  function NotNAOrNaN(t: PirType): PirType { t.(flags := t.flags - {MaybeNAOrNaN}) }
  function OrT(t: PirType, r: RType): PirType { t.(rtypes := t.rtypes + {r}) }
  function NotT(t: PirType, r: RType): PirType { t.(rtypes := t.rtypes - {r}) }

  /** Intersecting with `b` never gives anything less precise than `b`, and
      leaves a type already within `b` as it is. */
  lemma MeetNarrows(a: PirType, b: PirType)
    ensures IsA(Meet(a, b), b) && IsA(Meet(a, b), a)
    ensures IsA(a, b) <==> Meet(a, b) == a
  {
    if Meet(a, b) == a {
      assert a.rtypes == a.rtypes * b.rtypes;
    }
  }

  lemma IsATransitive(a: PirType, b: PirType, d: PirType)
    requires IsA(a, b) && IsA(b, d)
    ensures IsA(a, d)
  {
  }
}
