/**
 * Call contexts of the R runtime (Context.cpp): the assumptions a call site
 * guarantees, their textual forms, the masking by specialization level, and
 * the test whether a context improves on a compiled version's context.
 *
 * Context.h is not part of this model. The enum orders are taken from the
 * order the printing code lists the values in, `NUM_TYPED_ARGS` is the six
 * columns of the short-form table, `pir::Compiler::minimalContext` is a
 * parameter, and `clearObjFlags` is taken to drop the NotObj type flags.
 */
module Contexts {

  /** `Assumption`, in enum order. */
  datatype Assumption = NoExplicitlyMissingArgs | CorrectOrderOfArguments | StaticallyArgmatched | NotTooManyArguments

  const AssumptionOrder: seq<Assumption> :=
    [NoExplicitlyMissingArgs, CorrectOrderOfArguments, StaticallyArgmatched, NotTooManyArguments]

  /** The per-argument properties of `TypeAssumption`, in enum order. */
  datatype ArgKind = Eager | NotObj | SimpleInt | SimpleReal | NonRefl

  const KindOrder: seq<ArgKind> := [Eager, NotObj, SimpleInt, SimpleReal, NonRefl]

  const NumTypedArgs: nat := 6

  type ArgIndex = i: nat | i < NumTypedArgs

  /** `TypeAssumption::Arg<arg>Is<kind>_`. */
  datatype TypeAssumption = TypeAssumption(kind: ArgKind, arg: ArgIndex)

  /** The type assumptions in enum order: every argument of one kind, then the next kind. */
  const TypeOrder: seq<TypeAssumption> :=
    seq(30, k requires 0 <= k < 30 => TypeAssumption(KindOrder[k / 6], k % 6))

  lemma InOrder(a: Assumption, t: TypeAssumption)
    ensures a in AssumptionOrder && t in TypeOrder
  {
    var k := KindIndex(t.kind) * 6 + t.arg;
    assert k / 6 == KindIndex(t.kind) && k % 6 == t.arg;
    assert TypeOrder[k] == t;
  }

  /** The value of a `Context`: its flags, type flags and missing-argument count. */
  datatype Ctx = Ctx(flags: set<Assumption>, typeFlags: set<TypeAssumption>, missing: nat)

  /** The members of `s`, in the order of `order` (how an `EnumSet` is iterated). */
  function Members<T(!new)>(s: set<T>, order: seq<T>): (r: seq<T>)
    ensures forall x :: x in r <==> x in s && x in order
    decreases |order|
  {
    if order == [] then []
    else Members(s, order[..|order| - 1]) + (if order[|order| - 1] in s then [order[|order| - 1]] else [])
  }

  /** `xs` joined by `sep`. */
  function Join(xs: seq<string>, sep: string): string
    decreases |xs|
  {
    if |xs| == 0 then ""
    else if |xs| == 1 then xs[0]
    else Join(xs[..|xs| - 1], sep) + sep + xs[|xs| - 1]
  }

  function Digit(d: nat): (r: char)
    requires d < 10
    ensures '0' <= r <= '9'
  {
    ('0' as int + d) as char
  }

  /** The decimal form of `n`. */
  function Decimal(n: nat): (r: string)
    ensures |r| > 0 && forall k :: 0 <= k < |r| ==> '0' <= r[k] <= '9'
  {
    if n < 10 then [Digit(n)] else Decimal(n / 10) + [Digit(n % 10)]
  }

  // ---------------------------------------------------------------------
  // operator<< (Context.cpp:19-84)

  function AssumptionName(a: Assumption): string {
    match a
    case NoExplicitlyMissingArgs => "!ExpMi"
    case CorrectOrderOfArguments => "CorrOrd"
    case StaticallyArgmatched => "Argmatch"
    case NotTooManyArguments => "!TMany"
  }

  function KindName(k: ArgKind): string {
    match k
    case Eager => "Eager"
    case NotObj => "!Obj"
    case SimpleInt => "SimpleInt"
    case SimpleReal => "SimpleReal"
    case NonRefl => "NonRefl"
  }

  function TypeAssumptionName(t: TypeAssumption): string {
    KindName(t.kind) + [Digit(t.arg)]
  }

  function FlagNames(flags: set<Assumption>): seq<string> {
    var m := Members(flags, AssumptionOrder);
    seq(|m|, k requires 0 <= k < |m| => AssumptionName(m[k]))
  }

  function TypeFlagNames(typeFlags: set<TypeAssumption>): seq<string> {
    var m := Members(typeFlags, TypeOrder);
    seq(|m|, k requires 0 <= k < |m| => TypeAssumptionName(m[k]))
  }

  /** No name contains a separator of the printed form. */
  predicate Plain(s: string) {
    ';' !in s && ',' !in s && ':' !in s
  }

  /** The printed form of a context: flags, then `;` and the type flags when
      there are any, then the missing count when it is positive. */
  function Format(c: Ctx): string {
    Join(FlagNames(c.flags), ",")
      + (if c.typeFlags != {} then ";" else "")
      + Join(TypeFlagNames(c.typeFlags), ",")
      + MissingTail(c.missing)
  }

  lemma JoinPlain(xs: seq<string>)
    requires forall k :: 0 <= k < |xs| ==> Plain(xs[k])
    ensures ';' !in Join(xs, ",") && ':' !in Join(xs, ",")
    decreases |xs|
  {
    if |xs| > 1 {
      JoinPlain(xs[..|xs| - 1]);
    }
  }

  lemma AssumptionNamePlain(a: Assumption)
    ensures Plain(AssumptionName(a))
  {
    match a
    case NoExplicitlyMissingArgs =>
    case CorrectOrderOfArguments =>
    case StaticallyArgmatched =>
    case NotTooManyArguments =>
  }

  lemma TypeAssumptionNamePlain(t: TypeAssumption)
    ensures Plain(TypeAssumptionName(t))
  {
    var d := [Digit(t.arg)];
    assert Plain(d);
    match t.kind
    case Eager =>
    case NotObj =>
    case SimpleInt =>
    case SimpleReal =>
    case NonRefl =>
  }

  /** Different flags print differently. */
  lemma NamesDistinct(a: Assumption, b: Assumption, t: TypeAssumption, u: TypeAssumption)
    ensures AssumptionName(a) == AssumptionName(b) ==> a == b
    ensures TypeAssumptionName(t) == TypeAssumptionName(u) ==> t == u
  {
    if TypeAssumptionName(t) == TypeAssumptionName(u) {
      var n := TypeAssumptionName(t);
      assert n[|n| - 1] == Digit(t.arg) == Digit(u.arg);
      assert |KindName(t.kind)| == |n| - 1 == |KindName(u.kind)|;
    }
  }

  lemma FlagNamesPlain(c: Ctx)
    ensures forall k :: 0 <= k < |FlagNames(c.flags)| ==> Plain(FlagNames(c.flags)[k])
    ensures forall k :: 0 <= k < |TypeFlagNames(c.typeFlags)| ==> Plain(TypeFlagNames(c.typeFlags)[k])
  {
    var fs := FlagNames(c.flags);
    var ts := TypeFlagNames(c.typeFlags);
    forall k | 0 <= k < |fs| ensures Plain(fs[k]) {
      AssumptionNamePlain(Members(c.flags, AssumptionOrder)[k]);
    }
    forall k | 0 <= k < |ts| ensures Plain(ts[k]) {
      TypeAssumptionNamePlain(Members(c.typeFlags, TypeOrder)[k]);
    }
  }

  /** The tail `" miss: n"`, present only for a positive count. */
  function MissingTail(missing: nat): (r: string)
    ensures ';' !in r
    ensures ':' in r <==> missing > 0
  {
    if missing > 0 then
      var r := " miss: " + Decimal(missing);
      assert r[5] == ':';
      r
    else ""
  }

  /** The printed form holds a `;` exactly when there are type flags, and a
      `:` exactly when the missing count is positive. */
  lemma FormatSeparators(c: Ctx)
    ensures ';' in Format(c) <==> c.typeFlags != {}
    ensures ':' in Format(c) <==> c.missing > 0
  {
    var fs := FlagNames(c.flags);
    var ts := TypeFlagNames(c.typeFlags);
    FlagNamesPlain(c);
    JoinPlain(fs);
    JoinPlain(ts);
    if c.typeFlags != {} {
      var t :| t in c.typeFlags;
      InOrder(NoExplicitlyMissingArgs, t);
    }
    var f := Join(fs, ",") + (if c.typeFlags != {} then ";" else "") + Join(ts, ",");
    assert ';' in f <==> c.typeFlags != {};
    assert ':' !in f;
    assert Format(c) == f + MissingTail(c.missing);
  }

  function KindIndex(k: ArgKind): (i: nat)
    ensures i < |KindOrder| && KindOrder[i] == k
  {
    match k
    case Eager => 0
    case NotObj => 1
    case SimpleInt => 2
    case SimpleReal => 3
    case NonRefl => 4
  }

  // ---------------------------------------------------------------------
  // getShortStringRepr (Context.cpp:86-185)

  /** The table's rows and their letters: eager, non-reflective, not an
      object, simple integer, simple real. */
  const LetterKinds: seq<ArgKind> := [Eager, NonRefl, NotObj, SimpleInt, SimpleReal]
  const Letters: string := "EroIR"

  /** The letters of the first `n` rows that hold for argument `i`. */
  function GroupLetters(typeFlags: set<TypeAssumption>, i: ArgIndex, n: nat): string
    requires n <= |LetterKinds|
  {
    if n == 0 then ""
    else GroupLetters(typeFlags, i, n - 1)
         + (if TypeAssumption(LetterKinds[n - 1], i) in typeFlags then [Letters[n - 1]] else "")
  }

  /** `i:` and the letters, or nothing when no assumption holds for argument `i`. */
  function ArgGroup(typeFlags: set<TypeAssumption>, i: ArgIndex): string {
    var l := GroupLetters(typeFlags, i, |LetterKinds|);
    if l == "" then "" else [Digit(i)] + ":" + l + " "
  }

  /** The groups of the first `n` arguments. */
  function ArgGroups(typeFlags: set<TypeAssumption>, n: nat): string
    requires n <= NumTypedArgs
  {
    if n == 0 then "" else ArgGroups(typeFlags, n - 1) + ArgGroup(typeFlags, n - 1)
  }

  /** The words of the suffix: O, mi, ma, Stat, for the flags held. */
  function SuffixWords(flags: set<Assumption>): seq<string> {
    (if CorrectOrderOfArguments in flags then ["O"] else [])
      + (if NoExplicitlyMissingArgs in flags then ["mi"] else [])
      + (if NotTooManyArguments in flags then ["ma"] else [])
      + (if StaticallyArgmatched in flags then ["Stat"] else [])
  }

  function Suffix(flags: set<Assumption>): string {
    (if SuffixWords(flags) != [] then " " else "") + Join(SuffixWords(flags), "-")
  }

  function ShortRepr(c: Ctx): string {
    "<" + ArgGroups(c.typeFlags, NumTypedArgs) + "|" + Suffix(c.flags) + ">"
  }

  /** The letters decode back to exactly the rows that hold for the argument. */
  lemma {:induction false} GroupLettersDecode(typeFlags: set<TypeAssumption>, i: ArgIndex, n: nat, k: nat)
    requires n <= |LetterKinds| && k < |LetterKinds|
    ensures Letters[k] in GroupLetters(typeFlags, i, n) <==> k < n && TypeAssumption(LetterKinds[k], i) in typeFlags
    ensures '|' !in GroupLetters(typeFlags, i, n)
    decreases n
  {
    if n > 0 {
      GroupLettersDecode(typeFlags, i, n - 1, k);
    }
  }

  /** No letter is written exactly when none of the first `n` rows holds. */
  lemma {:induction false} GroupLettersEmpty(typeFlags: set<TypeAssumption>, i: ArgIndex, n: nat)
    requires n <= |LetterKinds|
    ensures GroupLetters(typeFlags, i, n) == "" <==>
      forall k :: 0 <= k < n ==> TypeAssumption(LetterKinds[k], i) !in typeFlags
    decreases n
  {
    if n > 0 {
      GroupLettersEmpty(typeFlags, i, n - 1);
    }
  }

  /**
   * A group appears for argument `i` exactly when some assumption holds for
   * it, and its letters name exactly those assumptions.
   */
  lemma ArgGroupContents(typeFlags: set<TypeAssumption>, i: ArgIndex)
    ensures ArgGroup(typeFlags, i) != "" <==>
      exists k :: 0 <= k < |LetterKinds| && TypeAssumption(LetterKinds[k], i) in typeFlags
    ensures ArgGroup(typeFlags, i) != "" ==>
      var g := ArgGroup(typeFlags, i);
      g[0] == Digit(i) && g[1] == ':' && g[|g| - 1] == ' '
      && forall k :: 0 <= k < |LetterKinds| ==>
           (Letters[k] in g[2..|g| - 1] <==> TypeAssumption(LetterKinds[k], i) in typeFlags)
  {
    var l := GroupLetters(typeFlags, i, |LetterKinds|);
    GroupLettersEmpty(typeFlags, i, |LetterKinds|);
    if l != "" {
      var g := ArgGroup(typeFlags, i);
      assert g[2..|g| - 1] == l;
      forall k | 0 <= k < |LetterKinds|
        ensures Letters[k] in l <==> TypeAssumption(LetterKinds[k], i) in typeFlags
      {
        GroupLettersDecode(typeFlags, i, |LetterKinds|, k);
      }
    }
  }

  lemma {:induction false} ArgGroupsPlain(typeFlags: set<TypeAssumption>, n: nat)
    requires n <= NumTypedArgs
    ensures '|' !in ArgGroups(typeFlags, n)
    decreases n
  {
    if n > 0 {
      var front := ArgGroups(typeFlags, n - 1);
      var last := ArgGroup(typeFlags, n - 1);
      ArgGroupsPlain(typeFlags, n - 1);
      ArgGroupPlain(typeFlags, n - 1);
      assert ArgGroups(typeFlags, n) == front + last;
    }
  }

  lemma ArgGroupPlain(typeFlags: set<TypeAssumption>, i: ArgIndex)
    ensures '|' !in ArgGroup(typeFlags, i)
  {
    var l := GroupLetters(typeFlags, i, |LetterKinds|);
    GroupLettersDecode(typeFlags, i, |LetterKinds|, 0);
    assert '|' !in [Digit(i)] + ":";
  }

  lemma {:induction false} JoinAvoids(xs: seq<string>, sep: string, x: char)
    requires x !in sep && forall k :: 0 <= k < |xs| ==> x !in xs[k]
    ensures x !in Join(xs, sep)
    decreases |xs|
  {
    if |xs| > 1 {
      JoinAvoids(xs[..|xs| - 1], sep, x);
    }
  }

  lemma SuffixPlain(flags: set<Assumption>)
    ensures '|' !in Suffix(flags)
  {
    JoinAvoids(SuffixWords(flags), "-", '|');
  }

  lemma SingleBar(groups: string, suffix: string)
    requires '|' !in groups && '|' !in suffix
    ensures var s := "<" + groups + "|" + suffix + ">";
      s[0] == '<' && s[|s| - 1] == '>' && multiset(s)['|'] == 1
  {
    var s := "<" + groups + "|" + suffix + ">";
    assert multiset(s) == multiset("<") + multiset(groups) + multiset("|") + multiset(suffix) + multiset(">");
  }

  /** The short form starts with `<`, ends with `>` and holds a single `|`. */
  lemma ShortReprShape(c: Ctx)
    ensures var s := ShortRepr(c);
      s[0] == '<' && s[|s| - 1] == '>' && multiset(s)['|'] == 1
  {
    var g := ArgGroups(c.typeFlags, NumTypedArgs);
    ArgGroupsPlain(c.typeFlags, NumTypedArgs);
    SuffixPlain(c.flags);
    SingleBar(g, Suffix(c.flags));
  }

  function SuffixCode(a: Assumption): string {
    match a
    case CorrectOrderOfArguments => "O"
    case NoExplicitlyMissingArgs => "mi"
    case NotTooManyArguments => "ma"
    case StaticallyArgmatched => "Stat"
  }

  /** The suffix is empty exactly when no flag is held; otherwise it is a
      space and the words joined by `-`, and the words are the codes of
      exactly the flags held. */
  lemma SuffixContents(flags: set<Assumption>, a: Assumption)
    ensures Suffix(flags) == "" <==> flags == {}
    ensures Suffix(flags) != "" ==> Suffix(flags) == " " + Join(SuffixWords(flags), "-")
    ensures SuffixCode(a) in SuffixWords(flags) <==> a in flags
  {
    var w := SuffixWords(flags);
    if flags != {} {
      var x :| x in flags;
      match x
      case CorrectOrderOfArguments =>
      case NoExplicitlyMissingArgs =>
      case NotTooManyArguments =>
      case StaticallyArgmatched =>
    }
    match a
    case CorrectOrderOfArguments =>
    case NoExplicitlyMissingArgs =>
    case NotTooManyArguments =>
    case StaticallyArgmatched =>
  }

  // ---------------------------------------------------------------------
  // setSpecializationLevel (Context.cpp:198-247)

  function EagerArgsFlags(): set<TypeAssumption> {
    set i: ArgIndex | 0 <= i < NumTypedArgs :: TypeAssumption(Eager, i)
  }

  function NonObjArgsFlags(): set<TypeAssumption> {
    set i: ArgIndex | 0 <= i < NumTypedArgs :: TypeAssumption(NotObj, i)
  }

  /** `c` holds at least the assumptions of `d` (and a missing count that
      `d` had or had reset to zero). */
  predicate Includes(c: Ctx, d: Ctx) {
    d.flags <= c.flags && d.typeFlags <= c.typeFlags && (d.missing == c.missing || d.missing == 0)
  }

  /** The context after `setSpecializationLevel(level)`; `minimal` is
      `pir::Compiler::minimalContext`. */
  function Specialized(c: Ctx, level: int, minimal: set<Assumption>): (r: Ctx)
    ensures Includes(c, r)
    ensures level == 0 ==> (r.typeFlags == {} && r.missing == 0
              && (forall a :: a in r.flags <==> a in c.flags && (a in minimal || a == StaticallyArgmatched)))
    ensures 0 <= level <= 4 ==> r.missing == 0
    ensures level == 5 ==> r.missing == c.missing
    ensures level < 0 || level >= 6 ==> r == c
    ensures level == 1 || level == 2 ==> forall t :: t in r.typeFlags <==> t in c.typeFlags && t.kind == Eager
    ensures level == 3 ==> forall t :: t in r.typeFlags <==> t in c.typeFlags && (t.kind == Eager || t.kind == NotObj)
    ensures level == 4 || level == 5 ==> r.typeFlags == c.typeFlags
    ensures 2 <= level <= 5 ==> forall a :: a in r.flags <==> a in c.flags && a != NoExplicitlyMissingArgs
  {
    var preserve := minimal + {StaticallyArgmatched};
    if level == 0 then Ctx(c.flags * preserve, {}, 0)
    else if level == 1 then Ctx(c.flags * preserve, c.typeFlags * EagerArgsFlags(), 0)
    else if level == 2 then Ctx(c.flags - {NoExplicitlyMissingArgs}, c.typeFlags * EagerArgsFlags(), 0)
    else if level == 3 then
      Ctx(c.flags - {NoExplicitlyMissingArgs}, c.typeFlags * (EagerArgsFlags() + NonObjArgsFlags()), 0)
    else if level == 4 then Ctx(c.flags - {NoExplicitlyMissingArgs}, c.typeFlags, 0)
    else if level == 5 then Ctx(c.flags - {NoExplicitlyMissingArgs}, c.typeFlags, c.missing)
    else c
  }

  /** Specializing twice at the same level is specializing once. */
  lemma SpecializeIdempotent(c: Ctx, level: int, minimal: set<Assumption>)
    ensures Specialized(Specialized(c, level, minimal), level, minimal) == Specialized(c, level, minimal)
  {
    var r := Specialized(c, level, minimal);
    var rr := Specialized(r, level, minimal);
    if 0 <= level <= 5 {
      assert rr.flags == r.flags;
      assert rr.typeFlags == r.typeFlags;
    }
  }

  /** A higher level keeps at least what a lower level keeps, provided the
      minimal context does not hold NoExplicitlyMissingArgs (levels from 2
      on drop it). */
  lemma SpecializationOrdered(c: Ctx, low: int, high: int, minimal: set<Assumption>)
    requires 0 <= low <= high
    requires NoExplicitlyMissingArgs !in minimal
    ensures Includes(Specialized(c, high, minimal), Specialized(c, low, minimal))
  {
    var l := Specialized(c, low, minimal);
    var h := Specialized(c, high, minimal);
    assert l.typeFlags <= h.typeFlags by {
      forall t | t in l.typeFlags ensures t in h.typeFlags {
      }
    }
    assert l.flags <= h.flags by {
      forall a | a in l.flags ensures a in h.flags {
      }
    }
  }

  // ---------------------------------------------------------------------
  // isImproving (Context.cpp:258-283)

  /** The assumptions of `c` that count: StaticallyArgmatched only with
      dots, NoExplicitlyMissingArgs only with default arguments, and no
      NotObj flags. */
  function Normalized(c: Ctx, hasDotsFormals: bool, hasDefaultArgs: bool): Ctx {
    Ctx(c.flags - (if hasDotsFormals then {} else {StaticallyArgmatched})
                - (if hasDefaultArgs then {} else {NoExplicitlyMissingArgs}),
        c.typeFlags - NonObjArgsFlags(),
        c.missing)
  }

  /** `isImproving(other, hasDotsFormals, hasDefaultArgs)`. */
  function Improving(c: Ctx, other: Ctx, hasDotsFormals: bool, hasDefaultArgs: bool): bool {
    if other == c then false
    else
      var n := Normalized(c, hasDotsFormals, hasDefaultArgs);
      if (hasDotsFormals || hasDefaultArgs) && n.missing != other.missing then true
      else !(n.flags + other.flags == other.flags && n.typeFlags + other.typeFlags == other.typeFlags)
  }

  /**
   * A context improves on `other` exactly when it differs from it and,
   * after normalization, either has a different missing count where that
   * matters (dots or default arguments) or holds an assumption `other`
   * lacks.
   */
  lemma ImprovingIff(c: Ctx, other: Ctx, hasDotsFormals: bool, hasDefaultArgs: bool)
    ensures var n := Normalized(c, hasDotsFormals, hasDefaultArgs);
      Improving(c, other, hasDotsFormals, hasDefaultArgs) <==>
        c != other
        && (((hasDotsFormals || hasDefaultArgs) && c.missing != other.missing)
            || (exists a :: a in n.flags && a !in other.flags)
            || (exists t :: t in n.typeFlags && t !in other.typeFlags))
  {
    var n := Normalized(c, hasDotsFormals, hasDefaultArgs);
    if !(n.flags + other.flags == other.flags) {
      var a :| a in n.flags + other.flags && a !in other.flags;
    }
    if !(n.typeFlags + other.typeFlags == other.typeFlags) {
      var t :| t in n.typeFlags + other.typeFlags && t !in other.typeFlags;
    }
  }

  /** Adding only NotObj flags, or StaticallyArgmatched without dots, to
      another context is never an improvement. */
  lemma OnlyIgnoredAssumptionsDoNotImprove(other: Ctx, extraFlags: set<Assumption>,
                                           extraTypes: set<TypeAssumption>, hasDefaultArgs: bool)
    requires extraFlags <= {StaticallyArgmatched} && extraTypes <= NonObjArgsFlags()
    ensures !Improving(Ctx(other.flags + extraFlags, other.typeFlags + extraTypes, other.missing),
                       other, false, hasDefaultArgs)
  {
    var c := Ctx(other.flags + extraFlags, other.typeFlags + extraTypes, other.missing);
    ImprovingIff(c, other, false, hasDefaultArgs);
  }

  // ---------------------------------------------------------------------
  // The class

  /** `Context`, whose fields `setSpecializationLevel` updates in place. */
  class Context {
    var flags: set<Assumption>
    var typeFlags: set<TypeAssumption>
    var missing: nat

    function Value(): Ctx
      reads this
    {
      Ctx(flags, typeFlags, missing)
    }

    constructor (v: Ctx)
      ensures Value() == v
    {
      flags := v.flags;
      typeFlags := v.typeFlags;
      missing := v.missing;
    }

    /** `setSpecializationLevel(level)` (Context.cpp:198-247). */
    method SetSpecializationLevel(level: int, minimal: set<Assumption>)
      modifies this
      ensures Value() == Specialized(old(Value()), level, minimal)
    {
      var preserve := minimal + {StaticallyArgmatched};
      if level == 0 {
        flags := flags * preserve;
        typeFlags := {};
        missing := 0;
      } else if level == 1 {
        flags := flags * preserve;
        typeFlags := typeFlags * EagerArgsFlags();
        missing := 0;
      } else if level == 2 {
        flags := flags - {NoExplicitlyMissingArgs};
        typeFlags := typeFlags * EagerArgsFlags();
        missing := 0;
      } else if level == 3 {
        flags := flags - {NoExplicitlyMissingArgs};
        typeFlags := typeFlags * (EagerArgsFlags() + NonObjArgsFlags());
        missing := 0;
      } else if level == 4 {
        flags := flags - {NoExplicitlyMissingArgs};
        missing := 0;
      } else if level == 5 {
        flags := flags - {NoExplicitlyMissingArgs};
      }
    }

    /** `operator<<` (Context.cpp:68-84). */
    method Print() returns (out: string)
      ensures out == Format(Value())
    {
      var v := Value();
      out := JoinStrings(FlagNames(v.flags), ",");
      if v.typeFlags != {} {
        out := out + ";";
      }
      var types := JoinStrings(TypeFlagNames(v.typeFlags), ",");
      out := out + types + MissingTail(v.missing);
    }

    /** `getShortStringRepr` (Context.cpp:86-185). */
    method ShortStringRepr() returns (s: string)
      ensures s == ShortRepr(Value())
    {
      var v := Value();
      var groups := ArgGroupsString(v.typeFlags);
      var suffix := SuffixString(v.flags);
      s := "<" + groups + "|" + suffix + ">";
    }

    /** `isImproving(other, hasDotsFormals, hasDefaultArgs)` (Context.cpp:258-283). */
    method IsImproving(other: Ctx, hasDotsFormals: bool, hasDefaultArgs: bool) returns (r: bool)
      ensures r == Improving(Value(), other, hasDotsFormals, hasDefaultArgs)
    {
      if other == Value() {
        return false;
      }
      var normalized := Value();
      if !hasDotsFormals {
        normalized := normalized.(flags := normalized.flags - {StaticallyArgmatched});
      }
      if !hasDefaultArgs {
        normalized := normalized.(flags := normalized.flags - {NoExplicitlyMissingArgs});
      }
      normalized := normalized.(typeFlags := normalized.typeFlags - NonObjArgsFlags());
      if hasDotsFormals || hasDefaultArgs {
        if normalized.missing != other.missing {
          return true;
        }
      } else {
        normalized := normalized.(missing := other.missing);
      }
      normalized := Ctx(normalized.flags + other.flags, normalized.typeFlags + other.typeFlags, normalized.missing);
      r := normalized != other;
    }
  }

  /** The loop that writes `xs`, each element followed by `sep` unless it is the last. */
  method JoinStrings(xs: seq<string>, sep: string) returns (s: string)
    ensures s == Join(xs, sep)
  {
    s := "";
    for k := 0 to |xs|
      invariant s == Join(xs[..k], sep) + (if 0 < k < |xs| then sep else "")
    {
      JoinStep(xs, sep, k);
      s := s + xs[k];
      if k + 1 != |xs| {
        s := s + sep;
      }
    }
    assert xs[..|xs|] == xs;
  }

  /** The argument groups of the short form: per argument, the letters of
      the assumptions it holds. */
  method ArgGroupsString(typeFlags: set<TypeAssumption>) returns (s: string)
    ensures s == ArgGroups(typeFlags, NumTypedArgs)
  {
    s := "";
    for iArg := 0 to NumTypedArgs
      invariant s == ArgGroups(typeFlags, iArg)
    {
      var argStr := "";
      for iAssum := 0 to |LetterKinds|
        invariant argStr == GroupLetters(typeFlags, iArg, iAssum)
      {
        if TypeAssumption(LetterKinds[iAssum], iArg) in typeFlags {
          argStr := argStr + [Letters[iAssum]];
        }
      }
      if argStr != "" {
        var group := [Digit(iArg)] + ":" + argStr + " ";
        s := s + group;
      }
    }
  }

  /** The suffix of the short form: the words of the flags held, after a
      space, joined by `-`. */
  method SuffixString(flags: set<Assumption>) returns (s: string)
    ensures s == Suffix(flags)
  {
    var words: seq<string> := [];
    if CorrectOrderOfArguments in flags {
      words := words + ["O"];
    }
    if NoExplicitlyMissingArgs in flags {
      words := words + ["mi"];
    }
    if NotTooManyArguments in flags {
      words := words + ["ma"];
    }
    if StaticallyArgmatched in flags {
      words := words + ["Stat"];
    }
    assert words == SuffixWords(flags);
    s := if words != [] then " " else "";
    var joined := JoinStrings(words, "-");
    s := s + joined;
  }

  /** One more element of a join written as "element, then separator unless last". */
  lemma JoinStep(xs: seq<string>, sep: string, k: nat)
    requires k < |xs|
    ensures Join(xs[..k], sep) + (if 0 < k then sep else "") + xs[k] == Join(xs[..k + 1], sep)
  {
    assert xs[..k + 1][..k] == xs[..k];
  }
}
