/**
 * The static reference-count analysis (refrence_count.h): per instruction,
 * how many times its value may be used, saturating at two; phis count as
 * their inputs.
 */
module ReferenceCount {
  import opened Ir

  /** `AUses::uses`: instruction -> use count. */
  type Uses = map<Value, nat>

  /** A use count never goes beyond this (`use < 2` guards the increment). */
  const Saturation: nat := 2

  predicate Saturated(u: Uses) {
    forall k :: k in u ==> u[k] <= Saturation
  }

  // ---------------------------------------------------------------------
  // merge (refrence_count.h:12-26)

  /** The state after `merge`: every key of either side, the larger count
      where both sides have one. */
  function MaxUnion(a: Uses, b: Uses): (r: Uses)
    ensures r.Keys == a.Keys + b.Keys
  {
    map k | k in a.Keys + b.Keys ::
      if k in b && (k !in a || a[k] < b[k]) then b[k] else a[k]
  }

  /** `merge` reports an update: some key of `b` is new or has a larger count. */
  predicate Raises(a: Uses, b: Uses) {
    exists k :: k in b && (k !in a || a[k] < b[k])
  }

  /** The merged count is the maximum of the two sides' counts, so no key is
      removed and no count decreases. */
  lemma MergeIsMaximum(a: Uses, b: Uses, k: Value)
    ensures var r := MaxUnion(a, b);
      && (k in r <==> k in a || k in b)
      && (k in a ==> a[k] <= r[k])
      && (k in b ==> b[k] <= r[k])
      && (k in r ==> (k in a && r[k] == a[k]) || (k in b && r[k] == b[k]))
  {
  }

  /** `merge` reports an update exactly when it changed the state. */
  lemma MergeReportsChange(a: Uses, b: Uses)
    ensures Raises(a, b) <==> MaxUnion(a, b) != a
  {
    if Raises(a, b) {
      var k :| k in b && (k !in a || a[k] < b[k]);
      assert k !in a || MaxUnion(a, b)[k] != a[k];
    } else {
      assert MaxUnion(a, b) == a;
    }
  }

  /** The merge is a join: commutative, idempotent, and keeps counts within
      the saturation bound. */
  lemma MergeIsJoin(a: Uses, b: Uses)
    ensures MaxUnion(a, b) == MaxUnion(b, a)
    ensures MaxUnion(a, a) == a
    ensures Saturated(a) && Saturated(b) ==> Saturated(MaxUnion(a, b))
  {
    assert MaxUnion(a, b) == MaxUnion(b, a);
    assert MaxUnion(a, a) == a;
  }

  /** Merging is associative, so the order in which branches join does not
      matter. */
  lemma MergeAssociative(a: Uses, b: Uses, d: Uses)
    ensures MaxUnion(MaxUnion(a, b), d) == MaxUnion(a, MaxUnion(b, d))
  {
    var l := MaxUnion(MaxUnion(a, b), d);
    var r := MaxUnion(a, MaxUnion(b, d));
    forall k | k in l ensures k in r && l[k] == r[k] {
      MergeIsMaximum(a, b, k);
      MergeIsMaximum(b, d, k);
      MergeIsMaximum(MaxUnion(a, b), d, k);
      MergeIsMaximum(a, MaxUnion(b, d), k);
    }
    assert l == r;
  }

  /** The merge once the keys of `b` in `todo` are the ones left to visit. */
  function MergeLeft(a: Uses, b: Uses, todo: set<Value>): Uses {
    map k | k in a.Keys + (b.Keys - todo) ::
      if k in b && k !in todo && (k !in a || a[k] < b[k]) then b[k] else a[k]
  }

  predicate RaisesLeft(a: Uses, b: Uses, todo: set<Value>) {
    exists k :: k in b && k !in todo && (k !in a || a[k] < b[k])
  }

  lemma MergeStep(a: Uses, b: Uses, todo: set<Value>, k: Value)
    requires todo <= b.Keys && k in todo
    ensures var m := MergeLeft(a, b, todo);
      && (k in m <==> k in a) && (k in m ==> m[k] == a[k])
      && MergeLeft(a, b, todo - {k}) ==
           (if k !in m || m[k] < b[k] then m[k := b[k]] else m)
      && (RaisesLeft(a, b, todo - {k}) <==> RaisesLeft(a, b, todo) || k !in m || m[k] < b[k])
  {
    var m := MergeLeft(a, b, todo);
    if k !in m || m[k] < b[k] {
      assert MergeLeft(a, b, todo - {k}) == m[k := b[k]];
    } else {
      assert MergeLeft(a, b, todo - {k}) == m;
    }
  }

  lemma MergeEnds(a: Uses, b: Uses)
    ensures MergeLeft(a, b, b.Keys) == a && !RaisesLeft(a, b, b.Keys)
    ensures MergeLeft(a, b, {}) == MaxUnion(a, b) && (RaisesLeft(a, b, {}) <==> Raises(a, b))
  {
    assert MergeLeft(a, b, b.Keys) == a;
    assert MergeLeft(a, b, {}) == MaxUnion(a, b);
  }

  // ---------------------------------------------------------------------
  // counting (refrence_count.h:49-85)

  /** Counts and whether anything was reported. */
  datatype Counted = Counted(uses: Uses, updated: bool) {
    function Report(): AbstractResult {
      if updated then Updated else NoChange
    }
  }

  /** The count of `a` after `count(a)`: one more, up to the bound; an
      absent entry is created. */
  function Bumped(u: Uses, a: Value): nat {
    if a !in u then 1 else if u[a] < Saturation then u[a] + 1 else u[a]
  }

  /** `count(a)` can still raise the count of `a`. */
  predicate Countable(u: Uses, a: Value) {
    a !in u || u[a] < Saturation
  }

  /** `count` applied to every member of `s`, each once. */
  function CountEach(u: Uses, s: set<Value>): (r: Uses)
    ensures r.Keys == u.Keys + s
  {
    map k | k in u.Keys + s :: if k in s then Bumped(u, k) else u[k]
  }

  predicate SomeCountable(u: Uses, s: set<Value>) {
    exists a :: a in s && Countable(u, a)
  }

  /** The operands of phi `j` that are instructions. */
  function InstrInputs(c: Code, j: Value): set<Value>
    requires IsInstr(c, j)
  {
    set v | v in c.instrs[j].args && IsInstr(c, v)
  }

  /** The `apply` lambda for one operand `v`: nothing unless `v` is an
      instruction needing a reference count; a phi with an alias entry counts
      its inputs instead of itself. */
  function Operand(c: Code, alias: map<Value, set<Value>>, u: Uses, v: Value): Counted {
    if !IsInstr(c, v) || !c.instrs[v].needsRefCount then Counted(u, false)
    else if v in alias then Counted(CountEach(u, alias[v]), SomeCountable(u, alias[v]))
    else Counted(u[v := Bumped(u, v)], Countable(u, v))
  }

  /** `eachArg(apply)` over `args`, in order. */
  function ArgsCounted(c: Code, alias: map<Value, set<Value>>, u: Uses, args: seq<Value>): Counted
    decreases |args|
  {
    if args == [] then Counted(u, false)
    else
      var r := ArgsCounted(c, alias, u, args[..|args| - 1]);
      var o := Operand(c, alias, r.uses, args[|args| - 1]);
      Counted(o.uses, r.updated || o.updated)
  }

  /** A count that is exactly one is reset before the operands are counted. */
  predicate Resets(c: Code, u: Uses, i: Value)
    requires IsInstr(c, i)
  {
    c.instrs[i].needsRefCount && i in u && u[i] == 1
  }

  /** `StaticReferenceCount::apply` (refrence_count.h:49-85). */
  function Applied(c: Code, alias: map<Value, set<Value>>, u: Uses, i: Value): Counted
    requires IsInstr(c, i)
  {
    if IsPhi(c, i) then Counted(u, false)
    else
      var reset := Resets(c, u, i);
      var r := ArgsCounted(c, alias, if reset then u[i := 0] else u, c.instrs[i].args);
      Counted(r.uses, reset || r.updated)
  }

  /** Counting one operand raises counts only, by at most one, up to the
      bound; it reports exactly when it changed something. */
  lemma OperandFacts(c: Code, alias: map<Value, set<Value>>, u: Uses, v: Value)
    ensures var r := Operand(c, alias, u, v);
      && u.Keys <= r.uses.Keys
      && (forall k :: k in u ==> u[k] <= r.uses[k] <= u[k] + 1)
      && (Saturated(u) ==> Saturated(r.uses))
      && (r.updated <==> r.uses != u)
  {
    var r := Operand(c, alias, u, v);
    if r.updated {
      if v in alias {
        var a :| a in alias[v] && Countable(u, a);
        assert a !in u || r.uses[a] != u[a];
      } else {
        assert v !in u || r.uses[v] != u[v];
      }
    } else if IsInstr(c, v) && c.instrs[v].needsRefCount {
      if v in alias {
        assert r.uses == u;
      }
    }
  }

  /** Counting the operands never lowers or removes a count, keeps counts
      saturated, and reports exactly when it changed the state. */
  lemma {:induction false} ArgsCountedFacts(c: Code, alias: map<Value, set<Value>>, u: Uses, args: seq<Value>)
    ensures var r := ArgsCounted(c, alias, u, args);
      && u.Keys <= r.uses.Keys
      && (forall k :: k in u ==> u[k] <= r.uses[k])
      && (Saturated(u) ==> Saturated(r.uses))
      && (r.updated <==> r.uses != u)
    decreases |args|
  {
    if args != [] {
      var front := args[..|args| - 1];
      var r := ArgsCounted(c, alias, u, front);
      ArgsCountedFacts(c, alias, u, front);
      OperandFacts(c, alias, r.uses, args[|args| - 1]);
      var o := Operand(c, alias, r.uses, args[|args| - 1]);
      if o.uses == u {
        assert r.uses == u by {
          forall k | k in u ensures r.uses[k] == u[k] {
            assert u[k] <= r.uses[k] <= o.uses[k];
          }
        }
      }
    }
  }

  /** Counting the operand `v` may raise the count of `k`. */
  predicate Raisable(c: Code, alias: map<Value, set<Value>>, v: Value, k: Value) {
    IsInstr(c, v) && c.instrs[v].needsRefCount && (if v in alias then k in alias[v] else k == v)
  }

  /** A count that no operand can raise is left exactly as it was. */
  lemma {:induction false} ArgsCountedUntouched(c: Code, alias: map<Value, set<Value>>, u: Uses,
                                                args: seq<Value>, k: Value)
    requires forall j :: 0 <= j < |args| ==> !Raisable(c, alias, args[j], k)
    ensures var r := ArgsCounted(c, alias, u, args).uses;
      (k in r <==> k in u) && (k in u ==> r[k] == u[k])
    decreases |args|
  {
    if args != [] {
      ArgsCountedUntouched(c, alias, u, args[..|args| - 1], k);
      assert !Raisable(c, alias, args[|args| - 1], k);
    }
  }

  /** The transfer rule keeps every count within the saturation bound. */
  lemma AppliedSaturated(c: Code, alias: map<Value, set<Value>>, u: Uses, i: Value)
    requires IsInstr(c, i) && Saturated(u)
    ensures Saturated(Applied(c, alias, u, i).uses)
  {
    if !IsPhi(c, i) {
      ArgsCountedFacts(c, alias, if Resets(c, u, i) then u[i := 0] else u, c.instrs[i].args);
    }
  }

  /**
   * The reset rule: a count of exactly one is set to zero before the
   * operands are counted, and stays zero unless an operand raises it; other
   * counts are kept; apart from that, the counts only grow. A phi leaves
   * the state unchanged.
   */
  lemma AppliedResets(c: Code, alias: map<Value, set<Value>>, u: Uses, i: Value)
    requires IsInstr(c, i)
    ensures var r := Applied(c, alias, u, i);
      && (IsPhi(c, i) ==> r.uses == u && !r.updated)
      && (!IsPhi(c, i) && Resets(c, u, i) ==> r.updated)
      && (!IsPhi(c, i) ==> u.Keys <= r.uses.Keys)
      && (forall k :: k in u && !(k == i && Resets(c, u, i)) ==> u[k] <= r.uses[k])
      && (!IsPhi(c, i) && !Resets(c, u, i) ==> (r.updated <==> r.uses != u))
    ensures !IsPhi(c, i) && Resets(c, u, i)
            && (forall j :: 0 <= j < |c.instrs[i].args| ==> !Raisable(c, alias, c.instrs[i].args[j], i)) ==>
      var r := Applied(c, alias, u, i);
      i in r.uses && r.uses[i] == 0
  {
    if !IsPhi(c, i) {
      var start := if Resets(c, u, i) then u[i := 0] else u;
      ArgsCountedFacts(c, alias, start, c.instrs[i].args);
      if Resets(c, u, i) && forall j :: 0 <= j < |c.instrs[i].args| ==> !Raisable(c, alias, c.instrs[i].args[j], i) {
        ArgsCountedUntouched(c, alias, start, c.instrs[i].args, i);
      }
    }
  }

  /** An operand not needing a reference count changes nothing; a phi with
      an alias entry raises each of its aliases, not itself. */
  lemma OperandTargets(c: Code, alias: map<Value, set<Value>>, u: Uses, v: Value)
    ensures !IsInstr(c, v) || !c.instrs[v].needsRefCount ==> Operand(c, alias, u, v) == Counted(u, false)
    ensures IsInstr(c, v) && c.instrs[v].needsRefCount && v in alias ==>
      var r := Operand(c, alias, u, v).uses;
      && (forall a :: a in alias[v] ==> a in r && r[a] == Bumped(u, a) && r[a] >= 1)
      && (v !in alias[v] ==> (v in r <==> v in u) && (v in u ==> r[v] == u[v]))
  {
  }

  // ---------------------------------------------------------------------
  // the alias map (refrence_count.h:34-44)

  /** Every operand in `args` that is an instruction, added to the aliases of `i`. */
  function PhiAlias(c: Code, m: map<Value, set<Value>>, i: Value, args: seq<Value>)
    : map<Value, set<Value>>
    decreases |args|
  {
    if args == [] then m
    else
      var r := PhiAlias(c, m, i, args[..|args| - 1]);
      var v := args[|args| - 1];
      if IsInstr(c, v) then r[i := (if i in r then r[i] else {}) + {v}] else r
  }

  /** The alias map after visiting the instructions in `order`. */
  function AliasOf(c: Code, order: seq<Value>): map<Value, set<Value>>
    decreases |order|
  {
    if order == [] then map[]
    else
      var m := AliasOf(c, order[..|order| - 1]);
      var i := order[|order| - 1];
      if IsPhi(c, i) then PhiAlias(c, m, i, c.instrs[i].args) else m
  }

  lemma {:induction false} PhiAliasFacts(c: Code, m: map<Value, set<Value>>, i: Value, args: seq<Value>)
    ensures var r := PhiAlias(c, m, i, args);
      var added := set v | v in args && IsInstr(c, v);
      && r.Keys == m.Keys + (if added == {} then {} else {i})
      && (forall k :: k in m && k != i ==> r[k] == m[k])
      && (i in r ==> r[i] == (if i in m then m[i] else {}) + added)
    decreases |args|
  {
    if args != [] {
      var front := args[..|args| - 1];
      PhiAliasFacts(c, m, i, front);
      assert args == front + [args[|args| - 1]];
      var added := set v | v in args && IsInstr(c, v);
      var added0 := set v | v in front && IsInstr(c, v);
      assert added == added0 + (if IsInstr(c, args[|args| - 1]) then {args[|args| - 1]} else {});
    }
  }

  /**
   * The alias map holds exactly the visited phis with at least one
   * instruction operand, each mapped to those operands; a phi all of whose
   * operands are not instructions gets no entry and is counted as itself.
   */
  lemma {:induction false} AliasContents(c: Code, order: seq<Value>, j: Value)
    ensures var m := AliasOf(c, order);
      && (j in m <==> j in order && IsPhi(c, j) && InstrInputs(c, j) != {})
      && (j in m ==> m[j] == InstrInputs(c, j))
    decreases |order|
  {
    if order != [] {
      var front := order[..|order| - 1];
      var i := order[|order| - 1];
      AliasContents(c, front, j);
      assert order == front + [i];
      if IsPhi(c, i) {
        PhiAliasFacts(c, AliasOf(c, front), i, c.instrs[i].args);
        assert (set v | v in c.instrs[i].args && IsInstr(c, v)) == InstrInputs(c, i);
      }
    }
  }

  // ---------------------------------------------------------------------
  // The classes

  /** `AUses`: the abstract state, updated in place by merges and the
      transfer rule. */
  class AUses {
    var uses: Uses

    constructor ()
      ensures uses == map[]
    {
      uses := map[];
    }

    /** `merge` (refrence_count.h:13-26). */
    method Merge(other: AUses) returns (res: AbstractResult)
      modifies this
      ensures uses == MaxUnion(old(uses), old(other.uses))
      ensures res == if Raises(old(uses), old(other.uses)) then Updated else NoChange
    {
      var a := uses;
      var b := other.uses;
      MergeEnds(a, b);
      res := NoChange;
      var todo := b.Keys;
      while todo != {}
        invariant todo <= b.Keys
        invariant uses == MergeLeft(a, b, todo)
        invariant res == if RaisesLeft(a, b, todo) then Updated else NoChange
        decreases |todo|
      {
        var k :| k in todo;
        MergeStep(a, b, todo, k);
        if k !in uses {
          uses := uses[k := b[k]];
          res := Updated;
        } else if uses[k] < b[k] {
          uses := uses[k := b[k]];
          res := Updated;
        }
        RemoveOne(todo, k);
        todo := todo - {k};
      }
    }

    /** `mergeExit` is the same as `merge` (refrence_count.h:12). */
    method MergeExit(other: AUses) returns (res: AbstractResult)
      modifies this
      ensures uses == MaxUnion(old(uses), old(other.uses))
      ensures res == if Raises(old(uses), old(other.uses)) then Updated else NoChange
    {
      res := Merge(other);
    }

    /** `count(a)`: one more use of `a`, up to the bound. */
    method Count(a: Value) returns (raised: bool)
      modifies this
      ensures uses == old(uses)[a := Bumped(old(uses), a)]
      ensures raised == Countable(old(uses), a)
    {
      var use := if a in uses then uses[a] else 0;
      raised := false;
      if use < Saturation {
        use := use + 1;
        raised := true;
      }
      uses := uses[a := use];
    }
  }

  /** The counts once the members of `s` in `todo` are left to count. */
  function CountLeft(u: Uses, s: set<Value>, todo: set<Value>): Uses {
    map k | k in u.Keys + (s - todo) :: if k in s && k !in todo then Bumped(u, k) else u[k]
  }

  predicate CountableLeft(u: Uses, s: set<Value>, todo: set<Value>) {
    exists a :: a in s && a !in todo && Countable(u, a)
  }

  lemma CountStep(u: Uses, s: set<Value>, todo: set<Value>, a: Value)
    requires todo <= s && a in todo
    ensures var m := CountLeft(u, s, todo);
      && (a in m <==> a in u) && (a in m ==> m[a] == u[a])
      && CountLeft(u, s, todo - {a}) == m[a := Bumped(m, a)]
      && (CountableLeft(u, s, todo - {a}) <==> CountableLeft(u, s, todo) || Countable(m, a))
  {
    var m := CountLeft(u, s, todo);
    assert CountLeft(u, s, todo - {a}) == m[a := Bumped(m, a)];
  }

  lemma CountEnds(u: Uses, s: set<Value>)
    ensures CountLeft(u, s, s) == u && !CountableLeft(u, s, s)
    ensures CountLeft(u, s, {}) == CountEach(u, s) && (CountableLeft(u, s, {}) <==> SomeCountable(u, s))
  {
    assert CountLeft(u, s, s) == u;
    assert CountLeft(u, s, {}) == CountEach(u, s);
  }

  /** `StaticReferenceCount`: the alias map of the code's phis and the
      transfer rule. */
  class StaticReferenceCount {
    const code: Code
    var alias: map<Value, set<Value>>

    /** Builds the alias map by visiting the instructions in `order`
        (refrence_count.h:34-44). */
    constructor (code: Code, order: seq<Value>)
      ensures this.code == code && alias == AliasOf(code, order)
    {
      this.code := code;
      new;
      alias := map[];
      for j := 0 to |order|
        invariant alias == AliasOf(code, order[..j])
      {
        assert order[..j + 1][..j] == order[..j];
        var i := order[j];
        if IsPhi(code, i) {
          var args := code.instrs[i].args;
          ghost var m0 := alias;
          for k := 0 to |args|
            invariant alias == PhiAlias(code, m0, i, args[..k])
          {
            assert args[..k + 1][..k] == args[..k];
            var v := args[k];
            if IsInstr(code, v) {
              alias := alias[i := (if i in alias then alias[i] else {}) + {v}];
            }
          }
          assert args[..|args|] == args;
        }
      }
      assert order[..|order|] == order;
    }

    /** The `apply` lambda for one operand. */
    method CountOperand(state: AUses, v: Value) returns (raised: bool)
      modifies state
      ensures state.uses == Operand(code, alias, old(state.uses), v).uses
      ensures raised == Operand(code, alias, old(state.uses), v).updated
    {
      raised := false;
      if !IsInstr(code, v) || !code.instrs[v].needsRefCount {
        return;
      }
      if v in alias {
        var s := alias[v];
        var u := state.uses;
        CountEnds(u, s);
        var todo := s;
        while todo != {}
          invariant todo <= s
          invariant state.uses == CountLeft(u, s, todo)
          invariant raised == CountableLeft(u, s, todo)
          decreases |todo|
        {
          var a :| a in todo;
          CountStep(u, s, todo, a);
          var r := state.Count(a);
          raised := raised || r;
          RemoveOne(todo, a);
          todo := todo - {a};
        }
      } else {
        raised := state.Count(v);
      }
    }

    /** `apply` (refrence_count.h:49-85). */
    method Apply(state: AUses, i: Value) returns (res: AbstractResult)
      requires IsInstr(code, i)
      modifies state
      ensures state.uses == Applied(code, alias, old(state.uses), i).uses
      ensures res == Applied(code, alias, old(state.uses), i).Report()
    {
      res := NoChange;
      if IsPhi(code, i) {
        return;
      }
      var reset := false;
      if code.instrs[i].needsRefCount {
        if i in state.uses && state.uses[i] == 1 {
          state.uses := state.uses[i := 0];
          reset := true;
          res := Updated;
        }
      }
      var u0 := state.uses;
      var args := code.instrs[i].args;
      for j := 0 to |args|
        invariant state.uses == ArgsCounted(code, alias, u0, args[..j]).uses
        invariant res == (if reset || ArgsCounted(code, alias, u0, args[..j]).updated then Updated else NoChange)
      {
        assert args[..j + 1][..j] == args[..j];
        var raised := CountOperand(state, args[j]);
        if raised {
          res := Updated;
        }
      }
      assert args[..|args|] == args;
    }
  }
}
