/** The product-merge constructor of a distribution: the group is the union
    of the operands' groups and the value of each combination is the product
    of the operands' values, each read at its own sub-combination. */
module Merge {
  import opened Wrappers
  import opened Combinations
  import opened Categoric
  import opened Tables

  /** Appends to `acc` the variables of `vs` whose name it does not hold yet;
      a same-named variable with another domain size is a conflict. */
  function Absorb(acc: seq<Variable>, vs: seq<Variable>): Result<seq<Variable>, DistrError>
    decreases |vs|
  {
    if vs == [] then Ok(acc)
    else
      var k := IndexOf(acc, vs[0].name);
      if k == |acc| then Absorb(acc + [vs[0]], vs[1..])
      else if acc[k].size == vs[0].size then Absorb(acc, vs[1..])
      else Err(SizeConflict)
  }

  /** The variables of all operands, operand after operand. */
  function AllVars(ts: seq<Table>): seq<Variable>
  {
    if ts == [] then [] else ts[0].vars + AllVars(ts[1..])
  }

  /** The union group: operands' variables in order of first appearance. */
  function UnionFrom(acc: seq<Variable>, ts: seq<Table>): Result<seq<Variable>, DistrError>
    decreases |ts|
  {
    if ts == [] then Ok(acc)
    else
      match Absorb(acc, ts[0].vars)
      case Err(e) => Err(e)
      case Ok(a) => UnionFrom(a, ts[1..])
  }

  lemma MembersConcat(a: seq<Variable>, b: seq<Variable>)
    ensures Members(a + b) == Members(a) + Members(b)
  {
    assert forall v :: v in a + b <==> v in a || v in b;
  }

  lemma UniqueMembers(vs: seq<Variable>)
    requires UniqueNames(vs)
    ensures UniqueNamesIn(Members(vs))
  {
  }

  /** Absorbing succeeds exactly when no two of the variables involved share a
      name with different sizes; the result then has unique names, keeps
      `acc` as its prefix and holds exactly the variables involved. */
  lemma {:induction false} AbsorbSpec(acc: seq<Variable>, vs: seq<Variable>)
    requires UniqueNames(acc)
    ensures Absorb(acc, vs).Ok? <==> UniqueNamesIn(Members(acc + vs))
    ensures Absorb(acc, vs).Ok? ==>
      var u := Absorb(acc, vs).value;
      UniqueNames(u) && |acc| <= |u| && u[..|acc|] == acc && Members(u) == Members(acc + vs)
    decreases |vs|
  {
    if vs == [] {
      assert acc + vs == acc;
      UniqueMembers(acc);
    } else {
      var v, rest := vs[0], vs[1..];
      var k := IndexOf(acc, v.name);
      MembersConcat(acc, vs);
      MembersConcat(acc, rest);
      assert Members(vs) == {v} + Members(rest) by { assert vs == [v] + rest; }
      if k == |acc| {
        var acc' := acc + [v];
        assert acc + vs == acc' + rest;
        forall i | 0 <= i < |acc| ensures acc'[i].name != v.name {
          assert acc[i] in acc;
        }
        AbsorbSpec(acc', rest);
        if Absorb(acc', rest).Ok? {
          var u := Absorb(acc', rest).value;
          assert u[..|acc|] == u[..|acc'|][..|acc|];
        }
      } else if acc[k].size == v.size {
        assert acc[k] == v;
        assert Members(acc + vs) == Members(acc + rest);
        AbsorbSpec(acc, rest);
      } else {
        assert acc[k] in Members(acc + vs) && v in Members(acc + vs);
      }
    }
  }

  /** The union succeeds exactly when the operands agree on the size of every
      shared variable; it then holds each operand's variables exactly once. */
  lemma {:induction false} UnionSpec(acc: seq<Variable>, ts: seq<Table>)
    requires UniqueNames(acc)
    ensures UnionFrom(acc, ts).Ok? <==> UniqueNamesIn(Members(acc + AllVars(ts)))
    ensures UnionFrom(acc, ts).Ok? ==>
      var u := UnionFrom(acc, ts).value;
      UniqueNames(u) && Members(u) == Members(acc + AllVars(ts))
    decreases |ts|
  {
    if ts == [] {
      assert acc + AllVars(ts) == acc;
      UniqueMembers(acc);
    } else {
      AbsorbSpec(acc, ts[0].vars);
      MembersConcat(acc, AllVars(ts));
      MembersConcat(ts[0].vars, AllVars(ts[1..]));
      MembersConcat(acc, ts[0].vars);
      if Absorb(acc, ts[0].vars).Ok? {
        var a := Absorb(acc, ts[0].vars).value;
        UnionSpec(a, ts[1..]);
        MembersConcat(a, AllVars(ts[1..]));
      }
    }
  }

  /** The product of the operands' values, each operand reading its own
      sub-combination of `c`. */
  function ProductAt(ts: seq<Table>, u: seq<Variable>, c: Combination): real
  {
    if ts == [] then 1.0 else Lookup(ts[0].values, Restrict(c, u, ts[0].vars)) * ProductAt(ts[1..], u, c)
  }

  /** The merged distribution. */
  function MergeTables(ts: seq<Table>): Result<Table, DistrError>
  {
    match UnionFrom([], ts)
    case Err(e) => Err(e)
    case Ok(u) => Ok(Table(u, map c | c in Enumerate(Sizes(u)) :: ProductAt(ts, u, c)))
  }

  lemma AllVarsMember(ts: seq<Table>, i: nat)
    requires i < |ts|
    ensures SubGroup(ts[i].vars, AllVars(ts))
  {
    if i > 0 {
      AllVarsMember(ts[1..], i - 1);
    }
  }

  /** The merge fails exactly when two operands hold a same-named variable
      with different domain sizes. */
  lemma MergeSucceeds(ts: seq<Table>)
    ensures MergeTables(ts).Ok? <==> UniqueNamesIn(Members(AllVars(ts)))
    ensures MergeTables(ts).Err? ==> MergeTables(ts).error == SizeConflict
  {
    UnionSpec([], ts);
    assert [] + AllVars(ts) == AllVars(ts);
    AbsorbErrors([], ts);
  }

  /** A successful merge is over the union group. */
  lemma MergeUnion(ts: seq<Table>, m: Table)
    requires MergeTables(ts) == Ok(m)
    ensures UnionFrom([], ts) == Ok(m.vars)
  {
  }

  /** The merged group holds every operand's variables exactly once and
      each operand's group is a sub-group of it. */
  lemma MergeGroup(ts: seq<Table>, m: Table)
    requires MergeTables(ts) == Ok(m)
    ensures UniqueNames(m.vars)
    ensures Members(m.vars) == Members(AllVars(ts))
    ensures forall i :: 0 <= i < |ts| ==> SubGroup(ts[i].vars, m.vars)
  {
    MergeUnion(ts, m);
    assert UniqueNames(m.vars) && Members(m.vars) == Members(AllVars(ts)) by {
      UnionSpec([], ts);
      assert [] + AllVars(ts) == AllVars(ts);
    }
    forall i | 0 <= i < |ts| ensures SubGroup(ts[i].vars, m.vars) {
      AllVarsMember(ts, i);
      forall v | v in ts[i].vars ensures v in m.vars {
        assert v in Members(AllVars(ts));
      }
    }
  }

  /** Every operand reads an in-bounds combination of its own group. */
  lemma MergeRestrictInBounds(ts: seq<Table>, m: Table, i: nat, c: Combination)
    requires MergeTables(ts) == Ok(m)
    requires i < |ts| && InBounds(c, Sizes(m.vars))
    ensures InBounds(Restrict(c, m.vars, ts[i].vars), Sizes(ts[i].vars))
  {
    MergeGroup(ts, m);
    RestrictPicks(c, m.vars, ts[i].vars);
  }

  /** The merged table has one entry per combination of the union and holds
      there the product of the operands' values. */
  lemma MergeValues(ts: seq<Table>, m: Table)
    requires MergeTables(ts) == Ok(m)
    ensures WellFormed(m)
    ensures |m.values| == JointSize(m.vars)
    ensures forall c :: InBounds(c, Sizes(m.vars)) ==> Lookup(m.values, c) == ProductAt(ts, m.vars, c)
  {
    MergeGroup(ts, m);
    EnumerateCount(Sizes(m.vars));
    assert m.values.Keys == Elements(Enumerate(Sizes(m.vars)));
    forall c | InBounds(c, Sizes(m.vars)) ensures Lookup(m.values, c) == ProductAt(ts, m.vars, c) {
      EnumerateMembers(Sizes(m.vars), c);
    }
  }

  lemma {:induction false} AbsorbErrors(acc: seq<Variable>, ts: seq<Table>)
    ensures UnionFrom(acc, ts).Err? ==> UnionFrom(acc, ts).error == SizeConflict
    decreases |ts|
  {
    if ts != [] {
      AbsorbOnlyConflicts(acc, ts[0].vars);
      if Absorb(acc, ts[0].vars).Ok? {
        AbsorbErrors(Absorb(acc, ts[0].vars).value, ts[1..]);
      }
    }
  }

  lemma {:induction false} AbsorbOnlyConflicts(acc: seq<Variable>, vs: seq<Variable>)
    ensures Absorb(acc, vs).Err? ==> Absorb(acc, vs).error == SizeConflict
    decreases |vs|
  {
    if vs != [] {
      AbsorbOnlyConflicts(acc + [vs[0]], vs[1..]);
      AbsorbOnlyConflicts(acc, vs[1..]);
    }
  }

  /** With two operands the product is the first value times the second. */
  lemma ProductAtPair(first: Table, second: Table, u: seq<Variable>, c: Combination)
    ensures ProductAt([first, second], u, c) ==
      Lookup(first.values, Restrict(c, u, first.vars)) * Lookup(second.values, Restrict(c, u, second.vars))
  {
    assert [first, second][1..] == [second];
    assert [second][1..] == [];
    var b := Lookup(second.values, Restrict(c, u, second.vars));
    assert ProductAt([second], u, c) == b * 1.0;
  }

  /** The merge of two distributions: at every combination of the union, the
      first operand's value at its sub-combination times the second's. */
  lemma MergePairValue(first: Table, second: Table, m: Table, c: Combination)
    requires MergeTables([first, second]) == Ok(m)
    requires InBounds(c, Sizes(m.vars))
    ensures Lookup(m.values, c) ==
      Lookup(first.values, Restrict(c, m.vars, first.vars)) *
      Lookup(second.values, Restrict(c, m.vars, second.vars))
  {
    assert Lookup(m.values, c) == ProductAt([first, second], m.vars, c) by {
      MergeValues([first, second], m);
    }
    ProductAtPair(first, second, m.vars, c);
  }

  // ---- the variadic constructor's packing ----

  /** `pack(first, second)` as written: it creates the vector and then calls
      `pack(packed, remaining...)`, which pushes `second` only; `first` is
      never pushed. */
  function PackAsWritten(first: Table, second: Table): seq<Table>
  {
    [second]
  }

  /** The intended packing: both operands, in argument order. */
  function Pack(first: Table, second: Table): seq<Table>
  {
    [first, second]
  }

  /** Merging operands that each hold one value over their whole domain gives
      the product of those values at every combination of the union. */
  lemma MergeUniformPair(first: Table, second: Table, x: real, y: real, m: Table, c: Combination)
    requires forall d :: InBounds(d, Sizes(first.vars)) ==> Lookup(first.values, d) == x
    requires forall d :: InBounds(d, Sizes(second.vars)) ==> Lookup(second.values, d) == y
    requires MergeTables([first, second]) == Ok(m)
    requires InBounds(c, Sizes(m.vars))
    ensures Lookup(m.values, c) == x * y
  {
    MergeRestrictInBounds([first, second], m, 0, c);
    MergeRestrictInBounds([first, second], m, 1, c);
    MergePairValue(first, second, m, c);
  }

  // The scenario of the merge test: A, B, C with two values each, a table
  // over <A, C> holding 2 everywhere and one over <B, C> holding 0.5.

  const VarA := Variable("A", 2)
  const VarB := Variable("B", 2)
  const VarC := Variable("C", 2)

  function TableAC(): Table { Table([VarA, VarC], Uniform([VarA, VarC], 2.0)) }
  function TableBC(): Table { Table([VarB, VarC], Uniform([VarB, VarC], 0.5)) }

  lemma ScenarioNames()
    ensures VarA.name != VarB.name && VarA.name != VarC.name && VarB.name != VarC.name
  {
    assert VarA.name[0] == 'A' && VarB.name[0] == 'B' && VarC.name[0] == 'C';
  }

  lemma AllVarsOne(a: Table)
    ensures AllVars([a]) == a.vars
  {
    assert AllVars([a][1..]) == [];
  }

  lemma AllVarsTwo(a: Table, b: Table)
    ensures AllVars([a, b]) == a.vars + b.vars
  {
    assert [a, b][1..] == [b];
    AllVarsOne(b);
  }

  /** The operands of the test hold the variables A, C and B, C. */
  lemma ScenarioVars()
    ensures AllVars(Pack(TableAC(), TableBC())) == [VarA, VarC, VarB, VarC]
    ensures AllVars(PackAsWritten(TableAC(), TableBC())) == [VarB, VarC]
  {
    AllVarsTwo(TableAC(), TableBC());
    AllVarsOne(TableBC());
  }

  /** Three variables of two values each: 2 * 2 * 2 = 8 combinations. */
  lemma ProductOfTwos()
    ensures Product([2, 2]) == 4 && Product([2, 2, 2]) == 8
  {
    assert [2, 2, 2][1..] == [2, 2] && [2, 2][1..] == [2] && [2][1..] == [];
  }

  /** A merge over the members A, B, C (two values each) has 3 variables and
      2 * 2 * 2 = 8 combinations. */
  lemma ScenarioShape(ts: seq<Table>, m: Table)
    requires MergeTables(ts) == Ok(m)
    requires Members(AllVars(ts)) == {VarA, VarB, VarC}
    ensures |m.vars| == 3 && Members(m.vars) == {VarA, VarB, VarC} && JointSize(m.vars) == 8
  {
    MergeGroup(ts, m);
    UniqueNamesCount(m.vars);
    ScenarioNames();
    var abc := [VarA, VarB, VarC];
    assert Members(abc) == {VarA, VarB, VarC};
    SameMembersSameJointSize(m.vars, abc);
    assert Sizes(abc) == [2, 2, 2];
    ProductOfTwos();
  }

  /** With the intended packing the merge has the 3 variables A, B, C, a joint
      domain of 2 * 2 * 2 = 8 combinations, and 2 * 0.5 = 1 at each of them. */
  lemma MergeScenario(m: Table)
    requires MergeTables(Pack(TableAC(), TableBC())) == Ok(m)
    ensures |m.vars| == 3
    ensures Members(m.vars) == {VarA, VarB, VarC}
    ensures JointSize(m.vars) == 8 && |m.values| == 8
    ensures forall c :: InBounds(c, Sizes(m.vars)) ==> Lookup(m.values, c) == 1.0
  {
    var ts := Pack(TableAC(), TableBC());
    ScenarioVars();
    assert Members([VarA, VarC, VarB, VarC]) == {VarA, VarB, VarC};
    ScenarioShape(ts, m);
    MergeValues(ts, m);
    forall d | InBounds(d, Sizes(TableAC().vars)) ensures Lookup(TableAC().values, d) == 2.0 {
      UniformAt(TableAC().vars, 2.0, d);
    }
    forall d | InBounds(d, Sizes(TableBC().vars)) ensures Lookup(TableBC().values, d) == 0.5 {
      UniformAt(TableBC().vars, 0.5, d);
    }
    forall c | InBounds(c, Sizes(m.vars)) ensures Lookup(m.values, c) == 1.0 {
      MergeUniformPair(TableAC(), TableBC(), 2.0, 0.5, m, c);
    }
  }

  /** The intended packing of the test's operands merges without conflict. */
  lemma MergeScenarioSucceeds()
    ensures MergeTables(Pack(TableAC(), TableBC())).Ok?
  {
    var ts := Pack(TableAC(), TableBC());
    ScenarioVars();
    ScenarioNames();
    assert Members(AllVars(ts)) == {VarA, VarB, VarC};
    MergeSucceeds(ts);
  }

  /** With the packing as written the merge is over <B, C> only. */
  lemma AsWrittenShape(m: Table)
    requires MergeTables(PackAsWritten(TableAC(), TableBC())) == Ok(m)
    ensures |m.vars| == 2 && Members(m.vars) == {VarB, VarC} && VarA !in m.vars && JointSize(m.vars) == 4
  {
    var ts := PackAsWritten(TableAC(), TableBC());
    ScenarioVars();
    ScenarioNames();
    assert Members(AllVars(ts)) == {VarB, VarC};
    MergeGroup(ts, m);
    UniqueNamesCount(m.vars);
    var bc := [VarB, VarC];
    SameMembersSameJointSize(m.vars, bc);
    assert Sizes(bc) == [2, 2];
    ProductOfTwos();
    assert VarA !in Members(m.vars);
  }

  /** With the packing as written the first operand is lost: the merge is
      over <B, C> only, 2 variables and 4 combinations instead of 3 and 8. */
  lemma MergeScenarioAsWritten()
    ensures MergeTables(PackAsWritten(TableAC(), TableBC())).Ok?
    ensures var m := MergeTables(PackAsWritten(TableAC(), TableBC())).value;
      && |m.vars| == 2
      && Members(m.vars) == {VarB, VarC}
      && VarA !in m.vars
      && JointSize(m.vars) == 4
  {
    var ts := PackAsWritten(TableAC(), TableBC());
    ScenarioVars();
    ScenarioNames();
    assert Members(AllVars(ts)) == {VarB, VarC};
    MergeSucceeds(ts);
    AsWrittenShape(MergeTables(ts).value);
  }
}
