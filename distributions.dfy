/** `Distribution` of `Lib/EFG/Header/distribution/Distribution.h`: a group
    of variables and a sparse map from combinations of that group to values.
    The table is updated in place by `clear`, `add` and
    `emplaceEntireDomain`; `find`, `marginalize` and the merge constructors
    leave their operands untouched. */
module Distributions {
  import opened Wrappers
  import opened Combinations
  import opened Categoric
  import opened Tables
  import Merge
  import Conditioning

  /** The pair returned by `find(comb, group)`: no entry, or the stored
      combination and its value. */
  datatype FindResult = NotFound | Found(comb: Combination, value: real)

  class Distribution {
    var variables: seq<Variable>
    var values: map<Combination, real>

    /** The group has unique names and every stored combination lies in its
        joint domain. */
    ghost predicate Valid()
      reads this
    {
      WellFormed(AsTable())
    }

    function AsTable(): Table
      reads this
    {
      Table(variables, values)
    }

    /** A distribution over a group, with no entry yet. */
    constructor(vs: seq<Variable>)
      requires UniqueNames(vs)
      ensures Valid() && variables == vs && values == map[]
    {
      variables := vs;
      values := map[];
    }

    /** The copy constructor. */
    constructor Copy(o: Distribution)
      requires o.Valid()
      ensures Valid() && variables == o.variables && values == o.values
    {
      variables := o.variables;
      values := o.values;
    }

    /** `find(comb)`: the stored value, 0 when the combination has no entry,
        in particular for every combination outside the joint domain. */
    function Find(c: Combination): (r: real)
      reads this
      ensures c in values ==> r == values[c]
      ensures c !in values ==> r == 0.0
      ensures Valid() && !InBounds(c, Sizes(variables)) ==> r == 0.0
    {
      Lookup(values, c)
    }

    /** Empties the table: afterwards every combination is found as 0. */
    method Clear()
      requires Valid()
      modifies this
      ensures Valid() && variables == old(variables) && values == map[]
      ensures forall c :: Find(c) == 0.0
    {
      values := map[];
    }

    /** Sets the value of one combination of the joint domain; every other
        combination keeps its value. */
    method Add(c: Combination, x: real)
      requires Valid() && InBounds(c, Sizes(variables))
      modifies this
      ensures Valid() && variables == old(variables)
      ensures values == old(values)[c := x]
      ensures Find(c) == x
      ensures forall d :: d != c ==> Find(d) == old(Find(d))
    {
      values := values[c := x];
      LookupAfterAssign(old(values), c, x);
    }

    /** Assigns `x` to every combination of the joint domain, visiting them in
        lexicographic order; the table then holds exactly one entry per
        combination. */
    method EmplaceEntireDomain(x: real)
      requires Valid()
      modifies this
      ensures Valid() && variables == old(variables)
      ensures values == Uniform(variables, x)
      ensures forall c :: InBounds(c, Sizes(variables)) ==> Find(c) == x
      ensures |values| == JointSize(variables)
    {
      var all := Enumerate(Sizes(variables));
      var k := 0;
      while k < |all|
        invariant 0 <= k <= |all|
        invariant Valid() && variables == old(variables)
        invariant forall c :: c in values <==> c in old(values) || c in all[..k]
        invariant forall c :: c in all[..k] ==> values[c] == x
        invariant forall c :: c in values && c !in all[..k] ==> values[c] == old(values)[c]
      {
        EnumerateMembers(Sizes(variables), all[k]);
        assert all[..k + 1] == all[..k] + [all[k]];
        values := values[all[k] := x];
        k := k + 1;
      }
      assert all[..k] == all;
      forall c | c in values ensures c in all {
        EnumerateMembers(Sizes(variables), c);
      }
      assert values == Uniform(variables, x);
      UniformSpec(variables, x);
    }

    /** `find(comb, group)`: `comb` is a combination of a bigger group that
        contains this one; the value is looked up at its restriction to this
        group, which reads, for every variable here, the index `comb` gives to
        that variable. */
    function FindIn(c: Combination, big: seq<Variable>): (r: FindResult)
      reads this
      requires UniqueNames(big) && SubGroup(variables, big) && |c| == |big|
      ensures r.Found? <==> Restrict(c, big, variables) in values
      ensures r.Found? ==> r.comb in values && r.value == values[r.comb]
      ensures r.Found? ==> (|r.comb| == |variables| &&
        forall i, j :: 0 <= i < |variables| && 0 <= j < |big| && big[j] == variables[i] ==> r.comb[i] == c[j])
      ensures r.NotFound? ==> Find(Restrict(c, big, variables)) == 0.0
    {
      RestrictPicks(c, big, variables);
      var sub := Restrict(c, big, variables);
      if sub in values then Found(sub, values[sub]) else NotFound
    }

    /** Searching with this distribution's own group is a plain `find`. */
    lemma FindInOwnGroup(c: Combination)
      requires Valid() && |c| == |variables|
      ensures FindIn(c, variables) == if c in values then Found(c, values[c]) else NotFound
    {
      RestrictToSelf(c, variables);
    }

    /** `marginalize(comb, evidences)`: a new distribution over the
        non-evidence variables, conditioned on the evidence values. It is
        created over its group and then filled with the conditioned table. */
    method Marginalize(comb: Combination, evidences: seq<Variable>) returns (r: Result<Distribution, DistrError>)
      requires Valid() && UniqueNames(evidences)
      ensures var m := Conditioning.Marginalize(AsTable(), comb, evidences);
        (r.Err? <==> m.Err?) && (r.Err? ==> r.error == m.error) &&
        (r.Ok? ==> fresh(r.value) && r.value.Valid() && r.value.AsTable() == m.value)
    {
      var m := Conditioning.Marginalize(AsTable(), comb, evidences);
      if m.Err? {
        return Err(m.error);
      }
      Conditioning.MarginalizeGroup(AsTable(), comb, evidences, m.value);
      var d := new Distribution(m.value.vars);
      d.values := m.value.values;
      return Ok(d);
    }

    /** The constructor from a vector of distributions: the product merge.
        The result is created over the merged group and then filled. */
    static method MergeOf(ds: seq<Distribution>) returns (r: Result<Distribution, DistrError>)
      ensures var m := Merge.MergeTables(TablesOf(ds));
        (r.Err? <==> m.Err?) && (r.Err? ==> r.error == SizeConflict) &&
        (r.Ok? ==> fresh(r.value) && r.value.Valid() && r.value.AsTable() == m.value)
    {
      var m := Merge.MergeTables(TablesOf(ds));
      Merge.MergeSucceeds(TablesOf(ds));
      if m.Err? {
        return Err(m.error);
      }
      Merge.MergeValues(TablesOf(ds), m.value);
      var d := new Distribution(m.value.vars);
      d.values := m.value.values;
      return Ok(d);
    }

    /** The constructor from two distributions as intended: both operands are
        packed, in argument order, and merged. */
    static method MergePair(first: Distribution, second: Distribution) returns (r: Result<Distribution, DistrError>)
      ensures var m := Merge.MergeTables(Merge.Pack(first.AsTable(), second.AsTable()));
        (r.Err? <==> m.Err?) && (r.Err? ==> r.error == SizeConflict) &&
        (r.Ok? ==> fresh(r.value) && r.value.Valid() && r.value.AsTable() == m.value)
    {
      assert TablesOf([first, second]) == Merge.Pack(first.AsTable(), second.AsTable());
      r := MergeOf([first, second]);
    }

    /** The constructor from two distributions as written: its `pack` pushes
        only `second`, so the result is the merge of `second` alone. */
    static method MergePairAsWritten(first: Distribution, second: Distribution)
      returns (r: Result<Distribution, DistrError>)
      ensures var m := Merge.MergeTables(Merge.PackAsWritten(first.AsTable(), second.AsTable()));
        (r.Err? <==> m.Err?) && (r.Err? ==> r.error == SizeConflict) &&
        (r.Ok? ==> fresh(r.value) && r.value.Valid() && r.value.AsTable() == m.value)
    {
      assert TablesOf([second]) == Merge.PackAsWritten(first.AsTable(), second.AsTable());
      r := MergeOf([second]);
    }
  }

  /** The tables of the operands, in order. */
  function TablesOf(ds: seq<Distribution>): (ts: seq<Table>)
    reads set d | d in ds
    ensures |ts| == |ds| && forall i :: 0 <= i < |ds| ==> ts[i] == ds[i].AsTable()
  {
    if ds == [] then [] else [ds[0].AsTable()] + TablesOf(ds[1..])
  }

  /** The merge scenario of the factor-construction test, run through the
      class: two distributions over {A, C} and {B, C} filled with 2 and 0.5
      over their whole domain, merged by the two-operand constructor, give a
      distribution over {A, B, C} of joint size 8 that is 1 everywhere. */
  method MergeTestScenario() returns (r: Result<Distribution, DistrError>)
    ensures r.Ok?
    ensures |r.value.variables| == 3 && Members(r.value.variables) == {Merge.VarA, Merge.VarB, Merge.VarC}
    ensures JointSize(r.value.variables) == 8
    ensures forall c :: InBounds(c, Sizes(r.value.variables)) ==> r.value.Find(c) == 1.0
  {
    Merge.ScenarioNames();
    var ac := new Distribution([Merge.VarA, Merge.VarC]);
    ac.EmplaceEntireDomain(2.0);
    var bc := new Distribution([Merge.VarB, Merge.VarC]);
    bc.EmplaceEntireDomain(0.5);
    assert ac.AsTable() == Merge.TableAC();
    assert bc.AsTable() == Merge.TableBC();
    Merge.MergeScenarioSucceeds();
    r := Distribution.MergePair(ac, bc);
    Merge.MergeScenario(r.value.AsTable());
  }

  /** The same scenario through the two-operand constructor as written: the
      first operand is lost, so the result is over B and C only, with 4
      combinations instead of 8. */
  method MergeTestScenarioAsWritten() returns (r: Result<Distribution, DistrError>)
    ensures r.Ok?
    ensures |r.value.variables| == 2 && Members(r.value.variables) == {Merge.VarB, Merge.VarC}
    ensures Merge.VarA !in r.value.variables
    ensures JointSize(r.value.variables) == 4
  {
    Merge.ScenarioNames();
    var ac := new Distribution([Merge.VarA, Merge.VarC]);
    ac.EmplaceEntireDomain(2.0);
    var bc := new Distribution([Merge.VarB, Merge.VarC]);
    bc.EmplaceEntireDomain(0.5);
    assert ac.AsTable() == Merge.TableAC();
    assert bc.AsTable() == Merge.TableBC();
    Merge.MergeScenarioAsWritten();
    r := Distribution.MergePairAsWritten(ac, bc);
    Merge.AsWrittenShape(r.value.AsTable());
  }
}
