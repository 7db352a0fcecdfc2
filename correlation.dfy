/** The two factors built with the simple correlation tags: over a group, the
    correlating factor is 1 exactly at the combinations whose indices are all
    equal, the anti-correlating one exactly at the others. Only the non-zero
    entries are stored; every other combination is found as 0. */
module Correlation {
  import opened Combinations
  import opened Categoric
  import opened Tables

  /** Every index of the combination equals the first one. */
  predicate AllEqual(c: Combination)
  {
    forall i :: 0 <= i < |c| ==> c[i] == c[0]
  }

  /** The factor of the simple correlation tag: it stores 1 exactly at the
      combinations of the joint domain whose indices are all equal. */
  function SimpleCorrelation(vars: seq<Variable>): (r: Table)
    ensures r.vars == vars
    ensures forall c :: c in r.values <==> InBounds(c, Sizes(vars)) && AllEqual(c)
    ensures forall c :: c in r.values ==> r.values[c] == 1.0
  {
    EnumerateCount(Sizes(vars));
    Table(vars, map c | c in Enumerate(Sizes(vars)) && AllEqual(c) :: 1.0)
  }

  /** The factor of the simple anti-correlation tag: it stores 1 exactly at
      the combinations of the joint domain whose indices are not all equal. */
  function SimpleAntiCorrelation(vars: seq<Variable>): (r: Table)
    ensures r.vars == vars
    ensures forall c :: c in r.values <==> InBounds(c, Sizes(vars)) && !AllEqual(c)
    ensures forall c :: c in r.values ==> r.values[c] == 1.0
  {
    EnumerateCount(Sizes(vars));
    Table(vars, map c | c in Enumerate(Sizes(vars)) && !AllEqual(c) :: 1.0)
  }

  /** At every combination of the joint domain the correlating factor is 1
      when all indices are equal and 0 otherwise, and the anti-correlating
      factor is its complement. */
  lemma CorrelationValues(vars: seq<Variable>, c: Combination)
    requires InBounds(c, Sizes(vars))
    ensures Lookup(SimpleCorrelation(vars).values, c) == if AllEqual(c) then 1.0 else 0.0
    ensures Lookup(SimpleAntiCorrelation(vars).values, c) == if AllEqual(c) then 0.0 else 1.0
    ensures Lookup(SimpleCorrelation(vars).values, c) + Lookup(SimpleAntiCorrelation(vars).values, c) == 1.0
  {
    EnumerateMembers(Sizes(vars), c);
  }

  /** Both factors are well-formed tables over a group with unique names. */
  lemma CorrelationWellFormed(vars: seq<Variable>)
    requires UniqueNames(vars)
    ensures WellFormed(SimpleCorrelation(vars)) && WellFormed(SimpleAntiCorrelation(vars))
  {
    forall c | c in SimpleCorrelation(vars).values || c in SimpleAntiCorrelation(vars).values
      ensures InBounds(c, Sizes(vars))
    {
      EnumerateMembers(Sizes(vars), c);
    }
  }

  /** Two disjoint sets that make up a third have its size together. */
  lemma DisjointUnionCount(whole: set<Combination>, a: set<Combination>, b: set<Combination>)
    requires a !! b && a + b == whole
    ensures |a| + |b| == |whole|
  {
    assert a * b == {};
  }

  /** Splitting a set of combinations by whether their indices are all
      equal: the two parts are disjoint and their sizes add up to its size. */
  lemma SplitCount(dom: set<Combination>, on: set<Combination>, off: set<Combination>)
    requires forall c :: c in on <==> c in dom && AllEqual(c)
    requires forall c :: c in off <==> c in dom && !AllEqual(c)
    ensures on !! off && |on| + |off| == |dom|
  {
    assert on + off == dom;
    DisjointUnionCount(dom, on, off);
  }

  /** The two factors store disjoint sets of combinations that together make
      up the joint domain, so their entries add up to its size. */
  lemma CorrelationPartition(vars: seq<Variable>)
    ensures SimpleCorrelation(vars).values.Keys !! SimpleAntiCorrelation(vars).values.Keys
    ensures |SimpleCorrelation(vars).values| + |SimpleAntiCorrelation(vars).values| == JointSize(vars)
  {
    EnumerateCount(Sizes(vars));
    SplitCount(Elements(Enumerate(Sizes(vars))), SimpleCorrelation(vars).values.Keys,
               SimpleAntiCorrelation(vars).values.Keys);
  }
}
