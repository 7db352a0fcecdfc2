/** The value side of `Lib/EFG/Header/distribution/Distribution.h`: a group
    of variables with a sparse table from combinations to values, and the
    operations that build new tables (product merge, conditioning on
    evidence, the simple correlation factors). */
module Tables {
  import opened Wrappers
  import opened Combinations
  import opened Categoric

  datatype DistrError =
    | SizeConflict        // two operands hold a same-named variable with different domain sizes
    | EvidenceArity       // the evidence combination does not match the evidence group
    | UnknownEvidence     // an evidence variable is not in the distribution's group
    | EvidenceOutOfRange  // an evidence index is beyond its variable's domain

  /** A distribution seen as a value: its group (in the order combinations
      index it) and its table. */
  datatype Table = Table(vars: seq<Variable>, values: map<Combination, real>)

  /** A table over a group with unique names whose keys are in-bounds
      combinations of that group. */
  predicate WellFormed(t: Table)
  {
    UniqueNames(t.vars) && forall c :: c in t.values ==> InBounds(c, Sizes(t.vars))
  }

  /** `find`: the stored value, 0 when the combination has no entry. */
  function Lookup(values: map<Combination, real>, c: Combination): real
  {
    if c in values then values[c] else 0.0
  }

  /** After assigning `x` to `c`, `c` is found with `x` and every other
      combination keeps its value. */
  lemma LookupAfterAssign(values: map<Combination, real>, c: Combination, x: real)
    ensures Lookup(values[c := x], c) == x
    ensures forall d :: d != c ==> Lookup(values[c := x], d) == Lookup(values, d)
  {
  }

  /** Every member of `small` is a member of `big`. */
  predicate SubGroup(small: seq<Variable>, big: seq<Variable>)
  {
    forall v :: v in small ==> v in big
  }

  /** Every combination of the group's joint domain mapped to `x`. */
  function Uniform(vars: seq<Variable>, x: real): map<Combination, real>
  {
    map c | c in Enumerate(Sizes(vars)) :: x
  }

  /** A uniform table holds `x` at every in-bounds combination, nothing
      elsewhere, and has exactly one entry per combination of the joint
      domain. */
  lemma UniformSpec(vars: seq<Variable>, x: real)
    ensures forall c :: InBounds(c, Sizes(vars)) ==> Lookup(Uniform(vars, x), c) == x
    ensures forall c :: c in Uniform(vars, x) ==> InBounds(c, Sizes(vars))
    ensures |Uniform(vars, x)| == JointSize(vars)
  {
    EnumerateCount(Sizes(vars));
    assert Uniform(vars, x).Keys == Elements(Enumerate(Sizes(vars)));
  }

  /** A uniform table holds its value at every combination of the domain. */
  lemma UniformAt(vars: seq<Variable>, x: real, c: Combination)
    requires InBounds(c, Sizes(vars))
    ensures Lookup(Uniform(vars, x), c) == x
  {
    EnumerateMembers(Sizes(vars), c);
  }

  // ---- restriction of a combination to a sub-group ----

  /** The sub-combination of `c` (a combination over `big`) for the variables
      of `small`: each index is read at the position of the same name in
      `big`. */
  function Restrict(c: Combination, big: seq<Variable>, small: seq<Variable>): Combination
  {
    seq(|small|, i requires 0 <= i < |small| =>
      var k := IndexOf(big, small[i].name); if k < |c| then c[k] else 0)
  }

  /** The restriction reads, for every variable of `small`, the index that
      `c` gives to that same variable; so it is in bounds for `small`. */
  lemma RestrictPicks(c: Combination, big: seq<Variable>, small: seq<Variable>)
    requires UniqueNames(big) && SubGroup(small, big) && |c| == |big|
    ensures |Restrict(c, big, small)| == |small|
    ensures forall i, j :: 0 <= i < |small| && 0 <= j < |big| && big[j] == small[i] ==>
      Restrict(c, big, small)[i] == c[j]
    ensures InBounds(c, Sizes(big)) ==> InBounds(Restrict(c, big, small), Sizes(small))
  {
    forall i, j | 0 <= i < |small| && 0 <= j < |big| && big[j] == small[i]
      ensures Restrict(c, big, small)[i] == c[j]
    {
      IndexOfMember(big, j);
    }
    if InBounds(c, Sizes(big)) {
      forall i | 0 <= i < |small| ensures Restrict(c, big, small)[i] < small[i].size {
        assert small[i] in big;
        var j :| 0 <= j < |big| && big[j] == small[i];
        IndexOfMember(big, j);
      }
    }
  }

  /** Restricting to the whole group gives the combination back. */
  lemma RestrictToSelf(c: Combination, vars: seq<Variable>)
    requires UniqueNames(vars) && |c| == |vars|
    ensures Restrict(c, vars, vars) == c
  {
    forall i | 0 <= i < |vars| ensures Restrict(c, vars, vars)[i] == c[i] {
      IndexOfMember(vars, i);
    }
  }
}
