/** Categorical variables and the facts about ensembles of them that every
    flavour of group relies on: unique names, the joint domain size, and
    the position-wise compatibility demanded by a replacement. */
module Categoric {
  import opened Combinations

  /** A domain size: every variable takes at least one value. */
  type DomainSize = n: nat | 1 <= n witness 1

  /** A categorical variable, identified by its name. */
  datatype Variable = Variable(name: string, size: DomainSize)

  /** The errors a group throws. */
  datatype GroupError =
    | RepeatedVariable      // two variables with the same name
    | CardinalityMismatch   // a replacement with a different number of variables
    | DomainSizeMismatch    // a replacement whose k-th variable has another domain size
    | JointSizeMismatch     // a replacement with another joint domain size

  function Names(vs: seq<Variable>): set<string>
  {
    set v | v in vs :: v.name
  }

  function Members(vs: seq<Variable>): set<Variable>
  {
    set v | v in vs
  }

  /** No two positions hold variables with the same name. */
  predicate UniqueNames(vs: seq<Variable>)
  {
    forall i, j :: 0 <= i < j < |vs| ==> vs[i].name != vs[j].name
  }

  /** No two members of a set share a name. */
  predicate UniqueNamesIn(s: set<Variable>)
  {
    forall a, b :: a in s && b in s && a.name == b.name ==> a == b
  }

  function Sizes(vs: seq<Variable>): seq<nat>
  {
    seq(|vs|, i requires 0 <= i < |vs| => vs[i].size as nat)
  }

  /** The size of the joint domain of a group, e.g. 2 * 4 * 3 = 24 for sizes
      <2, 4, 3>. */
  function JointSize(vs: seq<Variable>): nat
  {
    Product(Sizes(vs))
  }

  /** The position of the first variable called `name`, or `|vs|` when there
      is none. */
  function IndexOf(vs: seq<Variable>, name: string): (k: nat)
    ensures k <= |vs|
    ensures k < |vs| <==> name in Names(vs)
    ensures k < |vs| ==> vs[k].name == name
    ensures forall j :: 0 <= j < k ==> vs[j].name != name
  {
    if vs == [] then 0
    else if vs[0].name == name then 0
    else
      assert Names(vs) == {vs[0].name} + Names(vs[1..]) by {
        assert vs == [vs[0]] + vs[1..];
      }
      1 + IndexOf(vs[1..], name)
  }

  /** Under unique names the position of a member is found by its name. */
  lemma IndexOfMember(vs: seq<Variable>, k: nat)
    requires UniqueNames(vs) && k < |vs|
    ensures IndexOf(vs, vs[k].name) == k
  {
  }

  /** The k-th domain sizes of the two lists agree at every position. */
  predicate SameDomainSizes(current: seq<Variable>, replacement: seq<Variable>)
  {
    |current| == |replacement| &&
    forall k :: 0 <= k < |current| ==> replacement[k].size == current[k].size
  }

  /** What every replacement of the variables of a group demands. */
  predicate Replaceable(current: seq<Variable>, replacement: seq<Variable>)
  {
    |replacement| == |current| && UniqueNames(replacement) && SameDomainSizes(current, replacement)
  }

  /** A replacement that is accepted keeps the group's shape: the same
      number of variables, the same size at every position and therefore the
      same joint domain and the same combinations. */
  lemma ReplaceableKeepsDomain(current: seq<Variable>, replacement: seq<Variable>)
    requires Replaceable(current, replacement)
    ensures Sizes(replacement) == Sizes(current)
    ensures JointSize(replacement) == JointSize(current)
    ensures Enumerate(Sizes(replacement)) == Enumerate(Sizes(current))
  {
    assert forall k :: 0 <= k < |current| ==> Sizes(replacement)[k] == Sizes(current)[k];
  }

  lemma {:induction false} JointSizePositive(vs: seq<Variable>)
    ensures JointSize(vs) >= 1
  {
    if vs != [] {
      JointSizeCons(vs);
      JointSizePositive(vs[1..]);
    }
  }

  lemma JointSizeCons(vs: seq<Variable>)
    requires vs != []
    ensures JointSize(vs) == vs[0].size * JointSize(vs[1..])
  {
    assert Sizes(vs)[1..] == Sizes(vs[1..]);
  }

  // ---- joint size of an unordered group ----

  ghost function Pick(s: set<Variable>): (v: Variable)
    requires s != {}
    ensures v in s
  {
    var v :| v in s; v
  }

  /** The joint domain size of a set of variables. */
  ghost function SetJointSize(s: set<Variable>): nat
  {
    if s == {} then 1 else var v := Pick(s); v.size * SetJointSize(s - {v})
  }

  /** The product over a set does not depend on the member taken out first. */
  lemma {:induction false} SetJointSizeRemove(s: set<Variable>, x: Variable)
    requires x in s
    ensures SetJointSize(s) == x.size * SetJointSize(s - {x})
    decreases |s|
  {
    var v := Pick(s);
    if v != x {
      var rest := s - {v} - {x};
      assert s - {v} - {x} == s - {x} - {v};
      calc {
        SetJointSize(s);
        v.size * SetJointSize(s - {v});
        { SetJointSizeRemove(s - {v}, x); }
        v.size * (x.size * SetJointSize(rest));
        x.size * (v.size * SetJointSize(rest));
        { SetJointSizeRemove(s - {x}, v); }
        x.size * SetJointSize(s - {x});
      }
    }
  }

  /** For a list without repetitions, the product over the list equals the
      product over its set of members: the joint size ignores order. */
  lemma {:induction false} JointSizeIsSetJointSize(vs: seq<Variable>)
    requires UniqueNames(vs)
    ensures JointSize(vs) == SetJointSize(Members(vs))
  {
    if vs != [] {
      var rest := vs[1..];
      assert Members(vs) - {vs[0]} == Members(rest) by {
        assert vs == [vs[0]] + rest;
        assert vs[0] !in Members(rest);
      }
      SetJointSizeRemove(Members(vs), vs[0]);
      JointSizeIsSetJointSize(rest);
      JointSizeCons(vs);
    }
  }

  /** A list with unique names holds as many members as positions. */
  lemma {:induction false} UniqueNamesCount(vs: seq<Variable>)
    requires UniqueNames(vs)
    ensures |Members(vs)| == |vs|
  {
    if vs != [] {
      var rest := vs[1..];
      assert vs == [vs[0]] + rest;
      assert Members(vs) == {vs[0]} + Members(rest);
      assert vs[0] !in Members(rest);
      UniqueNamesCount(rest);
    }
  }

  /** Two groups with the same members, in whatever insertion order, have the
      same joint domain size. */
  lemma SameMembersSameJointSize(a: seq<Variable>, b: seq<Variable>)
    requires UniqueNames(a) && UniqueNames(b)
    requires Members(a) == Members(b)
    ensures JointSize(a) == JointSize(b)
  {
    JointSizeIsSetJointSize(a);
    JointSizeIsSetJointSize(b);
  }
}
