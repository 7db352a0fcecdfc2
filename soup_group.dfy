/** The group of `src/header/EasyFactorGraph/categoric/Group.h`: the variables
    kept twice, in insertion ("soup") order and as a set sorted by name. */
module SoupGroup {
  import opened Wrappers
  import opened Combinations
  import opened Categoric

  /** How many of `vs` a one-by-one `add` into `g` takes before the first
      variable whose name is already present. */
  function Accepted(g: seq<Variable>, vs: seq<Variable>): (k: nat)
    ensures k <= |vs|
    decreases |vs|
  {
    if vs == [] || vs[0].name in Names(g) then 0 else 1 + Accepted(g + [vs[0]], vs[1..])
  }

  /** Adding one by one takes every variable exactly when the result has
      unique names. */
  lemma {:induction false} AcceptedAll(g: seq<Variable>, vs: seq<Variable>)
    requires UniqueNames(g)
    ensures Accepted(g, vs) == |vs| <==> UniqueNames(g + vs)
    decreases |vs|
  {
    if vs == [] {
      assert g + vs == g;
    } else if vs[0].name in Names(g) {
      var j := IndexOf(g, vs[0].name);
      assert (g + vs)[j].name == (g + vs)[|g|].name;
    } else {
      var g' := g + [vs[0]];
      assert g + vs == g' + vs[1..];
      forall i | 0 <= i < |g| ensures g'[i].name != g'[|g|].name {
        assert g[i] in g;
      }
      AcceptedAll(g', vs[1..]);
    }
  }

  /** One step of `Accepted`: a fresh name is taken, a present one stops. */
  lemma AcceptedStep(g: seq<Variable>, vs: seq<Variable>)
    requires vs != []
    ensures vs[0].name in Names(g) ==> Accepted(g, vs) == 0
    ensures vs[0].name !in Names(g) ==> Accepted(g, vs) == 1 + Accepted(g + [vs[0]], vs[1..])
  {
  }

  /** After `k` accepted variables the count continues from the grown group. */
  lemma {:induction false} AcceptedPrefix(g: seq<Variable>, vs: seq<Variable>, k: nat)
    requires k <= |vs| && UniqueNames(g + vs[..k])
    ensures Accepted(g, vs) == k + Accepted(g + vs[..k], vs[k..])
    decreases k
  {
    if k == 0 {
      assert g + vs[..0] == g && vs[0..] == vs;
    } else {
      forall i | 0 <= i < |g| ensures g[i].name != vs[0].name {
        assert (g + vs[..k])[i] == g[i] && (g + vs[..k])[|g|] == vs[0];
      }
      AcceptedStep(g, vs);
      var g' := g + [vs[0]];
      assert g' + vs[1..][..k - 1] == g + vs[..k];
      assert vs[1..][k - 1..] == vs[k..];
      AcceptedPrefix(g', vs[1..], k - 1);
    }
  }

  /** A one-by-one `add` that stops at position `k` has accepted exactly the
      first `k` variables, and the names were not unique. */
  lemma AcceptedStops(g: seq<Variable>, vs: seq<Variable>, k: nat)
    requires k < |vs| && UniqueNames(g + vs[..k]) && vs[k].name in Names(g + vs[..k])
    ensures Accepted(g, vs) == k && !UniqueNames(g + vs)
  {
    AcceptedPrefix(g, vs, k);
    AcceptedStep(g + vs[..k], vs[k..]);
    assert UniqueNames(g) by {
      forall i, j | 0 <= i < j < |g| ensures g[i].name != g[j].name {
        assert (g + vs[..k])[i] == g[i] && (g + vs[..k])[j] == g[j];
      }
    }
    AcceptedAll(g, vs);
  }

  /** A one-by-one `add` that runs to the end has accepted every variable. */
  lemma AcceptedDone(g: seq<Variable>, vs: seq<Variable>)
    requires UniqueNames(g + vs)
    ensures g + vs[..Accepted(g, vs)] == g + vs
  {
    assert UniqueNames(g) by {
      forall i, j | 0 <= i < j < |g| ensures g[i].name != g[j].name {
        assert (g + vs)[i] == g[i] && (g + vs)[j] == g[j];
      }
    }
    AcceptedAll(g, vs);
    assert vs[..|vs|] == vs;
  }

  /** The names of the variables of a set. */
  function NamesOf(s: set<Variable>): set<string>
  {
    set v | v in s :: v.name
  }

  /** `get_complementary(entire, subset)`: the members of `entire` whose name
      is not in `subset`. */
  function Complementary(entire: set<Variable>, subset: set<Variable>): (r: set<Variable>)
    ensures r <= entire
    ensures r !! subset
    ensures UniqueNamesIn(entire) && subset <= entire ==>
      r + subset == entire && |r| == |entire| - |subset|
  {
    var r := set v | v in entire && v.name !in NamesOf(subset);
    assert forall v :: v in subset ==> v.name in NamesOf(subset);
    assert UniqueNamesIn(entire) && subset <= entire ==> entire <= r + subset by {
      if UniqueNamesIn(entire) && subset <= entire {
        forall v | v in entire && v.name in NamesOf(subset) ensures v in subset {
          var w :| w in subset && w.name == v.name;
        }
      }
    }
    r
  }

  /** When no two variables of `entire` and `subset` share a name without
      being the same variable, the complementary is the set difference,
      whether or not `subset` lies within `entire`. */
  lemma ComplementaryIsDifference(entire: set<Variable>, subset: set<Variable>)
    requires UniqueNamesIn(entire + subset)
    ensures Complementary(entire, subset) == entire - subset
  {
    forall v | v in entire && v.name in NamesOf(subset) ensures v in subset {
      var w :| w in subset && w.name == v.name;
    }
  }

  /** `subject -= toRemove`: erases from `subject`, one by one, the variable
      named like each member of `toRemove`. */
  method RemoveFrom(subject: set<Variable>, toRemove: set<Variable>) returns (r: set<Variable>)
    ensures r == Complementary(subject, toRemove)
  {
    r := subject;
    var pending := toRemove;
    while pending != {}
      invariant pending <= toRemove
      invariant r == Complementary(subject, toRemove - pending)
      decreases pending
    {
      var x :| x in pending;
      assert NamesOf(toRemove - (pending - {x})) == NamesOf(toRemove - pending) + {x.name};
      r := set v | v in r && v.name != x.name;
      pending := pending - {x};
    }
    assert toRemove - pending == toRemove;
  }

  class Group {
    /** The soup: variables in insertion order. */
    var group: seq<Variable>
    /** The same variables, as a set. */
    var groupSorted: set<Variable>

    ghost predicate Valid()
      reads this
    {
      UniqueNames(group) && groupSorted == Members(group)
    }

    /** The protected default constructor: an empty group. */
    constructor Empty()
      ensures Valid() && group == []
    {
      group := [];
      groupSorted := {};
    }

    /** The constructor from one variable. */
    constructor Single(v: Variable)
      ensures Valid() && group == [v] && groupSorted == {v}
    {
      group := [v];
      groupSorted := {v};
    }

    /** Throws when a variable with the same name is already part of the
        group; otherwise appends it to the soup and inserts it in the set. */
    method Add(v: Variable) returns (r: Outcome<GroupError>)
      requires Valid()
      modifies this
      ensures Valid()
      ensures r.Pass? <==> v.name !in Names(old(group))
      ensures r.Fail? ==> r.error == RepeatedVariable
      ensures group == if r.Pass? then old(group) + [v] else old(group)
    {
      if exists w :: w in groupSorted && w.name == v.name {
        return Fail(RepeatedVariable);
      }
      forall i | 0 <= i < |group| ensures group[i].name != v.name {
        assert group[i] in groupSorted;
      }
      group := group + [v];
      groupSorted := groupSorted + {v};
      return Pass;
    }

    /** The variadic `add`: adds the variables one by one in argument order.
        It stops at the first repeated name; the variables added before it
        stay in the group. */
    method AddAll(vs: seq<Variable>) returns (r: Outcome<GroupError>)
      requires Valid()
      modifies this
      ensures Valid()
      ensures r.Pass? <==> UniqueNames(old(group) + vs)
      ensures r.Fail? ==> r.error == RepeatedVariable
      ensures group == old(group) + vs[..Accepted(old(group), vs)]
    {
      ghost var g0 := group;
      var k := 0;
      while k < |vs|
        invariant 0 <= k <= |vs|
        invariant Valid()
        invariant group == g0 + vs[..k]
      {
        var o := Add(vs[k]);
        if o.Fail? {
          AcceptedStops(g0, vs, k);
          return o;
        }
        assert vs[..k + 1] == vs[..k] + [vs[k]];
        k := k + 1;
      }
      assert vs[..k] == vs;
      AcceptedDone(g0, vs);
      return Pass;
    }

    /** The constructors from a soup and from two or more variables: the
        variables are added one by one, so any repeated name throws. */
    static method FromSoup(vs: seq<Variable>) returns (r: Result<Group, GroupError>)
      ensures r.Err? <==> !UniqueNames(vs)
      ensures r.Err? ==> r.error == RepeatedVariable
      ensures r.Ok? ==> fresh(r.value) && r.value.Valid() && r.value.group == vs
    {
      var g := new Group.Empty();
      assert [] + vs == vs;
      AcceptedAll([], vs);
      var o := g.AddAll(vs);
      if o.Fail? {
        return Err(o.error);
      }
      assert vs[..|vs|] == vs;
      return Ok(g);
    }

    /** Replaces the variables. Throws when the new soup has another length or
        another domain size at some position; a repeated name is refused
        too, since the set could not hold it. Nothing changes on failure. */
    method ReplaceVariables(newVariables: seq<Variable>) returns (r: Outcome<GroupError>)
      requires Valid()
      modifies this
      ensures Valid()
      ensures r.Pass? <==> Replaceable(old(group), newVariables)
      ensures r == Fail(CardinalityMismatch) <==> |newVariables| != |old(group)|
      ensures r == Fail(DomainSizeMismatch) <==>
        |newVariables| == |old(group)| && !SameDomainSizes(old(group), newVariables)
      ensures r == Fail(RepeatedVariable) <==>
        |newVariables| == |old(group)| && SameDomainSizes(old(group), newVariables) &&
        !UniqueNames(newVariables)
      ensures group == if r.Pass? then newVariables else old(group)
    {
      if |newVariables| != |group| {
        return Fail(CardinalityMismatch);
      }
      var k := 0;
      while k < |group|
        invariant 0 <= k <= |group|
        invariant forall j :: 0 <= j < k ==> newVariables[j].size == group[j].size
      {
        if newVariables[k].size != group[k].size {
          return Fail(DomainSizeMismatch);
        }
        k := k + 1;
      }
      if !UniqueNames(newVariables) {
        return Fail(RepeatedVariable);
      }
      group := newVariables;
      groupSorted := Members(newVariables);
      return Pass;
    }

    /** The size of the joint domain: the number of its combinations. */
    function Size(): (n: nat)
      reads this
      ensures n == |Enumerate(Sizes(group))|
      ensures n >= 1
    {
      EnumerateLength(Sizes(group));
      JointSizePositive(group);
      JointSize(group)
    }

    /** Equality looks at the sorted sets only: insertion order does not
        matter, and equal groups have the same joint domain size. */
    function Equals(o: Group): (b: bool)
      reads this, o
      requires Valid() && o.Valid()
      ensures b <==> Members(group) == Members(o.group)
      ensures b ==> Size() == o.Size()
    {
      if groupSorted == o.groupSorted then
        SameMembersSameJointSize(group, o.group);
        true
      else
        false
    }
  }
}
