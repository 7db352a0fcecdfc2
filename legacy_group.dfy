/** The group of `Lib/EFG/Header/categoric/Group.h`: an unordered set of
    variables whose names are unique. */
module LegacyGroup {
  import opened Wrappers
  import opened Categoric

  /** The regrouping of a product that the loop of `size()` relies on when it
      multiplies the running product by one more domain size. */
  lemma MulAssoc(a: nat, b: nat, c: nat)
    ensures a * (b * c) == (a * b) * c
  {
  }

  class Group {
    var group: set<Variable>

    ghost predicate Valid()
      reads this
    {
      UniqueNamesIn(group)
    }

    /** The default initialisation of the set member, before a constructor
        body runs. */
    constructor Blank()
      ensures Valid() && group == {}
    {
      group := {};
    }

    /** Throws when a variable with the same name is already part of the
        group; otherwise inserts it. */
    method Add(v: Variable) returns (r: Outcome<GroupError>)
      requires Valid()
      modifies this
      ensures Valid()
      ensures r.Pass? <==> forall w :: w in old(group) ==> w.name != v.name
      ensures r.Fail? ==> r.error == RepeatedVariable
      ensures group == if r.Pass? then old(group) + {v} else old(group)
    {
      if exists w :: w in group && w.name == v.name {
        return Fail(RepeatedVariable);
      }
      group := group + {v};
      return Pass;
    }

    /** The constructors from two or more variables: each is added in turn,
        so a repeated name throws. */
    static method Make(vs: seq<Variable>) returns (r: Result<Group, GroupError>)
      requires |vs| >= 2
      ensures r.Err? <==> !UniqueNames(vs)
      ensures r.Err? ==> r.error == RepeatedVariable
      ensures r.Ok? ==> fresh(r.value) && r.value.Valid() && r.value.group == Members(vs)
    {
      var g := new Group.Blank();
      var k := 0;
      while k < |vs|
        invariant 0 <= k <= |vs|
        invariant g.Valid() && fresh(g)
        invariant UniqueNames(vs[..k])
        invariant g.group == Members(vs[..k])
      {
        var o := g.Add(vs[k]);
        if o.Fail? {
          var w :| w in Members(vs[..k]) && w.name == vs[k].name;
          var j :| 0 <= j < k && vs[j] == w;
          return Err(o.error);
        }
        forall j | 0 <= j < k ensures vs[j].name != vs[k].name {
          assert vs[..k][j] in Members(vs[..k]);
        }
        assert vs[..k + 1] == vs[..k] + [vs[k]];
        k := k + 1;
      }
      assert vs[..k] == vs;
      return Ok(g);
    }

    /** The size of the joint domain, the product of the member sizes. */
    method Size() returns (n: nat)
      ensures n == SetJointSize(group)
    {
      n := 1;
      var pending := group;
      while pending != {}
        invariant pending <= group
        invariant n * SetJointSize(pending) == SetJointSize(group)
        decreases pending
      {
        var v :| v in pending;
        ghost var rest := SetJointSize(pending - {v});
        SetJointSizeRemove(pending, v);
        MulAssoc(n, v.size, rest);
        n := n * v.size;
        pending := pending - {v};
      }
    }

    /** Replaces the variables with those of `g`; throws on a mismatch of the
        joint domain size, and then nothing changes. */
    method Replace(g: Group) returns (r: Outcome<GroupError>)
      requires Valid() && g.Valid()
      modifies this
      ensures Valid()
      ensures r.Pass? <==> SetJointSize(old(g.group)) == SetJointSize(old(group))
      ensures r.Fail? ==> r.error == JointSizeMismatch
      ensures group == if r.Pass? then old(g.group) else old(group)
    {
      var mine := Size();
      var theirs := g.Size();
      if mine != theirs {
        return Fail(JointSizeMismatch);
      }
      group := g.group;
      return Pass;
    }

    /** Assignment goes through `replace`: a mismatched group is refused
        instead of overwriting this one. */
    method Assign(o: Group) returns (r: Outcome<GroupError>)
      requires Valid() && o.Valid()
      modifies this
      ensures Valid()
      ensures r.Pass? <==> SetJointSize(old(o.group)) == SetJointSize(old(group))
      ensures r.Fail? ==> r.error == JointSizeMismatch
      ensures group == if r.Pass? then old(o.group) else old(group)
    {
      r := Replace(o);
    }

    /** The variadic `replace`: builds a group from the variables (throwing on
        a repeated name) and replaces with it. */
    method ReplaceWith(vs: seq<Variable>) returns (r: Outcome<GroupError>)
      requires Valid() && |vs| >= 2
      modifies this
      ensures Valid()
      ensures r.Pass? <==> UniqueNames(vs) && JointSize(vs) == SetJointSize(old(group))
      ensures r == Fail(RepeatedVariable) <==> !UniqueNames(vs)
      ensures r.Fail? && UniqueNames(vs) ==> r.error == JointSizeMismatch
      ensures group == if r.Pass? then Members(vs) else old(group)
    {
      var t := Make(vs);
      if t.Err? {
        return Fail(t.error);
      }
      JointSizeIsSetJointSize(vs);
      r := Replace(t.value);
    }
  }
}
