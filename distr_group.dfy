/** The group of `Lib/EFG/Source/distribution/Group.cpp`: an ordered list of
    variables with one observer registered per variable. */
module DistrGroup {
  import opened Wrappers
  import opened Combinations
  import opened Categoric

  class Group {
    /** The variables, in the order combinations index them. */
    var group: seq<Variable>
    /** One observer entry per variable, built in the order of `group`; each
        entry is represented by the variable it observes. */
    var groupObservers: seq<Variable>

    ghost predicate Valid()
      reads this
    {
      UniqueNames(group) && groupObservers == group
    }

    /** The constructor body once the repetition check has passed: store the
        variables and register one observer per variable, in order. */
    constructor Init(vs: seq<Variable>)
      requires UniqueNames(vs)
      ensures Valid() && group == vs
      ensures |groupObservers| == |vs|
    {
      group := vs;
      groupObservers := [];
      new;
      var k := 0;
      while k < |vs|
        invariant 0 <= k <= |vs|
        invariant group == vs
        invariant groupObservers == vs[..k]
      {
        groupObservers := groupObservers + [group[k]];
        k := k + 1;
      }
    }

    /** The constructor: throws when a variable is repeated, otherwise the
        group holds exactly the given list. */
    static method Make(vs: seq<Variable>) returns (r: Result<Group, GroupError>)
      ensures r.Err? <==> !UniqueNames(vs)
      ensures r.Err? ==> r.error == RepeatedVariable
      ensures r.Ok? ==> fresh(r.value) && r.value.Valid() && r.value.group == vs
    {
      if !UniqueNames(vs) {
        return Err(RepeatedVariable);
      }
      var g := new Group.Init(vs);
      return Ok(g);
    }

    /** Swaps in a new list of variables. The checks run in order (length,
        repetitions, domain size at each position) and all of them before
        anything is assigned, so a failure leaves the group as it was. */
    method Replace(newGroup: seq<Variable>) returns (r: Outcome<GroupError>)
      requires Valid()
      modifies this
      ensures Valid()
      ensures r.Pass? <==> Replaceable(old(group), newGroup)
      ensures r == Fail(CardinalityMismatch) <==> |newGroup| != |old(group)|
      ensures r == Fail(RepeatedVariable) <==> |newGroup| == |old(group)| && !UniqueNames(newGroup)
      ensures r == Fail(DomainSizeMismatch) <==>
        |newGroup| == |old(group)| && UniqueNames(newGroup) && !SameDomainSizes(old(group), newGroup)
      ensures group == if r.Pass? then newGroup else old(group)
      ensures |groupObservers| == |group|
    {
      var K := |newGroup|;
      if K != |group| {
        return Fail(CardinalityMismatch);
      }
      if !UniqueNames(newGroup) {
        return Fail(RepeatedVariable);
      }
      var k := 0;
      while k < K
        invariant 0 <= k <= K
        invariant forall j :: 0 <= j < k ==> newGroup[j].size == group[j].size
      {
        if newGroup[k].size != group[k].size {
          return Fail(DomainSizeMismatch);
        }
        k := k + 1;
      }
      groupObservers := [];
      group := newGroup;
      k := 0;
      while k < K
        invariant 0 <= k <= K
        invariant group == newGroup
        invariant groupObservers == newGroup[..k]
      {
        groupObservers := groupObservers + [group[k]];
        k := k + 1;
      }
      return Pass;
    }
  }
}
