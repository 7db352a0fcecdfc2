/** `Distribution::marginalize(comb, evidences)`: the evidence variables are
    fixed at the values of `comb` and dropped from the group. Nothing is
    summed: the value of a remaining combination is the original value at the
    one full combination that extends it with the evidence. */
module Conditioning {
  import opened Wrappers
  import opened Combinations
  import opened Categoric
  import opened Tables

  /** The variables of `vars` that are not evidence, in their order. */
  function Remaining(vars: seq<Variable>, ev: seq<Variable>): seq<Variable>
  {
    if vars == [] then []
    else (if vars[0].name in Names(ev) then [] else [vars[0]]) + Remaining(vars[1..], ev)
  }

  /** The remaining group keeps exactly the non-evidence variables, with
      unique names. */
  lemma {:induction false} RemainingSpec(vars: seq<Variable>, ev: seq<Variable>)
    requires UniqueNames(vars)
    ensures UniqueNames(Remaining(vars, ev))
    ensures forall v :: v in Remaining(vars, ev) <==> v in vars && v.name !in Names(ev)
  {
    if vars != [] {
      RemainingSpec(vars[1..], ev);
      var head := if vars[0].name in Names(ev) then [] else [vars[0]];
      var rest := Remaining(vars[1..], ev);
      assert Remaining(vars, ev) == head + rest;
      assert forall v :: v in vars <==> v == vars[0] || v in vars[1..] by {
        assert vars == [vars[0]] + vars[1..];
      }
      forall j | 0 <= j < |rest| ensures rest[j].name != vars[0].name {
        assert rest[j] in vars[1..];
      }
    }
  }

  /** The combination of the whole group that reads `c` on the remaining
      variables and `e` on the evidence. */
  function Assemble(c: Combination, rest: seq<Variable>, e: Combination, ev: seq<Variable>,
                    full: seq<Variable>): Combination
  {
    seq(|full|, i requires 0 <= i < |full| =>
      var k := IndexOf(ev, full[i].name);
      if k < |ev| then (if k < |e| then e[k] else 0)
      else var j := IndexOf(rest, full[i].name); if j < |c| then c[j] else 0)
  }

  /** Conditioning on evidence: fails when `comb` does not fit the evidence
      group, when an evidence variable is not in the group, or when an
      evidence value is beyond its domain. */
  function Marginalize(t: Table, comb: Combination, ev: seq<Variable>): Result<Table, DistrError>
  {
    if |comb| != |ev| then Err(EvidenceArity)
    else if !SubGroup(ev, t.vars) then Err(UnknownEvidence)
    else if !InBounds(comb, Sizes(ev)) then Err(EvidenceOutOfRange)
    else
      var rest := Remaining(t.vars, ev);
      Ok(Table(rest, map c | c in Enumerate(Sizes(rest)) :: Lookup(t.values, Assemble(c, rest, comb, ev, t.vars))))
  }

  /** The error cases, checked in this order. Conditioning succeeds exactly
      when `comb` gives one value per evidence variable, every evidence
      variable belongs to the group, and some combination of the group's
      joint domain reads `comb` on the evidence; the last error is the
      absence of such a combination. */
  lemma MarginalizeErrors(t: Table, comb: Combination, ev: seq<Variable>)
    requires WellFormed(t) && UniqueNames(ev)
    ensures Marginalize(t, comb, ev).Ok? <==>
      |comb| == |ev| && SubGroup(ev, t.vars) &&
      exists x :: InBounds(x, Sizes(t.vars)) && Restrict(x, t.vars, ev) == comb
    ensures Marginalize(t, comb, ev) == Err(EvidenceArity) <==> |comb| != |ev|
    ensures Marginalize(t, comb, ev) == Err(UnknownEvidence) <==>
      |comb| == |ev| && !SubGroup(ev, t.vars)
    ensures Marginalize(t, comb, ev) == Err(EvidenceOutOfRange) <==>
      |comb| == |ev| && SubGroup(ev, t.vars) &&
      forall x :: InBounds(x, Sizes(t.vars)) ==> Restrict(x, t.vars, ev) != comb
  {
    if |comb| == |ev| && SubGroup(ev, t.vars) {
      forall x | InBounds(x, Sizes(t.vars)) && Restrict(x, t.vars, ev) == comb
        ensures InBounds(comb, Sizes(ev))
      {
        RestrictPicks(x, t.vars, ev);
      }
      if InBounds(comb, Sizes(ev)) {
        var rest := Remaining(t.vars, ev);
        var z: Combination := seq(|rest|, i requires 0 <= i < |rest| => 0);
        assert InBounds(z, Sizes(rest));
        AssembleInBounds(z, comb, ev, t.vars);
        AssembleRestrictsToEvidence(z, comb, ev, t.vars);
        var x := Assemble(z, rest, comb, ev, t.vars);
        assert InBounds(x, Sizes(t.vars)) && Restrict(x, t.vars, ev) == comb;
      }
    }
  }

  /** The assembled combination reads `e` at an evidence variable and `c`
      at a remaining one. */
  lemma AssembleAt(c: Combination, e: Combination, ev: seq<Variable>, full: seq<Variable>, i: nat)
    requires UniqueNames(full) && |c| == |Remaining(full, ev)| && |e| == |ev| && i < |full|
    ensures var x := Assemble(c, Remaining(full, ev), e, ev, full);
      var k := IndexOf(ev, full[i].name);
      |x| == |full| &&
      (k < |ev| ==> x[i] == e[k]) &&
      (k == |ev| ==> exists j :: 0 <= j < |c| && Remaining(full, ev)[j] == full[i] && x[i] == c[j])
  {
    var rest := Remaining(full, ev);
    RemainingSpec(full, ev);
    if IndexOf(ev, full[i].name) == |ev| {
      assert full[i] in rest;
      var j := IndexOf(rest, full[i].name);
      assert rest[j] in full;
      var i' :| 0 <= i' < |full| && full[i'] == rest[j];
      assert i' == i;
    }
  }

  /** The assembled combination is in bounds for the whole group. */
  lemma AssembleInBounds(c: Combination, e: Combination, ev: seq<Variable>, full: seq<Variable>)
    requires UniqueNames(full) && SubGroup(ev, full)
    requires InBounds(c, Sizes(Remaining(full, ev))) && InBounds(e, Sizes(ev))
    ensures InBounds(Assemble(c, Remaining(full, ev), e, ev, full), Sizes(full))
  {
    var x := Assemble(c, Remaining(full, ev), e, ev, full);
    forall i | 0 <= i < |full| ensures x[i] < full[i].size {
      AssembleAt(c, e, ev, full, i);
      var k := IndexOf(ev, full[i].name);
      if k < |ev| {
        assert ev[k] in full;
        var i' :| 0 <= i' < |full| && full[i'] == ev[k];
        assert i' == i;
      }
    }
  }

  /** The assembled combination restricts to `c` on the remaining variables. */
  lemma AssembleRestrictsToRest(c: Combination, e: Combination, ev: seq<Variable>, full: seq<Variable>)
    requires UniqueNames(full) && |c| == |Remaining(full, ev)| && |e| == |ev|
    ensures Restrict(Assemble(c, Remaining(full, ev), e, ev, full), full, Remaining(full, ev)) == c
  {
    var rest := Remaining(full, ev);
    RemainingSpec(full, ev);
    var x := Assemble(c, rest, e, ev, full);
    forall j | 0 <= j < |rest| ensures Restrict(x, full, rest)[j] == c[j] {
      assert rest[j] in full;
      var i :| 0 <= i < |full| && full[i] == rest[j];
      IndexOfMember(full, i);
      AssembleAt(c, e, ev, full, i);
      var j' :| 0 <= j' < |c| && rest[j'] == full[i] && x[i] == c[j'];
      assert j' == j;
    }
  }

  /** The assembled combination restricts to `e` on the evidence. */
  lemma AssembleRestrictsToEvidence(c: Combination, e: Combination, ev: seq<Variable>, full: seq<Variable>)
    requires UniqueNames(full) && UniqueNames(ev) && SubGroup(ev, full)
    requires |c| == |Remaining(full, ev)| && |e| == |ev|
    ensures Restrict(Assemble(c, Remaining(full, ev), e, ev, full), full, ev) == e
  {
    var x := Assemble(c, Remaining(full, ev), e, ev, full);
    forall k | 0 <= k < |ev| ensures Restrict(x, full, ev)[k] == e[k] {
      assert ev[k] in full;
      var i :| 0 <= i < |full| && full[i] == ev[k];
      IndexOfMember(full, i);
      IndexOfMember(ev, k);
      AssembleAt(c, e, ev, full, i);
    }
  }

  /** Any in-bounds combination of the whole group that restricts to `c` and
      to `e` is the assembled one. */
  lemma AssembleUnique(c: Combination, e: Combination, ev: seq<Variable>, full: seq<Variable>, x: Combination)
    requires UniqueNames(full) && UniqueNames(ev) && SubGroup(ev, full)
    requires |c| == |Remaining(full, ev)| && |x| == |full|
    requires Restrict(x, full, Remaining(full, ev)) == c && Restrict(x, full, ev) == e
    ensures x == Assemble(c, Remaining(full, ev), e, ev, full)
  {
    var rest := Remaining(full, ev);
    RemainingSpec(full, ev);
    var y := Assemble(c, rest, e, ev, full);
    forall i | 0 <= i < |full| ensures x[i] == y[i] {
      IndexOfMember(full, i);
      var k := IndexOf(ev, full[i].name);
      if k < |ev| {
        assert ev[k] in full;
        var i' :| 0 <= i' < |full| && full[i'] == ev[k];
        assert i' == i;
        assert Restrict(x, full, ev)[k] == x[i];
      } else {
        assert full[i] in rest;
        var j := IndexOf(rest, full[i].name);
        assert rest[j] in full;
        var i' :| 0 <= i' < |full| && full[i'] == rest[j];
        assert i' == i;
        assert Restrict(x, full, rest)[j] == x[i];
      }
    }
  }

  /** The conditioned distribution is over the non-evidence variables, is a
      well-formed table, and has one entry per remaining combination. */
  lemma MarginalizeGroup(t: Table, comb: Combination, ev: seq<Variable>, m: Table)
    requires WellFormed(t) && Marginalize(t, comb, ev) == Ok(m)
    ensures UniqueNames(m.vars)
    ensures forall v :: v in m.vars <==> v in t.vars && v.name !in Names(ev)
    ensures WellFormed(m) && |m.values| == JointSize(m.vars)
  {
    RemainingSpec(t.vars, ev);
    EnumerateCount(Sizes(m.vars));
    assert m.values.Keys == Elements(Enumerate(Sizes(m.vars)));
  }

  /** Conditioning, not summing: at every remaining combination `c`, the
      value is the original value at the full combination that agrees with
      `c` on the remaining variables and with `comb` on the evidence. */
  lemma MarginalValue(t: Table, comb: Combination, ev: seq<Variable>, m: Table, c: Combination, x: Combination)
    requires WellFormed(t) && UniqueNames(ev) && Marginalize(t, comb, ev) == Ok(m)
    requires InBounds(c, Sizes(m.vars)) && |x| == |t.vars|
    requires Restrict(x, t.vars, m.vars) == c && Restrict(x, t.vars, ev) == comb
    ensures Lookup(m.values, c) == Lookup(t.values, x)
  {
    AssembleUnique(c, comb, ev, t.vars, x);
    EnumerateMembers(Sizes(m.vars), c);
  }

  /** The scenario of the marginalization test: a table that holds 1 exactly
      where the evidence variables read `hit` and 0 elsewhere, conditioned on
      evidence `comb`, is 1 everywhere when `comb == hit` and 0 everywhere
      otherwise (A = 1, C = 1 gives all ones; A = 0, C = 1 all zeros). */
  lemma MarginalizeIndicator(t: Table, ev: seq<Variable>, hit: Combination, comb: Combination, m: Table)
    requires WellFormed(t) && UniqueNames(ev)
    requires forall x :: InBounds(x, Sizes(t.vars)) ==>
      Lookup(t.values, x) == if Restrict(x, t.vars, ev) == hit then 1.0 else 0.0
    requires Marginalize(t, comb, ev) == Ok(m)
    ensures forall c :: InBounds(c, Sizes(m.vars)) ==>
      Lookup(m.values, c) == if comb == hit then 1.0 else 0.0
  {
    forall c | InBounds(c, Sizes(m.vars))
      ensures Lookup(m.values, c) == if comb == hit then 1.0 else 0.0
    {
      var x := Assemble(c, m.vars, comb, ev, t.vars);
      AssembleInBounds(c, comb, ev, t.vars);
      AssembleRestrictsToRest(c, comb, ev, t.vars);
      AssembleRestrictsToEvidence(c, comb, ev, t.vars);
      MarginalValue(t, comb, ev, m, c, x);
    }
  }
}
