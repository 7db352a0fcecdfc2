/** Combinations over a joint domain and their enumeration in lexicographic
    order (the order of the keys of a distribution's table and of the range
    used to visit every combination of a group). */
module Combinations {

  /** One index per variable, in the group's order. */
  type Combination = seq<nat>

  /** The size of a joint domain: the product of the domain sizes. */
  function Product(sizes: seq<nat>): nat
  {
    if sizes == [] then 1 else sizes[0] * Product(sizes[1..])
  }

  /** Every index is below the domain size of its position. */
  predicate InBounds(c: Combination, sizes: seq<nat>)
  {
    |c| == |sizes| && forall i :: 0 <= i < |c| ==> c[i] < sizes[i]
  }

  /** Strict lexicographic order on combinations of the same length. */
  predicate LexLess(a: Combination, b: Combination)
    decreases |a|
  {
    |a| > 0 && |b| > 0 && (a[0] < b[0] || (a[0] == b[0] && LexLess(a[1..], b[1..])))
  }

  predicate StrictlySorted(cs: seq<Combination>)
  {
    forall j, k :: 0 <= j < k < |cs| ==> LexLess(cs[j], cs[k])
  }

  function Elements(cs: seq<Combination>): set<Combination>
  {
    set c | c in cs
  }

  /** The combinations `[i] + t` for every tail `t`, in the order of `tails`. */
  function Prepend(i: nat, tails: seq<Combination>): seq<Combination>
  {
    seq(|tails|, k requires 0 <= k < |tails| => [i] + tails[k])
  }

  /** The combinations whose first index runs from `i` up to `n - 1`, each
      followed by every tail. */
  function Spread(i: nat, n: nat, tails: seq<Combination>): seq<Combination>
    decreases n - i
  {
    if i >= n then [] else Prepend(i, tails) + Spread(i + 1, n, tails)
  }

  /** Every combination of the joint domain, the last index running fastest. */
  function Enumerate(sizes: seq<nat>): seq<Combination>
  {
    if sizes == [] then [[]] else Spread(0, sizes[0], Enumerate(sizes[1..]))
  }

  lemma {:induction false} SpreadLength(i: nat, n: nat, tails: seq<Combination>)
    requires i <= n
    ensures |Spread(i, n, tails)| == (n - i) * |tails|
    decreases n - i
  {
    if i < n {
      SpreadLength(i + 1, n, tails);
    }
  }

  /** There are exactly as many combinations as the product of the sizes. */
  lemma {:induction false} EnumerateLength(sizes: seq<nat>)
    ensures |Enumerate(sizes)| == Product(sizes)
  {
    if sizes != [] {
      EnumerateLength(sizes[1..]);
      SpreadLength(0, sizes[0], Enumerate(sizes[1..]));
    }
  }

  lemma {:induction false} SpreadMembers(i: nat, n: nat, tails: seq<Combination>, c: Combination)
    ensures c in Spread(i, n, tails) <==> |c| > 0 && i <= c[0] < n && c[1..] in tails
    decreases n - i
  {
    if i < n {
      SpreadMembers(i + 1, n, tails, c);
      if |c| > 0 && c[0] == i && c[1..] in tails {
        var k :| 0 <= k < |tails| && tails[k] == c[1..];
        assert Prepend(i, tails)[k] == c;
      }
    }
  }

  /** A combination is enumerated exactly when it is within bounds. */
  lemma {:induction false} EnumerateMembers(sizes: seq<nat>, c: Combination)
    ensures c in Enumerate(sizes) <==> InBounds(c, sizes)
  {
    if sizes == [] {
      assert InBounds(c, sizes) ==> c == [];
    } else {
      SpreadMembers(0, sizes[0], Enumerate(sizes[1..]), c);
      if |c| > 0 {
        EnumerateMembers(sizes[1..], c[1..]);
        assert InBounds(c, sizes) <==> c[0] < sizes[0] && InBounds(c[1..], sizes[1..]) by {
          if c[0] < sizes[0] && InBounds(c[1..], sizes[1..]) {
            forall i | 0 <= i < |c| ensures c[i] < sizes[i] {
              if i > 0 { assert c[1..][i - 1] == c[i]; }
            }
          }
        }
      }
    }
  }

  lemma {:induction false} LexLessIrreflexive(a: Combination)
    ensures !LexLess(a, a)
    decreases |a|
  {
    if |a| > 0 {
      LexLessIrreflexive(a[1..]);
    }
  }

  lemma PrependSorted(i: nat, tails: seq<Combination>)
    requires StrictlySorted(tails)
    ensures StrictlySorted(Prepend(i, tails))
  {
    var p := Prepend(i, tails);
    forall j, k | 0 <= j < k < |p| ensures LexLess(p[j], p[k]) {
      assert p[j][1..] == tails[j] && p[k][1..] == tails[k];
    }
  }

  lemma SortedConcat(a: seq<Combination>, b: seq<Combination>)
    requires StrictlySorted(a) && StrictlySorted(b)
    requires forall j, k :: 0 <= j < |a| && 0 <= k < |b| ==> LexLess(a[j], b[k])
    ensures StrictlySorted(a + b)
  {
  }

  lemma {:induction false} SpreadSorted(i: nat, n: nat, tails: seq<Combination>)
    requires StrictlySorted(tails)
    ensures StrictlySorted(Spread(i, n, tails))
    decreases n - i
  {
    if i < n {
      var p, rest := Prepend(i, tails), Spread(i + 1, n, tails);
      SpreadSorted(i + 1, n, tails);
      PrependSorted(i, tails);
      forall j, k | 0 <= j < |p| && 0 <= k < |rest| ensures LexLess(p[j], rest[k]) {
        SpreadMembers(i + 1, n, tails, rest[k]);
      }
      SortedConcat(p, rest);
    }
  }

  /** The enumeration is in strictly increasing lexicographic order. */
  lemma {:induction false} EnumerateSorted(sizes: seq<nat>)
    ensures StrictlySorted(Enumerate(sizes))
  {
    if sizes != [] {
      EnumerateSorted(sizes[1..]);
      SpreadSorted(0, sizes[0], Enumerate(sizes[1..]));
    }
  }

  lemma {:induction false} SortedElementsCount(cs: seq<Combination>)
    requires StrictlySorted(cs)
    ensures |Elements(cs)| == |cs|
  {
    if cs != [] {
      var init, last := cs[..|cs| - 1], cs[|cs| - 1];
      assert cs == init + [last];
      SortedElementsCount(init);
      LexLessIrreflexive(last);
      forall j | 0 <= j < |init| ensures init[j] != last {
        assert LexLess(cs[j], cs[|cs| - 1]);
      }
      assert Elements(cs) == Elements(init) + {last};
    }
  }

  /** The in-bounds combinations form a set of exactly `Product(sizes)`
      distinct elements. */
  lemma EnumerateCount(sizes: seq<nat>)
    ensures |Elements(Enumerate(sizes))| == Product(sizes)
    ensures forall c :: c in Elements(Enumerate(sizes)) <==> InBounds(c, sizes)
  {
    EnumerateSorted(sizes);
    SortedElementsCount(Enumerate(sizes));
    EnumerateLength(sizes);
    forall c ensures c in Elements(Enumerate(sizes)) <==> InBounds(c, sizes) {
      EnumerateMembers(sizes, c);
    }
  }
}
