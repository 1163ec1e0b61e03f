/** Sparse ranges of benchmark arguments
    (AddPowers, AddNegatedPowers and AddRange, Vendor/benchmark/src/benchmark_register.h). */
module Ranges {
  import opened Seqs

  /** A signed integer type by its largest value. */
  datatype IntType = IntType(max: int) {
    predicate Has(x: int) {
      -1 - max <= x <= max
    }

    /** An arithmetic result, which has to be representable. */
    function Checked(x: int): int
      requires Has(x)
    {
      x
    }
  }

  function Power(mult: int, k: nat): int {
    if k == 0 then 1 else Power(mult, k - 1) * mult
  }

  ghost predicate IsPower(mult: int, x: int) {
    exists k: nat :: Power(mult, k) == x
  }

  ghost predicate Increasing(s: seq<int>) {
    forall i, j :: 0 <= i < j < |s| ==> s[i] < s[j]
  }

  /** s lists the numbers with the property p, in increasing order. */
  ghost predicate Lists(s: seq<int>, p: int -> bool) {
    Increasing(s) && forall x :: x in s <==> p(x)
  }

  lemma NonemptyIff(s: seq<int>, p: int -> bool)
    requires Lists(s, p)
    ensures s != [] <==> exists x :: p(x)
  {
    if s != [] {
      assert s[0] in s;
    }
  }

  /** The last number of a list is the greatest with the property, and the rest lists the others. */
  lemma AllButLast(s: seq<int>, p: int -> bool, q: int -> bool)
    requires Lists(s, p) && s != []
    requires forall x :: q(x) <==> p(x) && x != s[|s| - 1]
    ensures p(s[|s| - 1]) && forall x :: p(x) ==> x <= s[|s| - 1]
    ensures Lists(s[..|s| - 1], q)
  {
    var r, a := s[..|s| - 1], s[|s| - 1];
    assert a in s;
    forall x
      ensures x in r <==> q(x)
      ensures p(x) ==> x <= a
    {
      if x in s {
        var i :| 0 <= i < |s| && s[i] == x;
        if x != a {
          assert r[i] == x;
        }
      }
      if x in r {
        var i :| 0 <= i < |r| && r[i] == x;
        assert s[i] == x;
      }
    }
  }

  lemma SameLast(s: seq<int>, t: seq<int>, p: int -> bool)
    requires Lists(s, p) && Lists(t, p) && s != [] && t != []
    ensures s[|s| - 1] == t[|t| - 1]
  {
    AllButLast(s, p, (x: int) => p(x) && x != s[|s| - 1]);
    AllButLast(t, p, (x: int) => p(x) && x != t[|t| - 1]);
  }

  /** That determines s. */
  lemma {:induction false} ListsUnique(s: seq<int>, t: seq<int>, p: int -> bool)
    requires Lists(s, p) && Lists(t, p)
    ensures s == t
    decreases |s|
  {
    NonemptyIff(s, p);
    NonemptyIff(t, p);
    if s != [] {
      SameLast(s, t, p);
      var q := (x: int) => p(x) && x != s[|s| - 1];
      AllButLast(s, p, q);
      AllButLast(t, p, q);
      ListsUnique(s[..|s| - 1], t[..|t| - 1], q);
      assert s == s[..|s| - 1] + [s[|s| - 1]] && t == t[..|t| - 1] + [t[|t| - 1]];
    }
  }

  lemma ListsConcat(s: seq<int>, p: int -> bool, t: seq<int>, q: int -> bool)
    requires Lists(s, p) && Lists(t, q)
    requires forall x, y :: x in s && y in t ==> x < y
    ensures Lists(s + t, (x: int) => p(x) || q(x))
  {
    forall i, j | 0 <= i < j < |s + t|
      ensures (s + t)[i] < (s + t)[j]
    {
      if i < |s| <= j {
        assert s[i] in s && t[j - |s|] in t;
      }
    }
  }

  lemma {:induction false} PowerPositive(mult: int, k: nat)
    requires mult >= 2
    ensures Power(mult, k) >= 1
  {
    if k > 0 {
      PowerPositive(mult, k - 1);
    }
  }

  lemma {:induction false} PowersIncrease(mult: int, j: nat, k: nat)
    requires mult >= 2 && j < k
    ensures Power(mult, j) < Power(mult, k)
  {
    PowerPositive(mult, k - 1);
    assert Power(mult, k) == Power(mult, k - 1) * mult >= Power(mult, k - 1) * 2;
    if j < k - 1 {
      PowersIncrease(mult, j, k - 1);
    }
  }

  /** The powers in [lo, hi] below the k-th. */
  ghost predicate PowersBelow(mult: int, lo: int, hi: int, k: nat, x: int) {
    lo <= x <= hi && exists j: nat :: j < k && Power(mult, j) == x
  }

  lemma OneMoreBelow(mult: int, lo: int, hi: int, k: nat, x: int)
    requires Power(mult, k) <= hi
    ensures PowersBelow(mult, lo, hi, k + 1, x)
            <==> PowersBelow(mult, lo, hi, k, x) || (x == Power(mult, k) && x >= lo)
  {
    if PowersBelow(mult, lo, hi, k, x) {
      var j: nat :| j < k && Power(mult, j) == x;
      assert j < k + 1;
    }
    if PowersBelow(mult, lo, hi, k + 1, x) {
      var j: nat :| j < k + 1 && Power(mult, j) == x;
      if j < k {
        assert PowersBelow(mult, lo, hi, k, x);
      }
    }
  }

  /** The list of the powers below the k-th, extended by that one if it is large enough. */
  lemma NextPower(mult: int, lo: int, hi: int, k: nat, s: seq<int>)
    requires mult >= 2 && Power(mult, k) <= hi
    requires Lists(s, (x: int) => PowersBelow(mult, lo, hi, k, x))
    ensures Lists(if Power(mult, k) >= lo then s + [Power(mult, k)] else s,
                  (x: int) => PowersBelow(mult, lo, hi, k + 1, x))
  {
    var i := Power(mult, k);
    forall x | x in s
      ensures x < i
    {
      var j: nat :| j < k && Power(mult, j) == x;
      PowersIncrease(mult, j, k);
    }
    forall x
      ensures PowersBelow(mult, lo, hi, k + 1, x) <==> PowersBelow(mult, lo, hi, k, x) || (x == i && x >= lo)
    {
      OneMoreBelow(mult, lo, hi, k, x);
    }
    if i >= lo {
      ListsConcat(s, (x: int) => PowersBelow(mult, lo, hi, k, x), [i], (x: int) => x == i);
    }
  }

  /** Once a power is past hi, no later one is in the range. */
  lemma NoMorePowers(mult: int, lo: int, hi: int, k: nat, x: int)
    requires mult >= 2 && Power(mult, k) > hi
    ensures PowersBelow(mult, lo, hi, k, x) <==> lo <= x <= hi && IsPower(mult, x)
  {
    if lo <= x <= hi && IsPower(mult, x) {
      var j: nat :| Power(mult, j) == x;
      if j > k {
        PowersIncrease(mult, k, j);
      }
    }
  }

  // ---------------------------------------------------------------- negation and reversal

  function Reversed(s: seq<int>): (r: seq<int>)
    ensures |r| == |s| && forall i :: 0 <= i < |s| ==> r[i] == s[|s| - 1 - i]
  {
    seq(|s|, i requires 0 <= i < |s| => s[|s| - 1 - i])
  }

  function Negated(s: seq<int>): (r: seq<int>)
    ensures |r| == |s| && forall i :: 0 <= i < |s| ==> r[i] == -s[i]
  {
    seq(|s|, i requires 0 <= i < |s| => -s[i])
  }

  lemma ReversedNegatedHas(s: seq<int>, x: int)
    ensures x in Reversed(Negated(s)) <==> -x in s
  {
    var n, r := Negated(s), Reversed(Negated(s));
    if -x in s {
      var i :| 0 <= i < |s| && s[i] == -x;
      assert n[i] == x && r[|s| - 1 - i] == n[i];
    }
    if x in r {
      var i :| 0 <= i < |r| && r[i] == x;
      assert n[|s| - 1 - i] == x && s[|s| - 1 - i] == -x;
    }
  }

  lemma ReversedNegatedIncreases(s: seq<int>)
    requires Increasing(s)
    ensures Increasing(Reversed(Negated(s)))
  {
    var n, r := Negated(s), Reversed(Negated(s));
    forall i, j | 0 <= i < j < |r|
      ensures r[i] < r[j]
    {
      assert r[i] == n[|s| - 1 - i] == -s[|s| - 1 - i];
      assert r[j] == n[|s| - 1 - j] == -s[|s| - 1 - j];
    }
  }

  lemma ReversedNegated(s: seq<int>, p: int -> bool)
    requires Lists(s, p)
    ensures Lists(Reversed(Negated(s)), (x: int) => p(-x))
  {
    ReversedNegatedIncreases(s);
    forall x
      ensures x in Reversed(Negated(s)) <==> p(-x)
    {
      ReversedNegatedHas(s, x);
    }
  }

  // ---------------------------------------------------------------- the vector

  class Vector {
    var items: seq<int>

    constructor ()
      ensures items == []
    {
      items := [];
    }

    method PushBack(x: int)
      modifies this
      ensures items == old(items) + [x]
    {
      items := items + [x];
    }

    /** Negates everything from index `start` on. */
    method NegateFrom(t: IntType, start: nat)
      requires start <= |items|
      requires forall i :: start <= i < |items| ==> t.Has(-items[i])
      modifies this
      ensures items == old(items)[..start] + Negated(old(items)[start..])
    {
      for i := start to |items|
        invariant |items| == |old(items)|
        invariant forall j :: 0 <= j < |items| ==> items[j] == if start <= j < i then -old(items)[j] else old(items)[j]
      {
        items := items[i := t.Checked(-items[i])];
      }
    }

    /** Reverses everything from index `start` on. */
    method ReverseFrom(start: nat)
      requires start <= |items|
      modifies this
      ensures items == old(items)[..start] + Reversed(old(items)[start..])
    {
      var first, last := start, |items|;
      while first < last
        invariant |items| == |old(items)| && start <= first <= |items| && start <= last <= |items|
        invariant first + last == start + |items|
        invariant forall j :: 0 <= j < start || first <= j < last ==> items[j] == old(items)[j]
        invariant forall j :: start <= j < first || (last <= j < |items| && first <= j) ==>
                    items[j] == old(items)[start + |items| - 1 - j]
        decreases last - first
      {
        last := last - 1;
        var atFirst, atLast := items[first], items[last];
        items := items[first := atLast];
        items := items[last := atFirst];
        first := first + 1;
      }
    }
  }

  // ---------------------------------------------------------------- the three functions

  /** Appends the powers of mult in [lo, hi]. Every intermediate result is representable. */
  method AddPowers(t: IntType, dst: Vector, lo: int, hi: int, mult: int) returns (start: nat, ghost added: seq<int>)
    requires t.max >= 1 && t.Has(lo) && t.Has(hi)
    requires 0 <= lo <= hi && mult >= 2
    modifies dst
    ensures start == |old(dst.items)| && dst.items == old(dst.items) + added
    ensures Lists(added, (x: int) => lo <= x <= hi && IsPower(mult, x))
  {
    start := |dst.items|;
    added := [];
    var i := t.Checked(1);
    ghost var k := 0;
    while i <= hi
      invariant i == Power(mult, k) && 1 <= i && t.Has(i)
      invariant dst.items == old(dst.items) + added
      invariant Lists(added, (x: int) => PowersBelow(mult, lo, hi, k, x))
      decreases hi - i
    {
      NextPower(mult, lo, hi, k, added);
      if i >= lo {
        dst.PushBack(i);
        added := added + [i];
      }
      k := k + 1;
      PowersIncrease(mult, k - 1, k);
      if i > t.max / mult {
        TooLarge(i, mult, t.max);
        break;
      }
      FitsStill(i, mult, t.max);
      i := t.Checked(i * t.Checked(mult));
    }
    forall x
      ensures PowersBelow(mult, lo, hi, k, x) <==> lo <= x <= hi && IsPower(mult, x)
    {
      NoMorePowers(mult, lo, hi, k, x);
    }
  }

  lemma MulMonotone(a: int, b: int, c: int)
    requires 0 <= a && b <= c
    ensures a * b <= a * c
  {
    assert a * c == a * b + a * (c - b);
  }

  lemma TooLarge(i: int, mult: int, max: int)
    requires i >= 1 && mult >= 2 && max >= 1 && i > max / mult
    ensures i * mult > max
  {
    var q := max / mult;
    assert max == mult * q + max % mult;
    MulMonotone(mult, q + 1, i);
    assert mult * (q + 1) == mult * q + mult;
  }

  lemma FitsStill(i: int, mult: int, max: int)
    requires i >= 1 && mult >= 2 && max >= 1 && i <= max / mult
    ensures i * mult <= max && mult <= max
  {
    var q := max / mult;
    assert max == mult * q + max % mult;
    MulMonotone(mult, i, q);
    MulMonotone(mult, 1, i);
  }

  /** Appends the negated powers of mult in [lo, hi]. */
  method AddNegatedPowers(t: IntType, dst: Vector, lo: int, hi: int, mult: int) returns (ghost added: seq<int>)
    requires t.max >= 1 && -t.max <= lo && t.Has(hi)
    requires lo <= hi <= 0 && mult >= 2
    modifies dst
    ensures dst.items == old(dst.items) + added
    ensures Lists(added, (x: int) => lo <= x <= hi && IsPower(mult, -x))
  {
    var loComplement, hiComplement := t.Checked(-lo), t.Checked(-hi);
    var start;
    start, added := AddPowers(t, dst, hiComplement, loComplement, mult);
    NegatedRange(t, lo, hi, mult, added);
    Suffix(old(dst.items), added);
    dst.NegateFrom(t, start);
    Suffix(old(dst.items), Negated(added));
    dst.ReverseFrom(start);
    added := Reversed(Negated(added));
  }

  lemma Suffix(a: seq<int>, b: seq<int>)
    ensures (a + b)[..|a|] == a && (a + b)[|a|..] == b
    ensures forall i :: |a| <= i < |a + b| ==> (a + b)[i] in b
  {}

  lemma NegatedRange(t: IntType, lo: int, hi: int, mult: int, s: seq<int>)
    requires -t.max <= lo <= hi <= 0
    requires Lists(s, (x: int) => -hi <= x <= -lo && IsPower(mult, x))
    ensures forall x :: x in s ==> t.Has(-x)
    ensures Lists(Reversed(Negated(s)), (x: int) => lo <= x <= hi && IsPower(mult, -x))
  {
    ReversedNegated(s, (x: int) => -hi <= x <= -lo && IsPower(mult, x));
  }

  /** What lies strictly between lo and hi in a range. */
  ghost predicate IsInner(lo: int, hi: int, mult: int, x: int) {
    lo < x < hi && (x == 0 || IsPower(mult, x) || IsPower(mult, -x))
  }

  lemma PowersArePositive(mult: int, x: int)
    requires mult >= 2 && IsPower(mult, x)
    ensures x >= 1
  {
    var k: nat :| Power(mult, k) == x;
    PowerPositive(mult, k);
  }

  ghost predicate InRange(lo: int, hi: int, mult: int, x: int) {
    x == lo || x == hi || IsInner(lo, hi, mult, x)
  }

  // What has been listed once the negative numbers, zero and the positive numbers are appended.

  ghost predicate UpToNegatives(lo: int, hi: int, mult: int, x: int) {
    x == lo || (lo < x < hi && x < 0 && IsPower(mult, -x))
  }

  ghost predicate UpToZero(lo: int, hi: int, mult: int, x: int) {
    UpToNegatives(lo, hi, mult, x) || (lo < 0 <= hi && x == 0)
  }

  ghost predicate UpToPositives(lo: int, hi: int, mult: int, x: int) {
    UpToZero(lo, hi, mult, x) || (lo < x < hi && IsPower(mult, x))
  }

  lemma PowersHaveSigns(mult: int)
    requires mult >= 2
    ensures forall x :: IsPower(mult, x) ==> x >= 1
  {
    forall x | IsPower(mult, x)
      ensures x >= 1
    {
      PowersArePositive(mult, x);
    }
  }

  lemma SmallRange(lo: int, hi: int, mult: int)
    requires hi == lo || hi == lo + 1
    ensures Lists(if lo == hi then [lo] else [lo, hi], (x: int) => InRange(lo, hi, mult, x))
  {}

  lemma AppendNegatives(lo: int, hi: int, mult: int, negatives: seq<int>)
    requires mult >= 2 && lo + 1 < hi
    requires if lo + 1 < 0
             then Lists(negatives, (x: int) => lo + 1 <= x <= (if hi - 1 < -1 then hi - 1 else -1) && IsPower(mult, -x))
             else negatives == []
    ensures Lists([lo] + negatives, (x: int) => UpToNegatives(lo, hi, mult, x))
  {
    if lo + 1 < 0 {
      ListsConcat([lo], (x: int) => x == lo, negatives,
                  (x: int) => lo + 1 <= x <= (if hi - 1 < -1 then hi - 1 else -1) && IsPower(mult, -x));
    } else {
      assert [lo] + negatives == [lo];
    }
  }

  lemma AppendZero(lo: int, hi: int, mult: int, s: seq<int>, zero: seq<int>)
    requires lo + 1 < hi
    requires Lists(s, (x: int) => UpToNegatives(lo, hi, mult, x))
    requires zero == if lo < 0 && hi >= 0 then [0] else []
    ensures Lists(s + zero, (x: int) => UpToZero(lo, hi, mult, x))
  {
    if lo < 0 && hi >= 0 {
      ListsConcat(s, (x: int) => UpToNegatives(lo, hi, mult, x), zero, (x: int) => x == 0);
    } else {
      assert s + zero == s;
    }
  }

  lemma AppendPositives(lo: int, hi: int, mult: int, s: seq<int>, positives: seq<int>)
    requires mult >= 2 && lo + 1 < hi
    requires Lists(s, (x: int) => UpToZero(lo, hi, mult, x))
    requires if hi - 1 > 0
             then Lists(positives, (x: int) => (if lo + 1 > 1 then lo + 1 else 1) <= x <= hi - 1 && IsPower(mult, x))
             else positives == []
    ensures Lists(s + positives, (x: int) => UpToPositives(lo, hi, mult, x))
  {
    PowersHaveSigns(mult);
    if hi - 1 > 0 {
      ListsConcat(s, (x: int) => UpToZero(lo, hi, mult, x), positives,
                  (x: int) => (if lo + 1 > 1 then lo + 1 else 1) <= x <= hi - 1 && IsPower(mult, x));
    } else {
      assert s + positives == s;
    }
  }

  lemma AppendLast(lo: int, hi: int, mult: int, s: seq<int>)
    requires mult >= 2 && lo + 1 < hi
    requires Lists(s, (x: int) => UpToPositives(lo, hi, mult, x))
    requires s != []
    ensures Lists(if hi != s[|s| - 1] then s + [hi] else s, (x: int) => InRange(lo, hi, mult, x))
  {
    PowersHaveSigns(mult);
    assert s[|s| - 1] in s;
    if hi == 0 {
      ZeroIsLast(lo, mult, s);
    } else {
      ListsConcat(s, (x: int) => UpToPositives(lo, hi, mult, x), [hi], (x: int) => x == hi);
    }
  }

  lemma ZeroIsLast(lo: int, mult: int, s: seq<int>)
    requires mult >= 2 && lo + 1 < 0
    requires Lists(s, (x: int) => UpToPositives(lo, 0, mult, x))
    ensures s != [] && s[|s| - 1] == 0
  {
    assert UpToPositives(lo, 0, mult, 0);
    assert 0 in s;
    assert s[|s| - 1] in s;
  }

  /** Appends lo, hi and what lies between: 0 and the powers of mult and their negations, all
      in increasing order, for any lo <= hi including the extremes of the type, without overflow. */
  method AddRange(t: IntType, dst: Vector, lo: int, hi: int, mult: int) returns (ghost added: seq<int>)
    requires t.max >= 1 && t.Has(lo) && t.Has(hi)
    requires lo <= hi && mult >= 2
    modifies dst
    ensures dst.items == old(dst.items) + added
    ensures Lists(added, (x: int) => InRange(lo, hi, mult, x))
  {
    dst.PushBack(lo);
    SmallRange(lo, lo, mult);
    if lo == hi {
      return [lo];
    }
    if t.Checked(lo + 1) == hi {
      dst.PushBack(hi);
      SmallRange(lo, hi, mult);
      return [lo, hi];
    }
    added := AddInner(t, dst, lo, hi, mult);
    Regroup(old(dst.items), [lo], added);
    added := [lo] + added;
    LastOf(old(dst.items), added);
    AppendLast(lo, hi, mult, added);
    if hi != dst.items[|dst.items| - 1] {
      dst.PushBack(hi);
      Regroup(old(dst.items), added, [hi]);
      added := added + [hi];
    }
  }

  lemma LastOf(a: seq<int>, b: seq<int>)
    requires b != []
    ensures (a + b)[|a + b| - 1] == b[|b| - 1]
  {}

  /** The part of AddRange between its first and last element. */
  method AddInner(t: IntType, dst: Vector, lo: int, hi: int, mult: int) returns (ghost added: seq<int>)
    requires t.max >= 1 && t.Has(lo) && t.Has(hi)
    requires lo + 1 < hi && mult >= 2
    modifies dst
    ensures dst.items == old(dst.items) + added
    ensures Lists([lo] + added, (x: int) => UpToPositives(lo, hi, mult, x))
  {
    var loInner, hiInner := t.Checked(lo + 1), t.Checked(hi - 1);
    ghost var negatives: seq<int>, zero: seq<int>, positives: seq<int> := [], [], [];
    ghost var was := dst.items;
    if loInner < 0 {
      negatives := AddNegatedPowers(t, dst, loInner, if hiInner < -1 then hiInner else -1, mult);
    }
    AppendNegatives(lo, hi, mult, negatives);
    if lo < 0 && hi >= 0 {
      dst.PushBack(0);
      zero := [0];
    }
    AppendZero(lo, hi, mult, [lo] + negatives, zero);
    if hiInner > 0 {
      var start;
      start, positives := AddPowers(t, dst, if loInner > 1 then loInner else 1, hiInner, mult);
    }
    AppendPositives(lo, hi, mult, [lo] + negatives + zero, positives);
    added := negatives + zero + positives;
    InOrder(was, [lo], negatives, zero, positives);
  }

  lemma InOrder(was: seq<int>, first: seq<int>, a: seq<int>, b: seq<int>, c: seq<int>)
    ensures was + a + b + c == was + (a + b + c)
    ensures first + a + b + c == first + (a + b + c)
    ensures was + [] == was
  {}

  /** What is appended starts at lo and ends at hi. */
  lemma RangeEnds(lo: int, hi: int, mult: int, added: seq<int>)
    requires lo <= hi && mult >= 2
    requires Lists(added, (x: int) => InRange(lo, hi, mult, x))
    ensures added != [] && added[0] == lo && added[|added| - 1] == hi
  {
    assert InRange(lo, hi, mult, lo) && InRange(lo, hi, mult, hi);
    assert lo in added && hi in added;
    assert added[0] in added && added[|added| - 1] in added;
  }

  lemma {:induction false} PowersOfTwoBelow8(x: int)
    requires x < 8
    ensures IsPower(2, x) <==> x == 1 || x == 2 || x == 4
  {
    assert Power(2, 0) == 1 && Power(2, 1) == 2 && Power(2, 2) == 4 && Power(2, 3) == 8;
    if k: nat :| Power(2, k) == x {
      if k > 3 {
        PowersIncrease(2, 3, k);
      }
    }
  }

  /** The sparse range from -3 to 8. */
  lemma {:induction false} SmallRangeByTwo(s: seq<int>)
    requires Lists(s, (x: int) => InRange(-3, 8, 2, x))
    ensures s == [-3, -2, -1, 0, 1, 2, 4, 8]
  {
    var list := [-3, -2, -1, 0, 1, 2, 4, 8];
    forall x
      ensures x in list <==> InRange(-3, 8, 2, x)
    {
      if -3 < x < 8 {
        PowersOfTwoBelow8(x);
        PowersOfTwoBelow8(-x);
      }
    }
    ListsUnique(s, list, (x: int) => InRange(-3, 8, 2, x));
  }
}
