/** Enumerating the Cartesian product of argument lists
    (Benchmark::ArgsProduct, Vendor/benchmark/src/benchmark_register.cc). */
module ArgsProduct {
  import opened Seqs
  import R = Ranges

  type Lists = seq<seq<int>>

  predicate AllNonempty(lists: Lists) {
    forall k :: 0 <= k < |lists| ==> lists[k] != []
  }

  /** How many choices the first n lists leave. */
  function Choices(lists: Lists, n: nat): nat
    requires n <= |lists|
  {
    if n == 0 then 1 else Choices(lists, n - 1) * |lists[n - 1]|
  }

  /** The digit of list k in the mixed-radix notation of i, the first list's being lowest. */
  function Digit(lists: Lists, i: nat, k: nat): nat
    requires k < |lists|
  {
    if Choices(lists, k) == 0 || lists[k] == [] then 0 else i / Choices(lists, k) % |lists[k]|
  }

  function Digits(lists: Lists, i: nat): seq<nat> {
    seq(|lists|, k requires 0 <= k < |lists| => Digit(lists, i, k))
  }

  predicate IsChoice(lists: Lists, choice: seq<nat>) {
    |choice| == |lists| && forall k :: 0 <= k < |lists| ==> choice[k] < |lists[k]|
  }

  function Pick(lists: Lists, choice: seq<nat>): seq<int>
    requires IsChoice(lists, choice)
  {
    seq(|lists|, k requires 0 <= k < |lists| => lists[k][choice[k]])
  }

  // ---------------------------------------------------------------- arithmetic

  lemma MulStep(d: nat, a: nat, b: nat)
    ensures a < b ==> d * a + d <= d * b
  {
    if a < b {
      assert d * b == d * (a + 1) + d * (b - a - 1);
    }
  }

  lemma DivModUnique(i: nat, d: nat, q: nat, r: nat)
    requires d > 0 && i == d * q + r && r < d
    ensures i / d == q && i % d == r
  {
    MulStep(d, q, i / d);
    MulStep(d, i / d, q);
  }

  lemma Distribute(a: nat, b: nat, q: nat, r: nat)
    ensures a * (b * q + r) == (a * b) * q + a * r
  {
    assert a * (b * q + r) == a * (b * q) + a * r;
  }

  lemma MulDivMod(a: nat, b: nat, i: nat)
    requires a > 0 && b > 0
    ensures a * b > 0
    ensures i % (a * b) == i % a + a * (i / a % b)
    ensures i / a / b == i / (a * b)
  {
    var q, r := i / a, i % a;
    Compose(a, b, i, q, r, q / b, q % b);
    DivModUnique(i, a * b, q / b, a * (q % b) + r);
  }

  lemma Compose(a: nat, b: nat, i: nat, q: nat, r: nat, q2: nat, r2: nat)
    requires i == a * q + r && q == b * q2 + r2 && r < a && r2 < b
    ensures i == (a * b) * q2 + (a * r2 + r)
    ensures a * r2 + r < a * b
  {
    Distribute(a, b, q2, r2);
    MulStep(a, r2, b);
  }

  /** Counting up by one raises the quotient exactly when the remainder comes round to 0. */
  lemma NextDivMod(i: nat, d: nat)
    requires d > 0
    ensures (i + 1) / d == i / d + if (i + 1) % d == 0 then 1 else 0
    ensures (i + 1) % d == if i % d == d - 1 then 0 else i % d + 1
  {
    var q, r := i / d, i % d;
    if r == d - 1 {
      assert d * (q + 1) == d * q + d;
      DivModUnique(i + 1, d, q + 1, 0);
    } else {
      DivModUnique(i + 1, d, q, r + 1);
    }
  }

  // ---------------------------------------------------------------- counting up

  lemma {:induction false} ChoicesPositive(lists: Lists, n: nat)
    requires n <= |lists| && AllNonempty(lists)
    ensures Choices(lists, n) > 0
  {
    if n > 0 {
      ChoicesPositive(lists, n - 1);
    }
  }

  lemma {:induction false} NoneEmpty(lists: Lists, n: nat)
    requires n <= |lists| && Choices(lists, n) > 0
    ensures forall k :: 0 <= k < n ==> lists[k] != []
  {
    if n > 0 {
      NoneEmpty(lists, n - 1);
    }
  }

  /** Counting up changes digit k as the loop does: it advances, round to 0, if all lower digits
      have come round to 0, and the carry goes on exactly if it comes round itself. */
  lemma NextDigit(lists: Lists, i: nat, k: nat)
    requires k < |lists| && AllNonempty(lists)
    ensures Choices(lists, k) > 0 && Choices(lists, k + 1) > 0
    ensures Digit(lists, i + 1, k) ==
              if (i + 1) % Choices(lists, k) == 0 then (Digit(lists, i, k) + 1) % |lists[k]| else Digit(lists, i, k)
    ensures (i + 1) % Choices(lists, k + 1) == 0 <==>
            (i + 1) % Choices(lists, k) == 0 && Digit(lists, i + 1, k) == 0
  {
    ChoicesPositive(lists, k);
    ChoicesPositive(lists, k + 1);
    NextDigitOf(i, Choices(lists, k), |lists[k]|);
  }

  lemma NextDigitOf(i: nat, c: nat, n: nat)
    requires c > 0 && n > 0
    ensures c * n > 0
    ensures (i + 1) / c % n == if (i + 1) % c == 0 then (i / c % n + 1) % n else i / c % n
    ensures (i + 1) % (c * n) == 0 <==> (i + 1) % c == 0 && (i + 1) / c % n == 0
  {
    NextDivMod(i, c);
    NextMod(i / c, n);
    MulDivMod(c, n, i + 1);
    MulStep(c, 0, (i + 1) / c % n);
  }

  lemma NextMod(q: nat, n: nat)
    requires n > 0
    ensures (q + 1) % n == (q % n + 1) % n
  {
    NextDivMod(q, n);
    if q % n + 1 < n {
      DivModUnique(q % n + 1, n, 0, q % n + 1);
    } else {
      DivModUnique(n, n, 1, 0);
    }
  }

  lemma {:induction false} NoCarryBeyond(lists: Lists, i: nat, k: nat, l: nat)
    requires k <= l < |lists| && AllNonempty(lists)
    requires Choices(lists, k) > 0 && (i + 1) % Choices(lists, k) != 0
    ensures Choices(lists, l) > 0 && (i + 1) % Choices(lists, l) != 0
    ensures Digit(lists, i + 1, l) == Digit(lists, i, l)
  {
    if k < l {
      NoCarryBeyond(lists, i, k, l - 1);
      NextDigit(lists, i, l - 1);
    }
    NextDigit(lists, i, l);
  }

  lemma DigitsAtStart(lists: Lists, k: nat)
    requires k < |lists|
    ensures Digit(lists, 0, k) == 0
  {
    if Choices(lists, k) > 0 && lists[k] != [] {
      DivModUnique(0, Choices(lists, k), 0, 0);
    }
  }

  // ---------------------------------------------------------------- each choice once

  /** The number whose digits are the choice. */
  function NumberOf(lists: Lists, choice: seq<nat>, n: nat): nat
    requires n <= |lists| && |choice| == |lists|
  {
    if n == 0 then 0 else NumberOf(lists, choice, n - 1) + Choices(lists, n - 1) * choice[n - 1]
  }

  lemma {:induction false} NumberOfDigits(lists: Lists, i: nat, n: nat)
    requires n <= |lists| && AllNonempty(lists)
    ensures Choices(lists, n) > 0
    ensures NumberOf(lists, Digits(lists, i), n) == i % Choices(lists, n)
  {
    ChoicesPositive(lists, n);
    if n > 0 {
      NumberOfDigits(lists, i, n - 1);
      MulDivMod(Choices(lists, n - 1), |lists[n - 1]|, i);
    }
  }

  lemma {:induction false} NumberOfBound(lists: Lists, choice: seq<nat>, n: nat)
    requires IsChoice(lists, choice) && n <= |lists|
    ensures NumberOf(lists, choice, n) < Choices(lists, n)
  {
    if n > 0 {
      NumberOfBound(lists, choice, n - 1);
      MulStep(Choices(lists, n - 1), choice[n - 1], |lists[n - 1]|);
    }
  }

  lemma {:induction false} DigitsOfNumber(lists: Lists, choice: seq<nat>, n: nat, i: nat, k: nat)
    requires IsChoice(lists, choice) && k < n <= |lists|
    requires Choices(lists, n) > 0 && i % Choices(lists, n) == NumberOf(lists, choice, n)
    ensures Digit(lists, i, k) == choice[k]
    decreases n
  {
    NoneEmpty(lists, n);
    NoneEmpty(lists, n - 1);
    var c, m, d := Choices(lists, n - 1), |lists[n - 1]|, choice[n - 1];
    assert c > 0 && m > 0;
    MulDivMod(c, m, i);
    NumberOfBound(lists, choice, n - 1);
    // i % (c * m) written with remainder and digit in two ways
    assert i % c + c * (i / c % m) == NumberOf(lists, choice, n - 1) + c * d;
    DivModUnique(i % (c * m), c, i / c % m, i % c);
    DivModUnique(i % (c * m), c, d, NumberOf(lists, choice, n - 1));
    if k < n - 1 {
      DigitsOfNumber(lists, choice, n - 1, i, k);
    }
  }

  /** The rows are the Cartesian product, each combination once: row numbers and choices are
      in one-to-one correspondence. */
  lemma EveryChoiceOnce(lists: Lists, choice: seq<nat>)
    requires IsChoice(lists, choice)
    ensures exists i: nat :: i < Choices(lists, |lists|) && Digits(lists, i) == choice
    ensures forall i: nat, j: nat ::
              i < Choices(lists, |lists|) && j < Choices(lists, |lists|) && Digits(lists, i) == Digits(lists, j)
              ==> i == j
  {
    ChoicesPositive(lists, |lists|);
    var i := NumberOf(lists, choice, |lists|);
    NumberOfBound(lists, choice, |lists|);
    DivModUnique(i, Choices(lists, |lists|), 0, i);
    forall k | 0 <= k < |lists|
      ensures Digits(lists, i)[k] == choice[k]
    {
      DigitsOfNumber(lists, choice, |lists|, i, k);
    }
    assert Digits(lists, i) == choice;
    forall i: nat, j: nat |
      i < Choices(lists, |lists|) && j < Choices(lists, |lists|) && Digits(lists, i) == Digits(lists, j)
      ensures i == j
    {
      NumberOfDigits(lists, i, |lists|);
      NumberOfDigits(lists, j, |lists|);
      DivModUnique(i, Choices(lists, |lists|), 0, i);
      DivModUnique(j, Choices(lists, |lists|), 0, j);
    }
  }

  // ---------------------------------------------------------------- the method

  /** Row i picks from each list by the digits of i. */
  function Row(lists: Lists, i: nat): seq<int>
    requires AllNonempty(lists)
  {
    DigitsAreChoice(lists, i);
    Pick(lists, Digits(lists, i))
  }

  lemma DigitsAreChoice(lists: Lists, i: nat)
    requires AllNonempty(lists)
    ensures IsChoice(lists, Digits(lists, i))
  {
    forall k | 0 <= k < |lists|
      ensures Digits(lists, i)[k] < |lists[k]|
    {
      ChoicesPositive(lists, k);
    }
  }

  /** The first n rows. */
  function Rows(lists: Lists, n: nat): (rows: seq<seq<int>>)
    requires n > 0 ==> AllNonempty(lists)
    ensures |rows| == n && forall i :: 0 <= i < n ==> rows[i] == Row(lists, i)
  {
    if n == 0 then [] else Rows(lists, n - 1) + [Row(lists, n - 1)]
  }

  /** Number i stands for this choice: its index into list k is i over the number of choices that the
      lists before k leave, modulo the length of list k. */
  ghost predicate StandsFor(lists: Lists, i: nat, choice: seq<nat>) {
    && |choice| == |lists|
    && forall k :: 0 <= k < |lists| ==>
         Choices(lists, k) > 0 && lists[k] != [] && choice[k] == i / Choices(lists, k) % |lists[k]|
  }

  /** The row has the chosen element of each list. */
  ghost predicate Picks(lists: Lists, choice: seq<nat>, row: seq<int>) {
    && |choice| == |row| == |lists|
    && forall k :: 0 <= k < |lists| ==> choice[k] < |lists[k]| && row[k] == lists[k][choice[k]]
  }

  /** Row i, and no other, stands for the choice and has its elements. */
  ghost predicate OnlyRowOf(lists: Lists, rows: seq<seq<int>>, choice: seq<nat>, i: nat) {
    && i < |rows| && StandsFor(lists, i, choice) && Picks(lists, choice, rows[i])
    && forall j: nat :: j < |rows| && StandsFor(lists, j, choice) ==> j == i
  }

  /** The rows are the combinations of one element of each list: each row stands for a choice of
      indices and has its elements, and each choice has just one row. */
  ghost predicate EachChoiceOnce(lists: Lists, rows: seq<seq<int>>) {
    && |rows| == Choices(lists, |lists|)
    && (forall i :: 0 <= i < |rows| ==> HasChoice(lists, rows, i))
    && (forall choice :: IsChoice(lists, choice) ==> HasOneRow(lists, rows, choice))
  }

  ghost predicate HasChoice(lists: Lists, rows: seq<seq<int>>, i: nat) {
    exists choice :: OnlyRowOf(lists, rows, choice, i)
  }

  ghost predicate HasOneRow(lists: Lists, rows: seq<seq<int>>, choice: seq<nat>) {
    exists i :: OnlyRowOf(lists, rows, choice, i)
  }

  lemma {:induction false} StandsForIff(lists: Lists, i: nat, choice: seq<nat>)
    requires AllNonempty(lists)
    ensures StandsFor(lists, i, choice) <==> choice == Digits(lists, i)
  {
    forall k | 0 <= k < |lists|
      ensures Choices(lists, k) > 0 && lists[k] != [] && Digits(lists, i)[k] == i / Choices(lists, k) % |lists[k]|
    {
      ChoicesPositive(lists, k);
    }
    if StandsFor(lists, i, choice) {
      assert choice == Digits(lists, i);
    }
  }

  lemma {:induction false} OnlyRowOfDigits(lists: Lists, n: nat, i: nat)
    requires AllNonempty(lists) && n == Choices(lists, |lists|) && i < n
    ensures OnlyRowOf(lists, Rows(lists, n), Digits(lists, i), i)
  {
    DigitsAreChoice(lists, i);
    StandsForIff(lists, i, Digits(lists, i));
    EveryChoiceOnce(lists, Digits(lists, i));
    forall j: nat | j < n && StandsFor(lists, j, Digits(lists, i))
      ensures j == i
    {
      StandsForIff(lists, j, Digits(lists, i));
    }
  }

  /** The rows appended are the Cartesian product. */
  lemma {:induction false} RowsAreProduct(lists: Lists, n: nat)
    requires n == Choices(lists, |lists|)
    requires n > 0 ==> AllNonempty(lists)
    ensures EachChoiceOnce(lists, Rows(lists, n))
  {
    forall i | 0 <= i < n
      ensures HasChoice(lists, Rows(lists, n), i)
    {
      OnlyRowOfDigits(lists, n, i);
    }
    forall choice | IsChoice(lists, choice)
      ensures HasOneRow(lists, Rows(lists, n), choice)
    {
      EveryChoiceOnce(lists, choice);
      var i: nat :| i < n && Digits(lists, i) == choice;
      OnlyRowOfDigits(lists, n, i);
    }
  }

  class Benchmark {
    var args: seq<seq<int>>
    var argNames: seq<string>

    constructor ()
      ensures args == [] && argNames == []
    {
      args, argNames := [], [];
    }

    /** The number of arguments per row settled so far, -1 if none is. */
    function ArgsCnt(): int
      reads this
    {
      if args == [] then (if argNames == [] then -1 else |argNames|) else |args[0]|
    }

    /** Appends every combination of one element from each list, once, the first list varying
        fastest. If there is no list at all, the carry after the one, empty row would read index 0
        of nothing; ok tells that this did not happen. */
    method ArgsProduct(arglists: Lists) returns (ok: bool)
      requires ArgsCnt() == -1 || ArgsCnt() == |arglists|
      modifies this`args
      ensures ok <==> arglists != []
      ensures Choices(arglists, |arglists|) > 0 ==> AllNonempty(arglists)
      ensures args == old(args) + Rows(arglists, Choices(arglists, |arglists|))
      ensures EachChoiceOnce(arglists, args[|old(args)|..])
    {
      var indices := new nat[|arglists|](_ => 0);
      var total := Product(arglists);
      if total > 0 {
        NoneEmpty(arglists, |arglists|);
      }
      AllDigitsAtStart(arglists);
      for i := 0 to total
        invariant i > 0 ==> arglists != []
        invariant args == old(args) + Rows(arglists, i)
        invariant indices[..] == Digits(arglists, i)
      {
        DigitsAreChoice(arglists, i);
        var row := PickRow(arglists, indices);
        Regroup(old(args), Rows(arglists, i), [row]);
        args := args + [row];
        ok := Advance(arglists, indices, i);
        if !ok {
          RowsAreProduct(arglists, total);
          SuffixIsAdded(old(args), Rows(arglists, total));
          return false;
        }
      }
      RowsAreProduct(arglists, total);
      SuffixIsAdded(old(args), Rows(arglists, total));
      return true;
    }

    /** The product of sparse ranges: list k holds exactly what AddRange makes of the bounds at k. */
    method Ranges(t: R.IntType, ranges: seq<(int, int)>, mult: int) returns (ok: bool, ghost arglists: Lists)
      requires ArgsCnt() == -1 || ArgsCnt() == |ranges|
      requires mult >= 2 && t.max >= 1
      requires forall k :: 0 <= k < |ranges| ==> BoundsOk(t, ranges[k])
      modifies this`args
      ensures ok <==> ranges != []
      ensures |arglists| == |ranges| && forall k :: 0 <= k < |ranges| ==> IsRange(ranges[k], mult, arglists[k])
      ensures AllNonempty(arglists)
      ensures args == old(args) + Rows(arglists, Choices(arglists, |arglists|))
      ensures EachChoiceOnce(arglists, args[|old(args)|..])
    {
      var lists: Lists := [];
      for k := 0 to |ranges|
        invariant args == old(args)
        invariant |lists| == k && forall j :: 0 <= j < k ==> IsRange(ranges[j], mult, lists[j])
      {
        var dst := new R.Vector();
        ghost var added := R.AddRange(t, dst, ranges[k].0, ranges[k].1, mult);
        assert dst.items == added;
        lists := lists + [dst.items];
      }
      forall k | 0 <= k < |lists|
        ensures lists[k] != []
      {
        RangeIsNotEmpty(ranges[k], mult, lists[k]);
      }
      ok := ArgsProduct(lists);
      arglists := lists;
    }
  }

  lemma SuffixIsAdded<T>(s: seq<T>, added: seq<T>)
    ensures (s + added)[|s|..] == added
  {}

  predicate BoundsOk(t: R.IntType, bounds: (int, int)) {
    t.Has(bounds.0) && t.Has(bounds.1) && bounds.0 <= bounds.1
  }

  ghost predicate IsRange(bounds: (int, int), mult: int, list: seq<int>) {
    R.Lists(list, (x: int) => R.InRange(bounds.0, bounds.1, mult, x))
  }

  lemma RangeIsNotEmpty(bounds: (int, int), mult: int, list: seq<int>)
    requires IsRange(bounds, mult, list)
    ensures list != []
  {
    assert R.InRange(bounds.0, bounds.1, mult, bounds.0);
    assert bounds.0 in list;
  }

  /** With no lists, or no ranges, there still is one row, the empty one; after it the carry fails. */
  method RangesOfNothing(benchmark: Benchmark, t: R.IntType) returns (ok: bool)
    requires benchmark.ArgsCnt() == -1 || benchmark.ArgsCnt() == 0
    requires t.max >= 1
    modifies benchmark`args
    ensures !ok
    ensures benchmark.args == old(benchmark.args) + [[]]
  {
    ghost var lists: Lists;
    ok, lists := benchmark.Ranges(t, [], 2);
    NoListsOneRow();
  }

  lemma NoListsOneRow()
    ensures Choices([], 0) == 1 && Rows([], 1) == [[]]
  {
    assert Row([], 0) == [];
  }

  lemma AllDigitsAtStart(lists: Lists)
    ensures Digits(lists, 0) == seq(|lists|, _ => 0)
  {
    forall k | 0 <= k < |lists|
      ensures Digit(lists, 0, k) == 0
    {
      DigitsAtStart(lists, k);
    }
  }

  method Product(lists: Lists) returns (total: nat)
    ensures total == Choices(lists, |lists|)
  {
    total := 1;
    for n := 0 to |lists|
      invariant total == Choices(lists, n)
    {
      total := total * |lists[n]|;
    }
  }

  method PickRow(lists: Lists, indices: array<nat>) returns (row: seq<int>)
    requires indices.Length == |lists| && IsChoice(lists, indices[..])
    ensures row == Pick(lists, indices[..])
  {
    row := [];
    for arg := 0 to |lists|
      invariant row == Pick(lists, indices[..])[..arg]
    {
      row := row + [lists[arg][indices[arg]]];
    }
  }

  /** Counts the indices up by one, carrying upwards; after the last row they are all 0 again. The
      first index is advanced before the number of lists is looked at; ok tells that there is one. */
  method Advance(lists: Lists, indices: array<nat>, ghost i: nat) returns (ok: bool)
    requires indices.Length == |lists|
    requires AllNonempty(lists)
    requires indices[..] == Digits(lists, i)
    modifies indices
    ensures ok <==> lists != []
    ensures indices[..] == Digits(lists, i + 1)
  {
    assert forall k :: 0 <= k < |lists| ==> indices[k] == indices[..][k] == Digit(lists, i, k);
    var arg := 0;
    var again := true;
    assert (i + 1) % Choices(lists, 0) == 0 by { DivModUnique(i + 1, 1, i + 1, 0); }
    while again
      invariant 0 <= arg <= |lists|
      invariant again ==> arg == 0 || arg < |lists|
      invariant arg == 0 ==> again
      invariant forall k :: 0 <= k < arg ==> indices[k] == Digit(lists, i + 1, k)
      invariant forall k :: arg <= k < |lists| ==> indices[k] == Digit(lists, i, k)
      invariant Choices(lists, arg) > 0
      invariant again ==> (i + 1) % Choices(lists, arg) == 0
      invariant !again ==> arg == |lists| || (i + 1) % Choices(lists, arg) != 0
      decreases |lists| - arg, again
    {
      if arg >= |lists| {
        return false;
      }
      NextDigit(lists, i, arg);
      indices[arg] := (indices[arg] + 1) % |lists[arg]|;
      again := indices[arg] == 0 && arg + 1 < |lists|;
      arg := arg + 1;
    }
    forall k | arg <= k < |lists|
      ensures indices[k] == Digit(lists, i + 1, k)
    {
      NoCarryBeyond(lists, i, arg, k);
    }
    return true;
  }

  /** After the last row every index is back to 0. */
  lemma IndicesReturnToZero(lists: Lists, k: nat)
    requires k < |lists| && AllNonempty(lists)
    ensures Digit(lists, Choices(lists, |lists|), k) == 0
  {
    ChoicesPositive(lists, |lists|);
    ChoicesPositive(lists, k);
    var c, n := Choices(lists, k), |lists[k]|;
    var m := Beyond(lists, k + 1, |lists|);
    assert c * n * m == c * (n * m) + 0;
    DivModUnique(c * n * m, c, n * m, 0);
    DivModUnique(n * m, n, m, 0);
  }

  lemma {:induction false} Beyond(lists: Lists, k: nat, n: nat) returns (m: nat)
    requires k <= n <= |lists|
    ensures Choices(lists, n) == Choices(lists, k) * m
  {
    if k == n {
      m := 1;
    } else {
      m := Beyond(lists, k, n - 1);
      assert Choices(lists, k) * m * |lists[n - 1]| == Choices(lists, k) * (m * |lists[n - 1]|);
      m := m * |lists[n - 1]|;
    }
  }
}
