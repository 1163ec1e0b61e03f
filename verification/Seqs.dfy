/** Regrouping sequences. */
module Seqs {

  lemma TakeOneMore<T>(s: seq<T>, n: nat)
    requires n < |s|
    ensures s[..n + 1] == s[..n] + [s[n]]
  {}

  lemma Regroup<T>(a: seq<T>, b: seq<T>, c: seq<T>)
    ensures (a + b) + c == a + (b + c)
  {}

  function Sum<T>(weight: T -> nat, s: seq<T>): nat {
    if s == [] then 0 else Sum(weight, s[..|s| - 1]) + weight(s[|s| - 1])
  }

  lemma {:induction false} SumAfterUpdate<T>(weight: T -> nat, s: seq<T>, i: nat, x: T)
    requires i < |s|
    ensures Sum(weight, s[i := x]) == Sum(weight, s) - weight(s[i]) + weight(x)
    ensures Sum(weight, s) >= weight(s[i])
  {
    var shorter := s[..|s| - 1];
    if i < |s| - 1 {
      assert s[i := x][..|s| - 1] == shorter[i := x];
      SumAfterUpdate(weight, shorter, i, x);
    } else {
      assert s[i := x][..|s| - 1] == shorter;
    }
  }

  lemma {:induction false} SameSum<T>(weight: T -> nat, s: seq<T>, t: seq<T>)
    requires |s| == |t| && forall i :: 0 <= i < |s| ==> weight(s[i]) == weight(t[i])
    ensures Sum(weight, s) == Sum(weight, t)
  {
    if s != [] {
      SameSum(weight, s[..|s| - 1], t[..|t| - 1]);
    }
  }

  lemma {:induction false} SumBound<T>(weight: T -> nat, s: seq<T>, most: nat)
    requires forall i :: 0 <= i < |s| ==> weight(s[i]) <= most
    ensures Sum(weight, s) <= most * |s|
  {
    if s != [] {
      SumBound(weight, s[..|s| - 1], most);
    }
  }
}
