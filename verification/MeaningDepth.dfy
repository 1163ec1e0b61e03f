/** How deep types have to be unfolded to tell whether they mean the same: the purge preserves
    meaning under a condition that can be computed from the table. */
module MeaningDepth {
  import opened Sets
  import opened Symbols
  import opened Purge

  ghost predicate EqualTo(types: TypeTable, a: u32, b: u32, depth: nat) {
    Unfold(types, a, depth) == Unfold(types, b, depth)
  }

  /** Two types agree to depth n + 1 exactly when their own parts agree and what they refer to
      agrees to depth n. */
  ghost predicate PartsEqual(types: TypeTable, a: TypeSymbol, b: TypeSymbol, n: nat) {
    && a.name == b.name && a.length == b.length && a.fieldCount == b.fieldCount
    && EqualTo(types, a.typedefSource, b.typedefSource, n)
    && |a.fields| == |b.fields|
    && forall i :: 0 <= i < |a.fields| ==> FieldsEqual(types, a.fields[i], b.fields[i], n)
  }

  ghost predicate FieldsEqual(types: TypeTable, f: FieldSymbol, g: FieldSymbol, n: nat) {
    && f.name == g.name && f.offset == g.offset && f.isAnonymousUnion == g.isAnonymousUnion
    && f.unionId == g.unionId && EqualTo(types, f.underlyingTypeId, g.underlyingTypeId, n)
  }

  lemma {:induction false} EqualByParts(types: TypeTable, a: u32, b: u32, n: nat)
    requires a in types && b in types
    ensures EqualTo(types, a, b, n + 1) <==> PartsEqual(types, types[a], types[b], n)
  {
    var s, t := types[a], types[b];
    var m, k := UnfoldType(types, s, n + 1), UnfoldType(types, t, n + 1);
    if m == k {
      forall i | 0 <= i < |s.fields|
        ensures FieldsEqual(types, s.fields[i], t.fields[i], n)
      {
        assert m.fields[i] == UnfoldField(types, s.fields[i], n);
        assert k.fields[i] == UnfoldField(types, t.fields[i], n);
      }
    }
    if PartsEqual(types, s, t, n) {
      forall i | 0 <= i < |s.fields|
        ensures m.fields[i] == k.fields[i]
      {
        assert FieldsEqual(types, s.fields[i], t.fields[i], n);
        assert m.fields[i] == UnfoldField(types, s.fields[i], n);
        assert k.fields[i] == UnfoldField(types, t.fields[i], n);
      }
      assert m.fields == k.fields;
    }
  }

  /** An id that names no type agrees with no other, to any depth. */
  lemma {:induction false} AbsentIsAlone(types: TypeTable, a: u32, b: u32, n: nat)
    requires n > 0 && EqualTo(types, a, b, n)
    ensures (a in types && b in types) || a == b
  {
    assert a in types ==> UnfoldType(types, types[a], n).Denotes?;
    assert b in types ==> UnfoldType(types, types[b], n).Denotes?;
  }

  /** What agrees to some depth agrees to every smaller one. */
  lemma {:induction false} EqualLessDeep(types: TypeTable, a: u32, b: u32, n: nat)
    requires EqualTo(types, a, b, n + 1)
    ensures EqualTo(types, a, b, n)
    decreases n
  {
    AbsentIsAlone(types, a, b, n + 1);
    if n > 0 && a in types && b in types {
      EqualByParts(types, a, b, n);
      EqualByParts(types, a, b, n - 1);
      var s, t := types[a], types[b];
      EqualLessDeep(types, s.typedefSource, t.typedefSource, n - 1);
      forall i | 0 <= i < |s.fields|
        ensures FieldsEqual(types, s.fields[i], t.fields[i], n - 1)
      {
        assert FieldsEqual(types, s.fields[i], t.fields[i], n);
        EqualLessDeep(types, s.fields[i].underlyingTypeId, t.fields[i].underlyingTypeId, n - 1);
      }
    }
  }

  // ---------------------------------------------------------------- meaning without depths

  /** a and b are one id that names no type, or types that agree in what operator== compares but for
      references, and those are to related ids. */
  ghost predicate Agree(types: TypeTable, related: iset<(u32, u32)>, a: u32, b: u32) {
    if a !in types || b !in types then a == b
    else AgreeingTypes(related, types[a], types[b])
  }

  ghost predicate AgreeingTypes(related: iset<(u32, u32)>, s: TypeSymbol, t: TypeSymbol) {
    && s.name == t.name && s.length == t.length && s.fieldCount == t.fieldCount
    && (s.typedefSource, t.typedefSource) in related && |s.fields| == |t.fields|
    && forall i :: 0 <= i < |s.fields| ==> AgreeingFields(related, s.fields[i], t.fields[i])
  }

  ghost predicate AgreeingFields(related: iset<(u32, u32)>, f: FieldSymbol, g: FieldSymbol) {
    && f.name == g.name && f.offset == g.offset && f.isAnonymousUnion == g.isAnonymousUnion
    && f.unionId == g.unionId && (f.underlyingTypeId, g.underlyingTypeId) in related
  }

  /** Whatever a relation agrees on level by level means the same. */
  lemma {:induction false} AgreeingMeansSame(types: TypeTable, related: iset<(u32, u32)>, a: u32, b: u32, n: nat)
    requires forall x, y :: (x, y) in related ==> Agree(types, related, x, y)
    requires (a, b) in related
    ensures EqualTo(types, a, b, n)
    decreases n
  {
    assert Agree(types, related, a, b);
    if n > 0 && a in types && b in types {
      var s, t := types[a], types[b];
      AgreeingMeansSame(types, related, s.typedefSource, t.typedefSource, n - 1);
      forall i | 0 <= i < |s.fields|
        ensures FieldsEqual(types, s.fields[i], t.fields[i], n - 1)
      {
        assert AgreeingFields(related, s.fields[i], t.fields[i]);
        AgreeingMeansSame(types, related, s.fields[i].underlyingTypeId, t.fields[i].underlyingTypeId, n - 1);
      }
      EqualByParts(types, a, b, n - 1);
    }
  }

  ghost function SameMeaningPairs(types: TypeTable): iset<(u32, u32)> {
    iset a: u32, b: u32 | SameMeaning(types, a, b) :: (a, b)
  }

  lemma {:induction false} PartsMeanSame(types: TypeTable, a: u32, b: u32)
    requires SameMeaning(types, a, b) && a in types && b in types
    ensures PartsEqual(types, types[a], types[b], 0)
    ensures SameMeaning(types, types[a].typedefSource, types[b].typedefSource)
  {
    forall depth: nat
      ensures Unfold(types, types[a].typedefSource, depth) == Unfold(types, types[b].typedefSource, depth)
      ensures PartsEqual(types, types[a], types[b], depth)
    {
      assert Unfold(types, a, depth + 1) == Unfold(types, b, depth + 1);
      EqualByParts(types, a, b, depth);
    }
  }

  lemma {:induction false} FieldTypesMeanSame(types: TypeTable, a: u32, b: u32, i: nat)
    requires SameMeaning(types, a, b) && a in types && b in types
    requires i < |types[a].fields| == |types[b].fields|
    ensures SameMeaning(types, types[a].fields[i].underlyingTypeId, types[b].fields[i].underlyingTypeId)
  {
    var f, g := types[a].fields[i], types[b].fields[i];
    forall depth: nat
      ensures Unfold(types, f.underlyingTypeId, depth) == Unfold(types, g.underlyingTypeId, depth)
    {
      assert Unfold(types, a, depth + 1) == Unfold(types, b, depth + 1);
      EqualByParts(types, a, b, depth);
      assert FieldsEqual(types, f, g, depth);
    }
  }

  lemma {:induction false} SameMeaningAgrees(types: TypeTable, a: u32, b: u32)
    requires SameMeaning(types, a, b)
    ensures Agree(types, SameMeaningPairs(types), a, b)
  {
    assert Unfold(types, a, 1) == Unfold(types, b, 1);
    AbsentIsAlone(types, a, b, 1);
    if a in types && b in types {
      var s, t := types[a], types[b];
      PartsMeanSame(types, a, b);
      forall i | 0 <= i < |s.fields|
        ensures AgreeingFields(SameMeaningPairs(types), s.fields[i], t.fields[i])
      {
        assert FieldsEqual(types, s.fields[i], t.fields[i], 0);
        FieldTypesMeanSame(types, a, b, i);
      }
    }
  }

  /** Meaning the same is the largest relation that agrees level by level: two ids mean the same if and
      only if some such relation holds of them. */
  lemma {:induction false} SameMeaningIsLargest(types: TypeTable, a: u32, b: u32)
    ensures SameMeaning(types, a, b) <==>
            exists related: iset<(u32, u32)> ::
              (a, b) in related && forall x, y :: (x, y) in related ==> Agree(types, related, x, y)
  {
    if SameMeaning(types, a, b) {
      var pairs := SameMeaningPairs(types);
      forall x, y | (x, y) in pairs
        ensures Agree(types, pairs, x, y)
      {
        SameMeaningAgrees(types, x, y);
      }
      assert (a, b) in pairs;
    }
    if related: iset<(u32, u32)> :|
      (a, b) in related && forall x, y :: (x, y) in related ==> Agree(types, related, x, y)
    {
      forall depth: nat
        ensures Unfold(types, a, depth) == Unfold(types, b, depth)
      {
        AgreeingMeansSame(types, related, a, b, depth);
      }
    }
  }

  /** No two ids that agree to depth n are told apart one level deeper. */
  ghost predicate Settled(types: TypeTable, n: nat) {
    forall a, b :: EqualTo(types, a, b, n) ==> EqualTo(types, a, b, n + 1)
  }

  lemma {:induction false} SettledOneDeeper(types: TypeTable, a: u32, b: u32, n: nat)
    requires Settled(types, n) && EqualTo(types, a, b, n + 1)
    ensures EqualTo(types, a, b, n + 2)
  {
    AbsentIsAlone(types, a, b, n + 1);
    if a in types && b in types {
      EqualByParts(types, a, b, n);
      EqualByParts(types, a, b, n + 1);
      var s, t := types[a], types[b];
      forall i | 0 <= i < |s.fields|
        ensures FieldsEqual(types, s.fields[i], t.fields[i], n + 1)
      {
        assert FieldsEqual(types, s.fields[i], t.fields[i], n);
      }
    }
  }

  lemma {:induction false} StaysSettled(types: TypeTable, n: nat)
    requires Settled(types, n)
    ensures Settled(types, n + 1)
  {
    var m := n + 1;
    forall a, b | EqualTo(types, a, b, m)
      ensures EqualTo(types, a, b, m + 1)
    {
      SettledOneDeeper(types, a, b, n);
    }
  }

  lemma {:induction false} SettledFromThere(types: TypeTable, a: u32, b: u32, n: nat, m: nat)
    requires Settled(types, n) && EqualTo(types, a, b, n) && n <= m
    ensures EqualTo(types, a, b, m)
    decreases m - n
  {
    if n < m {
      StaysSettled(types, n);
      SettledFromThere(types, a, b, n + 1, m);
    }
  }

  lemma {:induction false} EqualAtAnyLesser(types: TypeTable, a: u32, b: u32, n: nat, m: nat)
    requires EqualTo(types, a, b, n) && m <= n
    ensures EqualTo(types, a, b, m)
    decreases n
  {
    if m < n {
      EqualLessDeep(types, a, b, n - 1);
      EqualAtAnyLesser(types, a, b, n - 1, m);
    }
  }

  // ---------------------------------------------------------------- counting classes

  /** The smallest id of every class of types that agree to depth n. */
  ghost predicate IsFirst(types: TypeTable, id: u32, n: nat) {
    id in types && forall other :: other in types && other < id ==> !EqualTo(types, other, id, n)
  }

  ghost function Firsts(types: TypeTable, n: nat): set<u32> {
    set id | id in types && IsFirst(types, id, n)
  }

  lemma {:induction false} FirstOf(types: TypeTable, id: u32, n: nat) returns (first: u32)
    requires id in types
    ensures IsFirst(types, first, n) && EqualTo(types, first, id, n)
    decreases id
  {
    first := id;
    if other :| other in types && other < id && EqualTo(types, other, id, n) {
      first := FirstOf(types, other, n);
    }
  }

  lemma {:induction false} FirstIsUnique(types: TypeTable, a: u32, b: u32, n: nat)
    requires IsFirst(types, a, n) && IsFirst(types, b, n) && EqualTo(types, a, b, n)
    ensures a == b
  {
    assert EqualTo(types, b, a, n);
  }

  lemma {:induction false} FirstsGrow(types: TypeTable, n: nat)
    ensures Firsts(types, n) <= Firsts(types, n + 1)
  {
    forall id | id in Firsts(types, n)
      ensures id in Firsts(types, n + 1)
    {
      forall other | other in types && other < id
        ensures !EqualTo(types, other, id, n + 1)
      {
        if EqualTo(types, other, id, n + 1) {
          EqualLessDeep(types, other, id, n);
        }
      }
    }
  }

  /** If going one level deeper finds no new class, it tells nothing apart. */
  lemma {:induction false} NoNewClass(types: TypeTable, a: u32, b: u32, n: nat)
    requires Firsts(types, n) == Firsts(types, n + 1)
    requires a in types && b in types && EqualTo(types, a, b, n)
    ensures EqualTo(types, a, b, n + 1)
  {
    var fa := FirstOf(types, a, n + 1);
    var fb := FirstOf(types, b, n + 1);
    EqualLessDeep(types, fa, a, n);
    EqualLessDeep(types, fb, b, n);
    assert fa in Firsts(types, n + 1) && fb in Firsts(types, n + 1);
    FirstIsUnique(types, fa, fb, n);
  }

  lemma {:induction false} SettledOrMore(types: TypeTable, n: nat)
    requires n > 0
    ensures Settled(types, n) || |Firsts(types, n + 1)| > |Firsts(types, n)|
  {
    FirstsGrow(types, n);
    SubsetSize(Firsts(types, n), Firsts(types, n + 1));
    if Firsts(types, n) == Firsts(types, n + 1) {
      forall a, b | EqualTo(types, a, b, n)
        ensures EqualTo(types, a, b, n + 1)
      {
        AbsentIsAlone(types, a, b, n);
        if a in types && b in types {
          NoNewClass(types, a, b, n);
        }
      }
    }
  }

  lemma {:induction false} SettledOrMany(types: TypeTable, n: nat)
    requires n > 0 && types != map[]
    ensures Settled(types, n) || |Firsts(types, n)| >= n
  {
    if n == 1 {
      var id :| id in types;
      var first := FirstOf(types, id, 1);
      assert first in Firsts(types, 1);
    } else {
      SettledOrMany(types, n - 1);
      if Settled(types, n - 1) {
        StaysSettled(types, n - 1);
      } else {
        SettledOrMore(types, n - 1);
      }
    }
  }

  /** Unfolding as deep as the table has types tells apart all that can be told apart. */
  lemma {:induction false} SettledAtSize(types: TypeTable)
    requires types != map[]
    ensures Settled(types, |types|)
  {
    var n := |types|;
    SettledOrMany(types, n);
    if !Settled(types, n) {
      FirstsGrow(types, n);
      SettledOrMore(types, n);
      SubsetSize(Firsts(types, n + 1), types.Keys);
    }
  }

  /** Two types mean the same exactly when they agree down to as many levels as there are types. */
  lemma {:induction false} SameMeaningIff(types: TypeTable, a: u32, b: u32)
    requires a in types
    ensures SameMeaning(types, a, b) <==> EqualTo(types, a, b, |types|)
  {
    if EqualTo(types, a, b, |types|) {
      SettledAtSize(types);
      forall depth: nat
        ensures Unfold(types, a, depth) == Unfold(types, b, depth)
      {
        if depth <= |types| {
          EqualAtAnyLesser(types, a, b, |types|, depth);
        } else {
          SettledFromThere(types, a, b, |types|, depth);
        }
        assert EqualTo(types, a, b, depth);
      }
    }
  }

  /** Types of equal hash agree down to as many levels as there are types. */
  ghost predicate FaithfulToDepth(h: StdHash, types: TypeTable) {
    forall a, b :: a in types && b in types && TypeHash(h, types[a]) == TypeHash(h, types[b])
      ==> EqualTo(types, a, b, |types|)
  }

  lemma {:induction false} FaithfulIffToDepth(h: StdHash, types: TypeTable)
    ensures HashesAreFaithful(h, types) <==> FaithfulToDepth(h, types)
  {
    forall a, b | a in types && b in types
      ensures SameMeaning(types, a, b) <==> EqualTo(types, a, b, |types|)
    {
      SameMeaningIff(types, a, b);
    }
  }

  /** The condition under which a purge preserves every meaning, for any iteration order, as one
      that a caller can evaluate: finitely many pairs, unfolded to a bounded depth. */
  lemma {:induction false} PurgePreservesMeaningIffToDepth(h: StdHash, types: TypeTable, order: seq<u32>)
    requires IsOrder(types, order)
    ensures PurgePreservesMeaning(h, types, order) <==> FaithfulToDepth(h, types)
  {
    PurgePreservesMeaningIff(h, types, order);
    FaithfulIffToDepth(h, types);
  }
}
