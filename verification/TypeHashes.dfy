/** What the hash of a type depends on, and so which types a purge merges
    (Components/UniversalSymbolsFormat/USYM.h and USYM.cpp). */
module TypeHashes {
  import opened Symbols
  import opened Purge

  // ---------------------------------------------------------------- exclusive or

  lemma {:induction false} XorByBits(a: nat, b: nat)
    ensures Xor(a, b) % 2 == (a + b) % 2
    ensures Xor(a, b) / 2 == Xor(a / 2, b / 2)
  {}

  lemma {:induction false} SameBits(a: nat, b: nat)
    requires (Odd(a) <==> Odd(b)) && a / 2 == b / 2
    ensures a == b
  {}

  lemma {:induction false} XorCommutes(a: nat, b: nat)
    ensures Xor(a, b) == Xor(b, a)
    decreases a + b
  {
    if a > 0 && b > 0 {
      XorCommutes(a / 2, b / 2);
    }
  }

  predicate Odd(a: nat) {
    a % 2 == 1
  }

  lemma {:induction false} XorOdd(a: nat, b: nat)
    ensures Odd(Xor(a, b)) <==> Odd(a) != Odd(b)
  {
    XorByBits(a, b);
  }

  lemma {:induction false} LastBitAssociates(a: nat, b: nat, c: nat)
    ensures Odd(Xor(Xor(a, b), c)) <==> Odd(Xor(a, Xor(b, c)))
  {
    XorOdd(a, b);
    XorOdd(b, c);
    XorOdd(Xor(a, b), c);
    XorOdd(a, Xor(b, c));
  }

  lemma {:induction false} XorAssociates(a: nat, b: nat, c: nat)
    ensures Xor(Xor(a, b), c) == Xor(a, Xor(b, c))
    decreases a + b + c
  {
    if a > 0 && b > 0 && c > 0 {
      XorAssociates(a / 2, b / 2, c / 2);
      var ab, bc := Xor(a, b), Xor(b, c);
      XorByBits(a, b);
      XorByBits(b, c);
      XorByBits(ab, c);
      XorByBits(a, bc);
      LastBitAssociates(a, b, c);
      SameBits(Xor(ab, c), Xor(a, bc));
    }
  }

  lemma {:induction false} XorSelf(a: nat)
    ensures Xor(a, a) == 0
  {
    if a > 0 {
      XorSelf(a / 2);
    }
  }

  lemma {:induction false} XorCancels(a: nat, b: nat, c: nat)
    ensures Xor(a, b) == Xor(a, c) <==> b == c
    ensures Xor(b, a) == Xor(c, a) <==> b == c
  {
    XorAssociates(a, a, b);
    XorAssociates(a, a, c);
    XorSelf(a);
    XorCommutes(a, b);
    XorCommutes(a, c);
  }

  lemma {:induction false} XorSwaps(a: nat, b: nat, c: nat)
    ensures Xor(Xor(a, b), c) == Xor(Xor(a, c), b)
  {
    XorAssociates(a, b, c);
    XorCommutes(b, c);
    XorAssociates(a, c, b);
  }

  // ---------------------------------------------------------------- what the hash depends on

  lemma {:induction false} StartComesOut(h: StdHash, start: nat, fields: seq<FieldSymbol>)
    ensures WithFields(h, start, fields) == Xor(WithFields(h, 0, fields), start)
  {
    if fields != [] {
      var most, last := fields[..|fields| - 1], h.ofU32(fields[|fields| - 1].underlyingTypeId);
      StartComesOut(h, start, most);
      XorSwaps(WithFields(h, 0, most), start, last);
    }
  }

  lemma {:induction false} FieldsHashEqualIff(h: StdHash, start: nat, fields: seq<FieldSymbol>, i: nat, f: FieldSymbol)
    requires i < |fields|
    ensures WithFields(h, start, fields[i := f]) == WithFields(h, start, fields) <==>
            h.ofU32(f.underlyingTypeId) == h.ofU32(fields[i].underlyingTypeId)
  {
    var most, last := fields[..|fields| - 1], h.ofU32(fields[|fields| - 1].underlyingTypeId);
    if i == |fields| - 1 {
      assert fields[i := f][..|fields| - 1] == most;
      XorCancels(WithFields(h, start, most), h.ofU32(f.underlyingTypeId), last);
    } else {
      assert fields[i := f][..|fields| - 1] == most[i := f];
      FieldsHashEqualIff(h, start, most, i, f);
      XorCancels(last, WithFields(h, start, most[i := f]), WithFields(h, start, most));
    }
  }

  /** Types that agree but for one field, at any position, hash alike exactly if that field's type
      ids do. */
  lemma {:induction false} OneFieldDecides(h: StdHash, t: TypeSymbol, i: nat, f: FieldSymbol)
    requires i < |t.fields|
    ensures TypeHash(h, t.(fields := t.fields[i := f])) == TypeHash(h, t) <==>
            h.ofU32(f.underlyingTypeId) == h.ofU32(t.fields[i].underlyingTypeId)
  {
    var start := Xor(h.ofU64(t.length), h.ofU64(t.fieldCount));
    FieldsHashEqualIff(h, start, t.fields, i, f);
    XorCancels(h.ofString(t.name), WithFields(h, start, t.fields[i := f]), WithFields(h, start, t.fields));
  }

  lemma {:induction false} StartDecides(h: StdHash, t: TypeSymbol, start: nat, start': nat)
    ensures (Xor(WithFields(h, start, t.fields), h.ofString(t.name))
             == Xor(WithFields(h, start', t.fields), h.ofString(t.name)))
            <==> start == start'
  {
    StartComesOut(h, start, t.fields);
    StartComesOut(h, start', t.fields);
    XorCancels(WithFields(h, 0, t.fields), start, start');
    XorCancels(h.ofString(t.name), WithFields(h, start, t.fields), WithFields(h, start', t.fields));
  }

  lemma {:induction false} LengthDecides(h: StdHash, t: TypeSymbol, length: u64)
    ensures TypeHash(h, t.(length := length)) == TypeHash(h, t) <==> h.ofU64(length) == h.ofU64(t.length)
  {
    StartDecides(h, t, Xor(h.ofU64(length), h.ofU64(t.fieldCount)), Xor(h.ofU64(t.length), h.ofU64(t.fieldCount)));
    XorCancels(h.ofU64(t.fieldCount), h.ofU64(length), h.ofU64(t.length));
  }

  lemma {:induction false} FieldCountDecides(h: StdHash, t: TypeSymbol, fieldCount: u64)
    ensures TypeHash(h, t.(fieldCount := fieldCount)) == TypeHash(h, t) <==>
            h.ofU64(fieldCount) == h.ofU64(t.fieldCount)
  {
    StartDecides(h, t, Xor(h.ofU64(t.length), h.ofU64(fieldCount)), Xor(h.ofU64(t.length), h.ofU64(t.fieldCount)));
    XorCancels(h.ofU64(t.length), h.ofU64(fieldCount), h.ofU64(t.fieldCount));
  }

  lemma {:induction false} NameDecides(h: StdHash, t: TypeSymbol, name: Str)
    ensures TypeHash(h, t.(name := name)) == TypeHash(h, t) <==> h.ofString(name) == h.ofString(t.name)
  {
    XorCancels(WithFields(h, Xor(h.ofU64(t.length), h.ofU64(t.fieldCount)), t.fields),
               h.ofString(name), h.ofString(t.name));
  }

  /** A type without fields hashes to its length, field count and name; one more field, wherever it
      comes, adds the hash of its type id. */
  lemma {:induction false} HashOfParts(h: StdHash, t: TypeSymbol, before: seq<FieldSymbol>, f: FieldSymbol,
                                       behind: seq<FieldSymbol>)
    ensures TypeHash(h, t.(fields := [])) == Xor(Xor(h.ofU64(t.length), h.ofU64(t.fieldCount)), h.ofString(t.name))
    ensures TypeHash(h, t.(fields := before + [f] + behind))
         == Xor(TypeHash(h, t.(fields := before + behind)), h.ofU32(f.underlyingTypeId))
  {
    var start := Xor(h.ofU64(t.length), h.ofU64(t.fieldCount));
    OneMoreFieldHash(h, start, before, f, behind);
    XorSwaps(WithFields(h, start, before + behind), h.ofU32(f.underlyingTypeId), h.ofString(t.name));
  }

  lemma {:induction false} OneMoreFieldHash(
      h: StdHash, start: nat, before: seq<FieldSymbol>, f: FieldSymbol, behind: seq<FieldSymbol>)
    ensures WithFields(h, start, before + [f] + behind)
         == Xor(WithFields(h, start, before + behind), h.ofU32(f.underlyingTypeId))
    decreases |behind|
  {
    if behind == [] {
      assert before + [f] + behind == before + [f] && before + behind == before;
      assert (before + [f])[..|before|] == before;
    } else {
      var most, last := behind[..|behind| - 1], behind[|behind| - 1];
      OneMoreFieldHash(h, start, before, f, most);
      var all, others := before + [f] + behind, before + behind;
      assert all[..|all| - 1] == before + [f] + most && others[..|others| - 1] == before + most;
      XorSwaps(WithFields(h, start, before + most), h.ofU32(f.underlyingTypeId), h.ofU32(last.underlyingTypeId));
    }
  }

  /** Nothing else counts: kind, ids, typedef source, and of the fields all but their type ids. */
  lemma {:induction false} HashIgnores(h: StdHash, s: TypeSymbol, t: TypeSymbol)
    requires s.length == t.length && s.fieldCount == t.fieldCount && s.name == t.name
    requires |s.fields| == |t.fields|
    requires forall i :: 0 <= i < |s.fields| ==> s.fields[i].underlyingTypeId == t.fields[i].underlyingTypeId
    ensures TypeHash(h, s) == TypeHash(h, t)
  {
    SameTypeIdsHashEqual(h, Xor(h.ofU64(s.length), h.ofU64(s.fieldCount)), s.fields, t.fields);
  }

  lemma {:induction false} SameTypeIdsHashEqual(h: StdHash, start: nat, a: seq<FieldSymbol>, b: seq<FieldSymbol>)
    requires |a| == |b| && forall i :: 0 <= i < |a| ==> a[i].underlyingTypeId == b[i].underlyingTypeId
    ensures WithFields(h, start, a) == WithFields(h, start, b)
  {
    if a != [] {
      SameTypeIdsHashEqual(h, start, a[..|a| - 1], b[..|b| - 1]);
    }
  }

  // ---------------------------------------------------------------- which types are merged

  /** Two types get one stand-in exactly if they hash alike. */
  lemma {:induction false} MergedIff(h: StdHash, types: TypeTable, order: seq<u32>, a: u32, b: u32)
    requires IsOrder(types, order) && a in types && b in types
    ensures Representative(h, types, order, a) == Representative(h, types, order, b) <==>
            TypeHash(h, types[a]) == TypeHash(h, types[b])
  {
    RepresentativeOfType(h, types, order, a);
    RepresentativeOfType(h, types, order, b);
  }

  /** So two types that differ in the type of one field, besides ids and kind, are merged exactly if
      the library hashes those type ids alike. */
  lemma {:induction false} FieldTypeKeepsApart(h: StdHash, types: TypeTable, order: seq<u32>, a: u32, b: u32, i: nat)
    requires IsOrder(types, order) && a in types && b in types
    requires var s, t := types[a], types[b];
             && s.length == t.length && s.fieldCount == t.fieldCount && s.name == t.name
             && |s.fields| == |t.fields| && i < |s.fields|
             && forall j :: 0 <= j < |s.fields| && j != i ==>
                  s.fields[j].underlyingTypeId == t.fields[j].underlyingTypeId
    ensures Representative(h, types, order, a) == Representative(h, types, order, b) <==>
            h.ofU32(types[a].fields[i].underlyingTypeId) == h.ofU32(types[b].fields[i].underlyingTypeId)
  {
    MergedIff(h, types, order, a, b);
    var s, t := types[a], types[b];
    OneFieldDecides(h, s, i, t.fields[i]);
    HashIgnores(h, s.(fields := s.fields[i := t.fields[i]]), t);
  }
}
