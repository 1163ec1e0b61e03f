/** Small tables on which a purge does not do what one might expect, whatever the standard
    library's hashes are (Components/UniversalSymbolsFormat/USYM.h and USYM.cpp). */
module PurgeExamples {
  import opened Symbols
  import opened Purge
  import opened PurgeOrder

  const NAME_CHAR: Str := [0x63, 0x68, 0x61, 0x72]
  const NAME_INT: Str := [0x69, 0x6e, 0x74]
  const NAME_INT8: Str := [0x69, 0x6e, 0x74, 0x38, 0x5f, 0x74]
  const NAME_VALUE: Str := [0x76]

  function BaseType(id: u32, name: Str, length: u64): TypeSymbol {
    TypeSymbol(id, name, Base, length, 0, [], 0)
  }

  /** A type with one nameless field. */
  function Wrapper(id: u32, kind: Kind, fieldType: u32): TypeSymbol {
    TypeSymbol(id, NAME_VALUE, kind, 16, 1, [EMPTY_FIELD.(id := id, underlyingTypeId := fieldType)], 0)
  }

  // ---------------------------------------------------------------- a changed meaning

  function TwoTypedefs(): TypeTable {
    map[1 := BaseType(1, NAME_CHAR, 1),
        2 := BaseType(2, NAME_INT8, 1),
        3 := TypeSymbol(3, NAME_VALUE, Typedef, 1, 0, [], 1),
        4 := TypeSymbol(4, NAME_VALUE, Typedef, 1, 0, [], 2)]
  }

  lemma TwoTypedefsDiffer()
    ensures !SameMeaning(TwoTypedefs(), 3, 4)
  {
    var types := TwoTypedefs();
    var three, four := Unfold(types, 3, 2), Unfold(types, 4, 2);
    assert three.source == UnfoldType(types, types[1], 1);
    assert four.source == UnfoldType(types, types[2], 1);
    assert three.source.name[0] != four.source.name[0];
  }

  /** The hash leaves out the typedef source, so two typedefs of one name and length, for a char
      and for an int8_t, are merged in either order, and one of them changes its meaning. */
  lemma PurgeCanChangeMeaning(h: StdHash, order: seq<u32>)
    requires IsOrder(TwoTypedefs(), order)
    ensures !PurgePreservesMeaning(h, TwoTypedefs(), order)
  {
    var types := TwoTypedefs();
    TwoTypedefsDiffer();
    assert TypeHash(h, types[3]) == TypeHash(h, types[4]);
    PurgePreservesMeaningIff(h, types, order);
  }

  /** Which of the two meanings is left depends on the iteration order, if a char and an int8_t hash
      differently. */
  lemma {:induction false} OrderCanMatter(h: StdHash)
    requires TypeHash(h, TwoTypedefs()[1]) != TypeHash(h, TwoTypedefs()[2])
    ensures !OrderIndependent(h, TwoTypedefs())
  {
    var types := TwoTypedefs();
    assert TypeHash(h, types[3]) == TypeHash(h, types[4]);
    assert !AlikeTypes(h, types, types[3], types[4]);
    PurgeIsOrderIndependentIff(h, types);
  }

  // ---------------------------------------------------------------- a changed kind

  function StructAndClass(): TypeTable {
    map[1 := BaseType(1, NAME_INT, 4), 2 := Wrapper(2, Struct, 1), 3 := Wrapper(3, Class, 1)]
  }

  /** A struct and a class of one name, length and field type are merged, and one changes its kind. */
  lemma {:induction false} PurgeCanChangeKind(h: StdHash, order: seq<u32>)
    requires IsOrder(StructAndClass(), order)
    ensures !PurgeKeepsKinds(h, StructAndClass(), order)
  {
    var types := StructAndClass();
    assert SameType(types[2].(kind := Class), types[3]);
    EqualTypesHashEqual(h, types[2], types[3]);
    PurgeKeepsKindsIff(h, types, order);
  }

  // ---------------------------------------------------------------- a second purge

  function TwoInts(): TypeTable {
    map[1 := BaseType(1, NAME_INT, 4), 2 := BaseType(2, NAME_INT, 4),
        3 := Wrapper(3, Struct, 1), 4 := Wrapper(4, Struct, 2)]
  }

  lemma {:induction false} AloneSurvives(h: StdHash, types: TypeTable, order: seq<u32>, id: u32)
    requires IsOrder(types, order) && id in types
    requires forall other :: other in types && TypeHash(h, types[other]) == TypeHash(h, types[id]) ==> other == id
    ensures IsSurvivor(h, types, order, id)
  {
    RepresentativeOfType(h, types, order, id);
  }

  lemma {:induction false} RewrittenAlike(h: StdHash, oldToNew: map<u32, u32>, a: TypeSymbol, b: TypeSymbol)
    requires |a.fields| == |b.fields| == 1
    requires a.length == b.length && a.fieldCount == b.fieldCount && a.name == b.name
    requires RewriteId(oldToNew, a.fields[0].underlyingTypeId) == RewriteId(oldToNew, b.fields[0].underlyingTypeId)
    ensures TypeHash(h, RewriteType(oldToNew, a)) == TypeHash(h, RewriteType(oldToNew, b))
  {
    var fa, fb := RewriteType(oldToNew, a).fields, RewriteType(oldToNew, b).fields;
    assert fa[..0] == fb[..0];
  }

  lemma {:induction false} IntsMerge(h: StdHash, order: seq<u32>)
    requires IsOrder(TwoInts(), order)
    ensures RewriteId(OldToNew(h, TwoInts(), order), 1) == RewriteId(OldToNew(h, TwoInts(), order), 2)
  {
    var types := TwoInts();
    EqualTypesHashEqual(h, types[1], types[2]);
    RepresentativeOfType(h, types, order, 1);
    RewriteIdIsRepresentative(h, types, order, 1);
    RewriteIdIsRepresentative(h, types, order, 2);
  }

  /** The int and the two structs hash differently. */
  ghost predicate TellsApart(h: StdHash) {
    var types := TwoInts();
    && TypeHash(h, types[3]) != TypeHash(h, types[4])
    && TypeHash(h, types[1]) != TypeHash(h, types[3])
    && TypeHash(h, types[1]) != TypeHash(h, types[4])
  }

  /** One purge need not be the last: two structs alike except that the one has a field of the one
      int and the other of the other become equal when the ints are merged. */
  lemma {:induction false} SecondPurgeCanMergeMore(h: StdHash, order: seq<u32>, again: seq<u32>)
    requires IsOrder(TwoInts(), order) && IsOrder(PurgedTypes(h, TwoInts(), order), again)
    requires TellsApart(h)
    ensures !PurgesOnce(h, TwoInts(), order, again)
  {
    var types := TwoInts();
    StructsSurvive(h, order);
    IntsMerge(h, order);
    RewrittenAlike(h, OldToNew(h, types, order), types[3], types[4]);
    MergedByThen(h, types, order, again, 3, 4);
  }

  lemma {:induction false} StructsSurvive(h: StdHash, order: seq<u32>)
    requires IsOrder(TwoInts(), order) && TellsApart(h)
    ensures IsSurvivor(h, TwoInts(), order, 3) && IsSurvivor(h, TwoInts(), order, 4)
  {
    EqualTypesHashEqual(h, TwoInts()[1], TwoInts()[2]);
    AloneSurvives(h, TwoInts(), order, 3);
    AloneSurvives(h, TwoInts(), order, 4);
  }

  lemma {:induction false} MergedByThen(
      h: StdHash, types: TypeTable, order: seq<u32>, again: seq<u32>, a: u32, b: u32)
    requires IsOrder(types, order) && IsOrder(PurgedTypes(h, types, order), again)
    requires IsSurvivor(h, types, order, a) && IsSurvivor(h, types, order, b)
    requires TypeHash(h, types[a]) != TypeHash(h, types[b])
    requires HashAfter(h, types, order, a) == HashAfter(h, types, order, b)
    ensures !PurgesOnce(h, types, order, again)
  {
    SecondPurgeIsIdentityIff(h, types, order, again);
  }

  /** Integers that hash to themselves, and strings to their length. */
  function PlainHash(): StdHash {
    StdHash((n: u64) => n as nat, (n: u32) => n as nat, (s: Str) => |s|)
  }

  lemma SomeXors()
    ensures Xor(4, 0) == 4 && Xor(4, 3) == 7
    ensures Xor(16, 1) == 17 && Xor(17, 1) == 16
    ensures Xor(17, 2) == 19 && Xor(19, 1) == 18
  {}

  lemma HashOfInt(t: TypeSymbol)
    requires t.fields == [] && t.length == 4 && t.fieldCount == 0 && |t.name| == 3
    ensures TypeHash(PlainHash(), t) == 7
  {
    SomeXors();
    assert WithFields(PlainHash(), Xor(4, 0), t.fields) == 4;
  }

  lemma HashOfWrapper(t: TypeSymbol)
    requires |t.fields| == 1 && t.length == 16 && t.fieldCount == 1 && |t.name| == 1
    ensures t.fields[0].underlyingTypeId == 1 ==> TypeHash(PlainHash(), t) == 17
    ensures t.fields[0].underlyingTypeId == 2 ==> TypeHash(PlainHash(), t) == 18
  {
    SomeXors();
    assert t.fields[..0] == [];
    assert WithFields(PlainHash(), 17, t.fields[..0]) == 17;
    assert WithFields(PlainHash(), 17, t.fields) == Xor(17, t.fields[0].underlyingTypeId);
  }

  /** Such hashes exist. */
  lemma {:induction false} PlainHashTellsApart()
    ensures TellsApart(PlainHash())
  {
    HashOfInt(TwoInts()[1]);
    HashOfWrapper(TwoInts()[3]);
    HashOfWrapper(TwoInts()[4]);
  }

  // ---------------------------------------------------------------- only survivors count

  /** Every id but 1 hashes to 0. */
  function CollidingHash(): StdHash {
    StdHash((n: u64) => n as nat, (n: u32) => if n == 1 then 1 else 0, (s: Str) => |s|)
  }

  function ThreeWrappers(): TypeTable {
    map[1 := BaseType(1, NAME_INT, 4), 2 := BaseType(2, NAME_INT, 4), 5 := BaseType(5, NAME_INT, 8),
        3 := Wrapper(3, Struct, 5), 4 := Wrapper(4, Struct, 2), 6 := Wrapper(6, Struct, 1)]
  }

  const THREE_WRAPPERS_ORDER: seq<u32> := [1, 3, 2, 4, 5, 6]

  lemma CollidingHashes(t: TypeSymbol)
    ensures t.fields == [] && t.length == 4 && t.fieldCount == 0 && |t.name| == 3 ==>
              TypeHash(CollidingHash(), t) == 7
    ensures t.fields == [] && t.length == 8 && t.fieldCount == 0 && |t.name| == 3 ==>
              TypeHash(CollidingHash(), t) == 11
    ensures |t.fields| == 1 && t.length == 16 && t.fieldCount == 1 && |t.name| == 1 ==>
              TypeHash(CollidingHash(), t) == if t.fields[0].underlyingTypeId == 1 then 17 else 16
  {
    SomeXors();
    assert Xor(8, 0) == 8 && Xor(8, 3) == 11 && Xor(16, 0) == 16 && Xor(17, 0) == 17;
    if |t.fields| == 1 {
      assert t.fields[..0] == [];
      assert WithFields(CollidingHash(), 17, t.fields[..0]) == 17;
      assert WithFields(CollidingHash(), 17, t.fields)
          == Xor(17, CollidingHash().ofU32(t.fields[0].underlyingTypeId));
    }
  }

  predicate LooksLike(t: TypeSymbol, id: u32) {
    if id == 1 || id == 2 || id == 5 then
      t.fields == [] && t.length == (if id == 5 then 8 else 4) && t.fieldCount == 0 && |t.name| == 3
    else
      && |t.fields| == 1 && t.length == 16 && t.fieldCount == 1 && |t.name| == 1
      && t.fields[0].underlyingTypeId == if id == 3 then 5 else if id == 4 then 2 else 1
  }

  function HashBefore(id: u32): nat {
    if id == 1 || id == 2 then 7 else if id == 5 then 11 else if id == 6 then 17 else 16
  }

  /** The table with these hashes, by what is needed of it. */
  ghost predicate Colliding(h: StdHash, types: TypeTable, order: seq<u32>) {
    && h == CollidingHash()
    && types.Keys == {1, 2, 3, 4, 5, 6}
    && (forall id :: id in types ==> LooksLike(types[id], id) && TypeHash(h, types[id]) == HashBefore(id))
    && IsOrder(types, order) && |order| == 6 && order[0] == 1 && order[1] == 3
  }

  lemma {:induction false} ThreeWrappersCollide()
    ensures Colliding(CollidingHash(), ThreeWrappers(), THREE_WRAPPERS_ORDER)
  {
    forall id | id in ThreeWrappers()
      ensures LooksLike(ThreeWrappers()[id], id)
      ensures TypeHash(CollidingHash(), ThreeWrappers()[id]) == HashBefore(id)
    {
      CollidingHashes(ThreeWrappers()[id]);
    }
    assert ThreeWrappers().Keys == {1, 2, 3, 4, 5, 6};
  }

  lemma {:induction false} Representatives(h: StdHash, types: TypeTable, order: seq<u32>)
    requires Colliding(h, types, order)
    ensures Representative(h, types, order, 1) == Representative(h, types, order, 2) == 1
    ensures Representative(h, types, order, 3) == Representative(h, types, order, 4) == 3
    ensures Representative(h, types, order, 5) == 5 && Representative(h, types, order, 6) == 6
  {
    NextInOrder(h, types, order, 0);
    assert order[..1][..0] == [];
    NextInOrder(h, types, order, 1);
    RepresentativeOfType(h, types, order, 1);
    RepresentativeOfType(h, types, order, 3);
    AloneSurvives(h, types, order, 5);
    AloneSurvives(h, types, order, 6);
  }

  lemma {:induction false} HashOfRewritten(h: StdHash, types: TypeTable, order: seq<u32>, id: u32)
    requires Colliding(h, types, order) && id in types
    ensures HashAfter(h, types, order, id)
         == if id == 1 || id == 2 then 7 else if id == 5 then 11 else if id == 3 then 16 else 17
  {
    Representatives(h, types, order);
    RewriteIdIsRepresentative(h, types, order, 1);
    RewriteIdIsRepresentative(h, types, order, 2);
    RewriteIdIsRepresentative(h, types, order, 5);
    CollidingHashes(RewriteType(OldToNew(h, types, order), types[id]));
  }

  lemma {:induction false} CollidingPurgesOnce(h: StdHash, types: TypeTable, order: seq<u32>, again: seq<u32>)
    requires Colliding(h, types, order)
    requires IsOrder(PurgedTypes(h, types, order), again)
    ensures PurgesOnce(h, types, order, again)
  {
    Representatives(h, types, order);
    forall a, b | IsSurvivor(h, types, order, a) && IsSurvivor(h, types, order, b)
                  && TypeHash(h, types[a]) != TypeHash(h, types[b])
      ensures HashAfter(h, types, order, a) != HashAfter(h, types, order, b)
    {
      HashOfRewritten(h, types, order, a);
      HashOfRewritten(h, types, order, b);
    }
    SecondPurgeIsIdentityIff(h, types, order, again);
  }

  /** If types that differ may hash alike, a second purge depends on the survivors only: here an erased
      type that hashes differently from a survivor hashes like it once rewritten, and still the
      second purge changes nothing. */
  lemma {:induction false} ErasedTypesDoNotMatter(again: seq<u32>)
    requires IsOrder(ThreeWrappers(), THREE_WRAPPERS_ORDER)
    requires IsOrder(PurgedTypes(CollidingHash(), ThreeWrappers(), THREE_WRAPPERS_ORDER), again)
    ensures TypeHash(CollidingHash(), ThreeWrappers()[4]) != TypeHash(CollidingHash(), ThreeWrappers()[6])
    ensures HashAfter(CollidingHash(), ThreeWrappers(), THREE_WRAPPERS_ORDER, 4)
         == HashAfter(CollidingHash(), ThreeWrappers(), THREE_WRAPPERS_ORDER, 6)
    ensures PurgesOnce(CollidingHash(), ThreeWrappers(), THREE_WRAPPERS_ORDER, again)
  {
    ThreeWrappersCollide();
    CollidingHashes(ThreeWrappers()[4]);
    CollidingHashes(ThreeWrappers()[6]);
    HashOfRewritten(CollidingHash(), ThreeWrappers(), THREE_WRAPPERS_ORDER, 4);
    HashOfRewritten(CollidingHash(), ThreeWrappers(), THREE_WRAPPERS_ORDER, 6);
    CollidingPurgesOnce(CollidingHash(), ThreeWrappers(), THREE_WRAPPERS_ORDER, again);
  }
}
