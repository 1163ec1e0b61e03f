/** What USYM::PurgeDuplicateTypes computes, as functions of the tables and of the
    order in which the unordered map of types is iterated, and what that keeps
    (Components/UniversalSymbolsFormat/USYM.cpp). */
module Purge {
  import opened Symbols

  // ---------------------------------------------------------------- definitions

  /** order lists every key once: the only thing known of an unordered map's iteration. */
  ghost predicate IsOrder<V>(table: map<u32, V>, order: seq<u32>) {
    && (forall i, j :: 0 <= i < j < |order| ==> order[i] != order[j])
    && (forall id :: id in order <==> id in table)
  }

  lemma {:induction false} OrderSize<V>(table: map<u32, V>, order: seq<u32>)
    requires IsOrder(table, order)
    ensures |order| == |table|
  {
    if order != [] {
      var last := order[|order| - 1];
      var smaller := table - {last};
      OrderSize(smaller, order[..|order| - 1]);
      assert table.Keys == smaller.Keys + {last};
    } else {
      assert table.Keys == {};
    }
  }

  /** Some order in which a table may be iterated. */
  method OrderOf<V>(table: map<u32, V>) returns (order: seq<u32>)
    ensures IsOrder(table, order)
  {
    order := [];
    var left := table.Keys;
    while left != {}
      invariant left <= table.Keys
      invariant forall i, j :: 0 <= i < j < |order| ==> order[i] != order[j]
      invariant forall id :: id in order <==> id in table && id !in left
      decreases left
    {
      var id :| id in left;
      left := left - {id};
      order := order + [id];
    }
  }

  /** The first id of order whose symbol has the given hash. */
  function FirstWithHash(h: StdHash, types: TypeTable, order: seq<u32>, hash: nat): Option<u32>
    requires forall id :: id in order ==> id in types
  {
    if order == [] then None
    else
      var earlier := FirstWithHash(h, types, order[..|order| - 1], hash);
      var last := order[|order| - 1];
      if earlier.Some? then earlier
      else if TypeHash(h, types[last]) == hash then Some(last)
      else None
  }

  /** The id that stands for id after the purge. An id that names no type stands for itself. */
  function Representative(h: StdHash, types: TypeTable, order: seq<u32>, id: u32): (r: u32)
    requires IsOrder(types, order)
  {
    if id !in types then id
    else
      var first := FirstWithHash(h, types, order, TypeHash(h, types[id]));
      if first.Some? then first.value else id
  }

  ghost predicate IsSurvivor(h: StdHash, types: TypeTable, order: seq<u32>, id: u32)
    requires IsOrder(types, order)
  {
    id in types && Representative(h, types, order, id) == id
  }

  /** The map oldToNew: every id that gives way, with the id it gives way to. */
  ghost function OldToNew(h: StdHash, types: TypeTable, order: seq<u32>): map<u32, u32>
    requires IsOrder(types, order)
  {
    map id | id in types && Representative(h, types, order, id) != id ::
      Representative(h, types, order, id)
  }

  ghost function OldToNewUpTo(h: StdHash, types: TypeTable, order: seq<u32>, n: nat): map<u32, u32>
    requires IsOrder(types, order) && n <= |order|
  {
    map id | id in order[..n] && Representative(h, types, order, id) != id :: Representative(h, types, order, id)
  }

  function RewriteId(oldToNew: map<u32, u32>, id: u32): u32 {
    if id in oldToNew then oldToNew[id] else id
  }

  function RewriteIds(oldToNew: map<u32, u32>, ids: seq<u32>): seq<u32> {
    seq(|ids|, i requires 0 <= i < |ids| => RewriteId(oldToNew, ids[i]))
  }

  function RewriteField(oldToNew: map<u32, u32>, f: FieldSymbol): FieldSymbol {
    f.(underlyingTypeId := RewriteId(oldToNew, f.underlyingTypeId))
  }

  function RewriteFields(oldToNew: map<u32, u32>, fields: seq<FieldSymbol>): seq<FieldSymbol> {
    seq(|fields|, i requires 0 <= i < |fields| => RewriteField(oldToNew, fields[i]))
  }

  function RewriteType(oldToNew: map<u32, u32>, t: TypeSymbol): TypeSymbol {
    t.(typedefSource := RewriteId(oldToNew, t.typedefSource), fields := RewriteFields(oldToNew, t.fields))
  }

  function RewriteFunction(oldToNew: map<u32, u32>, f: FunctionSymbol): FunctionSymbol {
    f.(returnTypeId := RewriteId(oldToNew, f.returnTypeId),
       argumentTypeIds := RewriteIds(oldToNew, f.argumentTypeIds))
  }

  ghost function RewriteTypes(oldToNew: map<u32, u32>, types: TypeTable): TypeTable {
    map id | id in types :: RewriteType(oldToNew, types[id])
  }

  ghost function RewriteFunctions(oldToNew: map<u32, u32>, functions: FunctionTable): FunctionTable {
    map id | id in functions :: RewriteFunction(oldToNew, functions[id])
  }

  function EraseTypes(oldToNew: map<u32, u32>, types: TypeTable): TypeTable {
    map id | id in types && id !in oldToNew :: types[id]
  }

  ghost function PurgedTypes(h: StdHash, types: TypeTable, order: seq<u32>): TypeTable
    requires IsOrder(types, order)
  {
    var oldToNew := OldToNew(h, types, order);
    map id | id in types && id !in oldToNew :: RewriteType(oldToNew, types[id])
  }

  ghost function PurgedFunctions(
      h: StdHash, types: TypeTable, order: seq<u32>, functions: FunctionTable): FunctionTable
    requires IsOrder(types, order)
  {
    RewriteFunctions(OldToNew(h, types, order), functions)
  }

  // ---------------------------------------------------------------- representatives

  lemma {:induction false} FirstWithHashIsSound(h: StdHash, types: TypeTable, order: seq<u32>, hash: nat)
    requires forall id :: id in order ==> id in types
    ensures var first := FirstWithHash(h, types, order, hash);
            if first.Some? then first.value in order && TypeHash(h, types[first.value]) == hash
            else forall id :: id in order ==> TypeHash(h, types[id]) != hash
  {
    if order != [] {
      FirstWithHashIsSound(h, types, order[..|order| - 1], hash);
      assert order == order[..|order| - 1] + [order[|order| - 1]];
    }
  }

  /** What comes later in the iteration does not change which id was first. */
  lemma {:induction false} FirstWithHashInPrefix(
      h: StdHash, types: TypeTable, order: seq<u32>, n: nat, hash: nat)
    requires forall id :: id in order ==> id in types
    requires n <= |order| && FirstWithHash(h, types, order[..n], hash).Some?
    ensures FirstWithHash(h, types, order, hash) == FirstWithHash(h, types, order[..n], hash)
  {
    if n < |order| {
      var shorter := order[..|order| - 1];
      assert shorter[..n] == order[..n];
      FirstWithHashInPrefix(h, types, shorter, n, hash);
    } else {
      assert order[..n] == order;
    }
  }

  /** What meeting the next id tells: whether it gives way, and to which earlier id. */
  lemma NextInOrder(h: StdHash, types: TypeTable, order: seq<u32>, n: nat)
    requires IsOrder(types, order) && n < |order|
    ensures order[..n + 1] == order[..n] + [order[n]]
    ensures var id := order[n];
            var earlier := FirstWithHash(h, types, order[..n], TypeHash(h, types[id]));
            && Representative(h, types, order, id) == (if earlier.Some? then earlier.value else id)
            && (earlier.Some? ==> earlier.value != id)
            && forall hash :: FirstWithHash(h, types, order[..n + 1], hash) ==
                 if earlier.None? && hash == TypeHash(h, types[id]) then Some(id)
                 else FirstWithHash(h, types, order[..n], hash)
  {
    var id := order[n];
    assert order[..n + 1][..n] == order[..n];
    FirstWithHashInPrefix(h, types, order, n + 1, TypeHash(h, types[id]));
    FirstWithHashIsSound(h, types, order[..n], TypeHash(h, types[id]));
  }

  lemma NextDuplicate(h: StdHash, types: TypeTable, order: seq<u32>, n: nat)
    requires IsOrder(types, order) && n < |order|
    ensures var id := order[n];
            var earlier := FirstWithHash(h, types, order[..n], TypeHash(h, types[id]));
            OldToNewUpTo(h, types, order, n + 1) ==
              if earlier.Some? then OldToNewUpTo(h, types, order, n)[id := earlier.value]
              else OldToNewUpTo(h, types, order, n)
  {
    NextInOrder(h, types, order, n);
  }

  lemma AllDuplicates(h: StdHash, types: TypeTable, order: seq<u32>)
    requires IsOrder(types, order)
    ensures OldToNewUpTo(h, types, order, |order|) == OldToNew(h, types, order)
  {
    assert order[..|order|] == order;
  }

  /** A representative is a type of the same hash, shared by the whole hash class, and
      its own representative: rewriting an id leads to a survivor in one step. */
  lemma RepresentativeOfType(h: StdHash, types: TypeTable, order: seq<u32>, id: u32)
    requires IsOrder(types, order) && id in types
    ensures var r := Representative(h, types, order, id);
            && r in types
            && TypeHash(h, types[r]) == TypeHash(h, types[id])
            && IsSurvivor(h, types, order, r)
            && forall other :: other in types && TypeHash(h, types[other]) == TypeHash(h, types[id])
                 ==> Representative(h, types, order, other) == r
  {
    assert id in order;
    FirstWithHashIsSound(h, types, order, TypeHash(h, types[id]));
  }

  lemma RewriteIdIsRepresentative(h: StdHash, types: TypeTable, order: seq<u32>, id: u32)
    requires IsOrder(types, order)
    ensures RewriteId(OldToNew(h, types, order), id) == Representative(h, types, order, id)
  {}

  /** No chains: no id that was rewritten to is itself rewritten away or erased. */
  lemma {:induction false} RewritingHasNoChains(h: StdHash, types: TypeTable, order: seq<u32>)
    requires IsOrder(types, order)
    ensures var oldToNew := OldToNew(h, types, order);
            forall id :: id in oldToNew ==>
              && oldToNew[id] !in oldToNew
              && oldToNew[id] in PurgedTypes(h, types, order)
  {
    forall id | id in OldToNew(h, types, order)
      ensures OldToNew(h, types, order)[id] !in OldToNew(h, types, order)
      ensures OldToNew(h, types, order)[id] in PurgedTypes(h, types, order)
    {
      RepresentativeOfType(h, types, order, id);
    }
  }

  lemma PurgeInTwoSteps(h: StdHash, types: TypeTable, order: seq<u32>)
    requires IsOrder(types, order)
    ensures var oldToNew := OldToNew(h, types, order);
            EraseTypes(oldToNew, RewriteTypes(oldToNew, types)) == PurgedTypes(h, types, order)
  {}

  lemma SurvivorsAreTheKeys(h: StdHash, types: TypeTable, order: seq<u32>, id: u32)
    requires IsOrder(types, order)
    ensures id in PurgedTypes(h, types, order) <==> IsSurvivor(h, types, order, id)
  {}

  // ---------------------------------------------------------------- one survivor per hash

  ghost function Hashes(h: StdHash, types: TypeTable): set<nat> {
    set id | id in types :: TypeHash(h, types[id])
  }

  lemma {:induction false} InjectiveImageSize<A, B>(s: set<A>, f: A -> B, image: set<B>)
    requires image == set a | a in s :: f(a)
    requires forall a, b :: a in s && b in s && f(a) == f(b) ==> a == b
    ensures |image| == |s|
    decreases s
  {
    if s != {} {
      var a :| a in s;
      assert f(a) in image;
      assert image - {f(a)} == set b | b in s - {a} :: f(b);
      InjectiveImageSize(s - {a}, f, image - {f(a)});
    }
  }

  /** Exactly one type of every hash class survives. */
  lemma OneSurvivorPerHash(h: StdHash, types: TypeTable, order: seq<u32>, id: u32)
    requires IsOrder(types, order) && id in types
    ensures exists r :: IsSurvivor(h, types, order, r) && TypeHash(h, types[r]) == TypeHash(h, types[id])
    ensures forall r, s ::
              && IsSurvivor(h, types, order, r) && TypeHash(h, types[r]) == TypeHash(h, types[id])
              && IsSurvivor(h, types, order, s) && TypeHash(h, types[s]) == TypeHash(h, types[id])
              ==> r == s
  {
    RepresentativeOfType(h, types, order, id);
    assert IsSurvivor(h, types, order, Representative(h, types, order, id));
  }

  /** As many types survive as there were different hashes. */
  lemma SurvivorCount(h: StdHash, types: TypeTable, order: seq<u32>)
    requires IsOrder(types, order)
    ensures |PurgedTypes(h, types, order)| == |Hashes(h, types)|
  {
    var keys := PurgedTypes(h, types, order).Keys;
    var hashOf := (id: u32) => if id in types then TypeHash(h, types[id]) else 0;
    forall r, s | r in keys && s in keys && hashOf(r) == hashOf(s)
      ensures r == s
    {
      RepresentativeOfType(h, types, order, r);
    }
    forall hash | hash in Hashes(h, types)
      ensures exists id :: id in keys && hashOf(id) == hash
    {
      var id :| id in types && TypeHash(h, types[id]) == hash;
      RepresentativeOfType(h, types, order, id);
      var r := Representative(h, types, order, id);
      assert r in keys && hashOf(r) == hash;
    }
    assert Hashes(h, types) == set id | id in keys :: hashOf(id);
    InjectiveImageSize(keys, hashOf, Hashes(h, types));
  }

  /** A purge changes nothing exactly when no two types hash alike. */
  lemma PurgeIsIdentityIff(h: StdHash, types: TypeTable, order: seq<u32>)
    requires IsOrder(types, order)
    ensures PurgedTypes(h, types, order) == types <==>
            forall a, b :: a in types && b in types && a != b ==> TypeHash(h, types[a]) != TypeHash(h, types[b])
  {
    var after := PurgedTypes(h, types, order);
    if after == types {
      forall a, b | a in types && b in types && TypeHash(h, types[a]) == TypeHash(h, types[b])
        ensures a == b
      {
        SurvivorsAreTheKeys(h, types, order, a);
        SurvivorsAreTheKeys(h, types, order, b);
        RepresentativeOfType(h, types, order, a);
      }
    }
    if forall a, b :: a in types && b in types && a != b ==> TypeHash(h, types[a]) != TypeHash(h, types[b]) {
      forall id | id in types
        ensures Representative(h, types, order, id) == id
      {
        RepresentativeOfType(h, types, order, id);
      }
      assert OldToNew(h, types, order) == map[];
      forall id | id in types
        ensures id in after && after[id] == types[id]
      {
        RewritingNothing(types[id]);
      }
    }
  }

  /** How a type hashes once every id in it has been replaced by its representative. */
  ghost function HashAfter(h: StdHash, types: TypeTable, order: seq<u32>, id: u32): nat
    requires IsOrder(types, order) && id in types
  {
    TypeHash(h, RewriteType(OldToNew(h, types, order), types[id]))
  }

  ghost predicate PurgesOnce(h: StdHash, types: TypeTable, order: seq<u32>, again: seq<u32>)
    requires IsOrder(types, order) && IsOrder(PurgedTypes(h, types, order), again)
  {
    PurgedTypes(h, PurgedTypes(h, types, order), again) == PurgedTypes(h, types, order)
  }

  /** Purging once more changes nothing exactly when no two surviving types that hash differently
      hash alike once every id is replaced by its representative. */
  lemma {:induction false} SecondPurgeIsIdentityIff(h: StdHash, types: TypeTable, order: seq<u32>, again: seq<u32>)
    requires IsOrder(types, order) && IsOrder(PurgedTypes(h, types, order), again)
    ensures PurgesOnce(h, types, order, again) <==>
            forall a, b ::
              && IsSurvivor(h, types, order, a) && IsSurvivor(h, types, order, b)
              && TypeHash(h, types[a]) != TypeHash(h, types[b])
              ==> HashAfter(h, types, order, a) != HashAfter(h, types, order, b)
  {
    var once := PurgedTypes(h, types, order);
    forall a, b | IsSurvivor(h, types, order, a) && IsSurvivor(h, types, order, b) && a != b
      ensures TypeHash(h, types[a]) != TypeHash(h, types[b])
    {
      RepresentativeOfType(h, types, order, a);
    }
    forall id
      ensures id in once <==> IsSurvivor(h, types, order, id)
      ensures id in once ==> TypeHash(h, once[id]) == HashAfter(h, types, order, id)
    {
      SurvivorsAreTheKeys(h, types, order, id);
    }
    PurgeIsIdentityIff(h, once, again);
  }

  lemma {:induction false} HashAfterOfRepresentative(h: StdHash, types: TypeTable, order: seq<u32>, id: u32)
    requires IsOrder(types, order) && id in types
    requires EqualHashImpliesEqual(h, types)
    ensures IsSurvivor(h, types, order, Representative(h, types, order, id))
    ensures HashAfter(h, types, order, Representative(h, types, order, id)) == HashAfter(h, types, order, id)
  {
    RepresentativeOfType(h, types, order, id);
    var a, b, m := types[Representative(h, types, order, id)], types[id], OldToNew(h, types, order);
    forall i | 0 <= i < |a.fields|
      ensures SameField(RewriteType(m, a).fields[i], RewriteType(m, b).fields[i])
    {
      assert SameField(a.fields[i], b.fields[i]);
    }
    EqualTypesHashEqual(h, RewriteType(m, a), RewriteType(m, b));
  }

  /** If equal hashes imply operator==, the condition is on any two types, erased or not. */
  lemma {:induction false} SecondPurgeIsIdentityIffAnyTypes(
      h: StdHash, types: TypeTable, order: seq<u32>, again: seq<u32>)
    requires IsOrder(types, order) && IsOrder(PurgedTypes(h, types, order), again)
    requires EqualHashImpliesEqual(h, types)
    ensures PurgesOnce(h, types, order, again) <==>
            forall a, b :: a in types && b in types && TypeHash(h, types[a]) != TypeHash(h, types[b])
              ==> HashAfter(h, types, order, a) != HashAfter(h, types, order, b)
  {
    SecondPurgeIsIdentityIff(h, types, order, again);
    forall id | id in types
      ensures var r := Representative(h, types, order, id);
              && IsSurvivor(h, types, order, r)
              && TypeHash(h, types[r]) == TypeHash(h, types[id])
              && HashAfter(h, types, order, r) == HashAfter(h, types, order, id)
    {
      RepresentativeOfType(h, types, order, id);
      HashAfterOfRepresentative(h, types, order, id);
    }
  }

  lemma RewritingNothing(t: TypeSymbol)
    ensures RewriteType(map[], t) == t
  {
    assert RewriteFields(map[], t.fields) == t.fields;
  }

  // ---------------------------------------------------------------- closure

  predicate RefOk(types: TypeTable, id: u32) {
    id == 0 || id in types
  }

  predicate TypeRefsOk(types: TypeTable, t: TypeSymbol) {
    && RefOk(types, t.typedefSource)
    && forall i :: 0 <= i < |t.fields| ==> RefOk(types, t.fields[i].underlyingTypeId)
  }

  predicate FunctionRefsOk(types: TypeTable, f: FunctionSymbol) {
    && RefOk(types, f.returnTypeId)
    && forall i :: 0 <= i < |f.argumentTypeIds| ==> RefOk(types, f.argumentTypeIds[i])
  }

  predicate Closed(types: TypeTable, functions: FunctionTable) {
    && (forall id :: id in types ==> TypeRefsOk(types, types[id]))
    && (forall id :: id in functions ==> FunctionRefsOk(types, functions[id]))
  }

  lemma RefOkAfterPurge(h: StdHash, types: TypeTable, order: seq<u32>, id: u32)
    requires IsOrder(types, order)
    ensures RefOk(PurgedTypes(h, types, order), RewriteId(OldToNew(h, types, order), id)) <==> RefOk(types, id)
  {
    if id in types {
      RepresentativeOfType(h, types, order, id);
    }
  }

  lemma TypeRefsAfterPurge(h: StdHash, types: TypeTable, order: seq<u32>, t: TypeSymbol)
    requires IsOrder(types, order)
    ensures TypeRefsOk(PurgedTypes(h, types, order), RewriteType(OldToNew(h, types, order), t))
            <==> TypeRefsOk(types, t)
  {
    var m := OldToNew(h, types, order);
    RefOkAfterPurge(h, types, order, t.typedefSource);
    forall i | 0 <= i < |t.fields|
      ensures RefOk(PurgedTypes(h, types, order), RewriteType(m, t).fields[i].underlyingTypeId)
              <==> RefOk(types, t.fields[i].underlyingTypeId)
    {
      RefOkAfterPurge(h, types, order, t.fields[i].underlyingTypeId);
    }
  }

  lemma FunctionRefsAfterPurge(h: StdHash, types: TypeTable, order: seq<u32>, f: FunctionSymbol)
    requires IsOrder(types, order)
    ensures FunctionRefsOk(PurgedTypes(h, types, order), RewriteFunction(OldToNew(h, types, order), f))
            <==> FunctionRefsOk(types, f)
  {
    var m := OldToNew(h, types, order);
    RefOkAfterPurge(h, types, order, f.returnTypeId);
    forall i | 0 <= i < |f.argumentTypeIds|
      ensures RefOk(PurgedTypes(h, types, order), RewriteFunction(m, f).argumentTypeIds[i])
              <==> RefOk(types, f.argumentTypeIds[i])
    {
      RefOkAfterPurge(h, types, order, f.argumentTypeIds[i]);
    }
  }

  /** After a purge the ids verify if and only if those of the survivors and of the functions
      verified before it. No hypothesis on the hashes. */
  lemma ClosedAfterPurge(h: StdHash, types: TypeTable, order: seq<u32>, functions: FunctionTable)
    requires IsOrder(types, order)
    ensures Closed(PurgedTypes(h, types, order), PurgedFunctions(h, types, order, functions)) <==>
            && (forall id :: IsSurvivor(h, types, order, id) ==> TypeRefsOk(types, types[id]))
            && (forall id :: id in functions ==> FunctionRefsOk(types, functions[id]))
    ensures Closed(types, functions) ==>
            Closed(PurgedTypes(h, types, order), PurgedFunctions(h, types, order, functions))
  {
    var after := PurgedTypes(h, types, order);
    var fsAfter := PurgedFunctions(h, types, order, functions);
    forall id | IsSurvivor(h, types, order, id)
      ensures id in after && (TypeRefsOk(after, after[id]) <==> TypeRefsOk(types, types[id]))
    {
      TypeRefsAfterPurge(h, types, order, types[id]);
    }
    forall id | id in functions
      ensures FunctionRefsOk(after, fsAfter[id]) <==> FunctionRefsOk(types, functions[id])
    {
      FunctionRefsAfterPurge(h, types, order, functions[id]);
    }
    assert forall id :: id in after ==> IsSurvivor(h, types, order, id);
  }

  // ---------------------------------------------------------------- meaning

  /** What an id denotes, down to a given depth: everything a reader of the table sees,
      except for the ids and the kind. */
  datatype Meaning =
    | Cut
    | Absent(id: u32)
    | Denotes(name: Str, length: u64, fieldCount: u64, fields: seq<FieldMeaning>, source: Meaning)

  datatype FieldMeaning = FieldMeaning(
    name: Str, offset: u64, isAnonymousUnion: bool, unionId: u32, ofType: Meaning)

  ghost function Unfold(types: TypeTable, id: u32, depth: nat): Meaning
    decreases depth, 1
  {
    if depth == 0 then Cut
    else if id !in types then Absent(id)
    else UnfoldType(types, types[id], depth)
  }

  ghost function UnfoldType(types: TypeTable, t: TypeSymbol, depth: nat): Meaning
    requires depth > 0
    decreases depth, 0
  {
    Denotes(t.name, t.length, t.fieldCount,
            seq(|t.fields|, i requires 0 <= i < |t.fields| => UnfoldField(types, t.fields[i], depth - 1)),
            Unfold(types, t.typedefSource, depth - 1))
  }

  ghost function UnfoldField(types: TypeTable, f: FieldSymbol, depth: nat): FieldMeaning
    decreases depth, 2
  {
    FieldMeaning(f.name, f.offset, f.isAnonymousUnion, f.unionId, Unfold(types, f.underlyingTypeId, depth))
  }

  ghost predicate SameMeaning(types: TypeTable, a: u32, b: u32) {
    forall depth: nat :: Unfold(types, a, depth) == Unfold(types, b, depth)
  }

  /** Types of equal hash denote the same: a condition on the table before the purge only. */
  ghost predicate HashesAreFaithful(h: StdHash, types: TypeTable) {
    forall a, b :: a in types && b in types && TypeHash(h, types[a]) == TypeHash(h, types[b])
      ==> SameMeaning(types, a, b)
  }

  /** Types of equal hash compare equal: what the code relies on without checking it. */
  predicate EqualHashImpliesEqual(h: StdHash, types: TypeTable) {
    forall a, b :: a in types && b in types && TypeHash(h, types[a]) == TypeHash(h, types[b])
      ==> SameType(types[a], types[b])
  }

  /** If every reference keeps its meaning to some depth, so does the type one level deeper. */
  lemma MeaningOfRewrittenType(
      before: TypeTable, after: TypeTable, oldToNew: map<u32, u32>, t: TypeSymbol, depth: nat)
    requires depth > 0
    requires forall id :: Unfold(after, RewriteId(oldToNew, id), depth - 1) == Unfold(before, id, depth - 1)
    ensures UnfoldType(after, RewriteType(oldToNew, t), depth) == UnfoldType(before, t, depth)
  {
    forall i | 0 <= i < |t.fields|
      ensures UnfoldField(after, RewriteField(oldToNew, t.fields[i]), depth - 1)
           == UnfoldField(before, t.fields[i], depth - 1)
    {
      var id := t.fields[i].underlyingTypeId;
      assert Unfold(after, RewriteId(oldToNew, id), depth - 1) == Unfold(before, id, depth - 1);
    }
    assert UnfoldType(after, RewriteType(oldToNew, t), depth).fields == UnfoldType(before, t, depth).fields;
  }

  lemma MeaningSurvivesStep(h: StdHash, types: TypeTable, order: seq<u32>, id: u32, depth: nat)
    requires IsOrder(types, order) && id in types && depth > 0
    requires HashesAreFaithful(h, types)
    requires forall other :: Unfold(PurgedTypes(h, types, order), Representative(h, types, order, other), depth - 1)
                          == Unfold(types, other, depth - 1)
    ensures Unfold(PurgedTypes(h, types, order), Representative(h, types, order, id), depth)
            == Unfold(types, id, depth)
  {
    RepresentativeOfType(h, types, order, id);
    var r := Representative(h, types, order, id);
    var m, after := OldToNew(h, types, order), PurgedTypes(h, types, order);
    assert SameMeaning(types, id, r);
    assert Unfold(types, id, depth) == Unfold(types, r, depth);
    forall other: u32
      ensures Unfold(after, RewriteId(m, other), depth - 1) == Unfold(types, other, depth - 1)
    {
      RewriteIdIsRepresentative(h, types, order, other);
      assert Unfold(after, Representative(h, types, order, other), depth - 1) == Unfold(types, other, depth - 1);
    }
    MeaningOfRewrittenType(types, after, m, types[r], depth);
  }

  lemma {:induction false} MeaningSurvives(h: StdHash, types: TypeTable, order: seq<u32>, id: u32, depth: nat)
    requires IsOrder(types, order)
    requires HashesAreFaithful(h, types)
    ensures Unfold(PurgedTypes(h, types, order), Representative(h, types, order, id), depth)
            == Unfold(types, id, depth)
    decreases depth
  {
    if depth > 0 && id in types {
      forall other: u32 {
        MeaningSurvives(h, types, order, other, depth - 1);
      }
      MeaningSurvivesStep(h, types, order, id, depth);
    }
  }

  /** Every id means after the purge, through its representative, what it meant before. */
  ghost predicate PurgePreservesMeaning(h: StdHash, types: TypeTable, order: seq<u32>)
    requires IsOrder(types, order)
  {
    forall id: u32, depth: nat ::
      Unfold(PurgedTypes(h, types, order), Representative(h, types, order, id), depth) == Unfold(types, id, depth)
  }

  /** The purge preserves meaning exactly when types of equal hash mean the same, although
      types may refer to one another in cycles; the iteration order does not matter. */
  lemma PurgePreservesMeaningIff(h: StdHash, types: TypeTable, order: seq<u32>)
    requires IsOrder(types, order)
    ensures PurgePreservesMeaning(h, types, order) <==> HashesAreFaithful(h, types)
  {
    if HashesAreFaithful(h, types) {
      forall id: u32, depth: nat
        ensures Unfold(PurgedTypes(h, types, order), Representative(h, types, order, id), depth)
                == Unfold(types, id, depth)
      {
        MeaningSurvives(h, types, order, id, depth);
      }
    }
    if PurgePreservesMeaning(h, types, order) {
      forall a, b | a in types && b in types && TypeHash(h, types[a]) == TypeHash(h, types[b])
        ensures SameMeaning(types, a, b)
      {
        RepresentativeOfType(h, types, order, a);
        forall depth: nat
          ensures Unfold(types, a, depth) == Unfold(types, b, depth)
        {
          assert Unfold(PurgedTypes(h, types, order), Representative(h, types, order, a), depth)
              == Unfold(types, a, depth);
          assert Unfold(PurgedTypes(h, types, order), Representative(h, types, order, b), depth)
              == Unfold(types, b, depth);
        }
      }
    }
  }

  lemma EqualTypesMeanTheSame(types: TypeTable, a: u32, b: u32)
    requires a in types && b in types && SameType(types[a], types[b])
    ensures SameMeaning(types, a, b)
  {
    forall depth: nat
      ensures Unfold(types, a, depth) == Unfold(types, b, depth)
    {
      if depth > 0 {
        var fa, fb := types[a].fields, types[b].fields;
        forall i | 0 <= i < |fa|
          ensures UnfoldField(types, fa[i], depth - 1) == UnfoldField(types, fb[i], depth - 1)
        {
          assert SameField(fa[i], fb[i]);
        }
        assert UnfoldType(types, types[a], depth).fields == UnfoldType(types, types[b], depth).fields;
      }
    }
  }

  /** If equal hashes imply operator==, the purge preserves the meaning of every id. */
  lemma PurgePreservesMeaningOfTypes(h: StdHash, types: TypeTable, order: seq<u32>)
    requires IsOrder(types, order)
    requires EqualHashImpliesEqual(h, types)
    ensures PurgePreservesMeaning(h, types, order)
  {
    forall a, b | a in types && b in types && TypeHash(h, types[a]) == TypeHash(h, types[b])
      ensures SameMeaning(types, a, b)
    {
      EqualTypesMeanTheSame(types, a, b);
    }
    PurgePreservesMeaningIff(h, types, order);
  }

  /** The same for what a function returns and takes. */
  lemma {:induction false} PurgePreservesMeaningOfFunctions(
      h: StdHash, types: TypeTable, order: seq<u32>, functions: FunctionTable, id: u32, depth: nat)
    requires IsOrder(types, order)
    requires HashesAreFaithful(h, types)
    requires id in functions
    ensures var types' := PurgedTypes(h, types, order);
            var f, f' := functions[id], PurgedFunctions(h, types, order, functions)[id];
            && Unfold(types', f'.returnTypeId, depth) == Unfold(types, f.returnTypeId, depth)
            && |f'.argumentTypeIds| == |f.argumentTypeIds|
            && (forall i :: 0 <= i < |f.argumentTypeIds| ==>
                  Unfold(types', f'.argumentTypeIds[i], depth) == Unfold(types, f.argumentTypeIds[i], depth))
            && (f'.id, f'.name, f'.argumentCount, f'.callingConvention, f'.virtualAddress)
            == (f.id, f.name, f.argumentCount, f.callingConvention, f.virtualAddress)
  {
    var f := functions[id];
    MeaningSurvives(h, types, order, f.returnTypeId, depth);
    RewriteIdIsRepresentative(h, types, order, f.returnTypeId);
    forall i | 0 <= i < |f.argumentTypeIds|
      ensures Unfold(PurgedTypes(h, types, order), RewriteId(OldToNew(h, types, order), f.argumentTypeIds[i]), depth)
              == Unfold(types, f.argumentTypeIds[i], depth)
    {
      MeaningSurvives(h, types, order, f.argumentTypeIds[i], depth);
      RewriteIdIsRepresentative(h, types, order, f.argumentTypeIds[i]);
    }
  }

  ghost predicate PurgeKeepsKinds(h: StdHash, types: TypeTable, order: seq<u32>)
    requires IsOrder(types, order)
  {
    forall id :: id in types ==>
      && Representative(h, types, order, id) in PurgedTypes(h, types, order)
      && PurgedTypes(h, types, order)[Representative(h, types, order, id)].kind == types[id].kind
  }

  /** Kinds are neither compared nor hashed, so a struct may come to stand for a class: every id
      keeps its kind exactly when types of equal hash are of one kind. */
  lemma {:induction false} PurgeKeepsKindsIff(h: StdHash, types: TypeTable, order: seq<u32>)
    requires IsOrder(types, order)
    ensures PurgeKeepsKinds(h, types, order)
            <==> forall a, b :: a in types && b in types && TypeHash(h, types[a]) == TypeHash(h, types[b])
                   ==> types[a].kind == types[b].kind
  {
    var after := PurgedTypes(h, types, order);
    forall id | id in types
      ensures Representative(h, types, order, id) in after
      ensures after[Representative(h, types, order, id)].kind == types[Representative(h, types, order, id)].kind
    {
      RepresentativeOfType(h, types, order, id);
    }
    forall a, b | a in types && b in types && TypeHash(h, types[a]) == TypeHash(h, types[b])
      ensures Representative(h, types, order, a) == Representative(h, types, order, b)
    {
      RepresentativeOfType(h, types, order, a);
    }
    forall id | id in types
      ensures TypeHash(h, types[Representative(h, types, order, id)]) == TypeHash(h, types[id])
    {
      RepresentativeOfType(h, types, order, id);
    }
  }
}
