/** What of the purged tables depends on the order in which the unordered map of types is iterated
    (Components/UniversalSymbolsFormat/USYM.cpp). */
module PurgeOrder {
  import opened Symbols
  import opened Purge

  /** b is a with every reference renamed. */
  ghost predicate RenamedType(rename: u32 -> u32, a: TypeSymbol, b: TypeSymbol) {
    && b.length == a.length && b.fieldCount == a.fieldCount && b.name == a.name
    && b.typedefSource == rename(a.typedefSource)
    && |b.fields| == |a.fields|
    && forall i :: 0 <= i < |a.fields| ==>
         SameField(b.fields[i], a.fields[i].(underlyingTypeId := rename(a.fields[i].underlyingTypeId)))
  }

  ghost predicate RenamedFunction(rename: u32 -> u32, a: FunctionSymbol, b: FunctionSymbol) {
    b == a.(returnTypeId := rename(a.returnTypeId),
            argumentTypeIds := seq(|a.argumentTypeIds|, i requires 0 <= i < |a.argumentTypeIds| =>
              rename(a.argumentTypeIds[i])))
  }

  /** rename is a bijection between the keys that carries one table to the other. */
  ghost predicate IsomorphicTypes(rename: u32 -> u32, types: TypeTable, types': TypeTable) {
    && (forall a :: a in types ==> rename(a) in types')
    && (forall a :: a in types ==> RenamedType(rename, types[a], types'[rename(a)]))
    && (forall a, b :: a in types && b in types && rename(a) == rename(b) ==> a == b)
    && (forall b :: b in types' ==> exists a :: a in types && rename(a) == b)
  }

  ghost predicate IsomorphicFunctions(rename: u32 -> u32, functions: FunctionTable, functions': FunctionTable) {
    && functions.Keys == functions'.Keys
    && (forall id :: id in functions ==> RenamedFunction(rename, functions[id], functions'[id]))
  }

  lemma RepresentativeOfRepresentative(h: StdHash, types: TypeTable, order: seq<u32>, order': seq<u32>, id: u32)
    requires IsOrder(types, order) && IsOrder(types, order')
    ensures Representative(h, types, order', Representative(h, types, order, id))
            == Representative(h, types, order', id)
    ensures RewriteId(OldToNew(h, types, order'), id)
            == Representative(h, types, order', RewriteId(OldToNew(h, types, order), id))
  {
    if id in types {
      RepresentativeOfType(h, types, order, id);
      RepresentativeOfType(h, types, order', id);
    }
  }

  /** Sends every id to what stands for it under the other order. */
  ghost function Renaming(h: StdHash, types: TypeTable, order: seq<u32>): u32 -> u32
    requires IsOrder(types, order)
  {
    (id: u32) => Representative(h, types, order, id)
  }

  // ---------------------------------------------------------------- types that are alike

  /** Whichever the order, the purge leaves one id for both references. */
  predicate SameAfterwards(h: StdHash, types: TypeTable, a: u32, b: u32) {
    a == b || (a in types && b in types && TypeHash(h, types[a]) == TypeHash(h, types[b]))
  }

  predicate AlikeFields(h: StdHash, types: TypeTable, f: FieldSymbol, g: FieldSymbol) {
    && SameField(f, g.(underlyingTypeId := f.underlyingTypeId))
    && SameAfterwards(h, types, f.underlyingTypeId, g.underlyingTypeId)
  }

  /** All that operator== compares is equal, but for references to types of one hash. */
  predicate AlikeTypes(h: StdHash, types: TypeTable, s: TypeSymbol, t: TypeSymbol) {
    && s.length == t.length && s.fieldCount == t.fieldCount && s.name == t.name
    && SameAfterwards(h, types, s.typedefSource, t.typedefSource)
    && |s.fields| == |t.fields|
    && forall i :: 0 <= i < |s.fields| ==> AlikeFields(h, types, s.fields[i], t.fields[i])
  }

  /** A condition on the table before the purge only. */
  predicate DuplicatesAreAlike(h: StdHash, types: TypeTable) {
    forall a, b :: a in types && b in types && TypeHash(h, types[a]) == TypeHash(h, types[b])
      ==> AlikeTypes(h, types, types[a], types[b])
  }

  lemma {:induction false} SameAfterwardsIff(h: StdHash, types: TypeTable, order: seq<u32>, a: u32, b: u32)
    requires IsOrder(types, order)
    ensures SameAfterwards(h, types, a, b) <==>
            Representative(h, types, order, a) == Representative(h, types, order, b)
  {
    if a in types {
      RepresentativeOfType(h, types, order, a);
    }
    if b in types {
      RepresentativeOfType(h, types, order, b);
    }
  }

  // ---------------------------------------------------------------- types

  /** How the type of one survivor and that of its class's survivor under the other order compare. */
  lemma {:induction false} RenamedIffAlike(
      h: StdHash, types: TypeTable, order: seq<u32>, order': seq<u32>, s: TypeSymbol, t: TypeSymbol)
    requires IsOrder(types, order) && IsOrder(types, order')
    ensures RenamedType(Renaming(h, types, order'), RewriteType(OldToNew(h, types, order), s),
                        RewriteType(OldToNew(h, types, order'), t))
            <==> AlikeTypes(h, types, s, t)
  {
    RenamedReference(h, types, order, order', s.typedefSource, t.typedefSource);
    if |s.fields| == |t.fields| {
      forall i | 0 <= i < |s.fields|
        ensures RewriteId(OldToNew(h, types, order'), t.fields[i].underlyingTypeId)
                == Renaming(h, types, order')(RewriteId(OldToNew(h, types, order), s.fields[i].underlyingTypeId))
                <==> SameAfterwards(h, types, s.fields[i].underlyingTypeId, t.fields[i].underlyingTypeId)
      {
        RenamedReference(h, types, order, order', s.fields[i].underlyingTypeId, t.fields[i].underlyingTypeId);
      }
      RenamedFieldsIffAlike(h, types, order, order', s, t);
    }
  }

  lemma {:induction false} RenamedReference(
      h: StdHash, types: TypeTable, order: seq<u32>, order': seq<u32>, a: u32, b: u32)
    requires IsOrder(types, order) && IsOrder(types, order')
    ensures RewriteId(OldToNew(h, types, order'), b)
            == Renaming(h, types, order')(RewriteId(OldToNew(h, types, order), a))
            <==> SameAfterwards(h, types, a, b)
  {
    RepresentativeOfRepresentative(h, types, order, order', a);
    RewriteIdIsRepresentative(h, types, order', b);
    RewriteIdIsRepresentative(h, types, order', a);
    SameAfterwardsIff(h, types, order', a, b);
  }

  lemma {:induction false} RenamedFieldsIffAlike(
      h: StdHash, types: TypeTable, order: seq<u32>, order': seq<u32>, s: TypeSymbol, t: TypeSymbol)
    requires IsOrder(types, order) && IsOrder(types, order') && |s.fields| == |t.fields|
    requires forall i :: 0 <= i < |s.fields| ==>
               (RewriteId(OldToNew(h, types, order'), t.fields[i].underlyingTypeId)
                == Renaming(h, types, order')(RewriteId(OldToNew(h, types, order), s.fields[i].underlyingTypeId))
                <==> SameAfterwards(h, types, s.fields[i].underlyingTypeId, t.fields[i].underlyingTypeId))
    ensures var rename := Renaming(h, types, order');
            var a, b := RewriteType(OldToNew(h, types, order), s), RewriteType(OldToNew(h, types, order'), t);
            (forall i :: 0 <= i < |a.fields| ==>
               SameField(b.fields[i], a.fields[i].(underlyingTypeId := rename(a.fields[i].underlyingTypeId))))
            <==> forall i :: 0 <= i < |s.fields| ==> AlikeFields(h, types, s.fields[i], t.fields[i])
  {
    var rename := Renaming(h, types, order');
    var a, b := RewriteType(OldToNew(h, types, order), s), RewriteType(OldToNew(h, types, order'), t);
    forall i | 0 <= i < |s.fields|
      ensures SameField(b.fields[i], a.fields[i].(underlyingTypeId := rename(a.fields[i].underlyingTypeId)))
              <==> AlikeFields(h, types, s.fields[i], t.fields[i])
    {
      assert a.fields[i] == RewriteField(OldToNew(h, types, order), s.fields[i]);
      assert b.fields[i] == RewriteField(OldToNew(h, types, order'), t.fields[i]);
    }
  }

  lemma SurvivorsBiject(h: StdHash, types: TypeTable, order: seq<u32>, order': seq<u32>)
    requires IsOrder(types, order) && IsOrder(types, order')
    ensures forall a, b ::
              && IsSurvivor(h, types, order, a) && IsSurvivor(h, types, order, b)
              && Representative(h, types, order', a) == Representative(h, types, order', b)
              ==> a == b
    ensures forall b :: IsSurvivor(h, types, order', b) ==>
              exists a :: IsSurvivor(h, types, order, a) && Representative(h, types, order', a) == b
  {
    forall a, b | IsSurvivor(h, types, order, a) && IsSurvivor(h, types, order, b)
        && Representative(h, types, order', a) == Representative(h, types, order', b)
      ensures a == b
    {
      RepresentativeOfRepresentative(h, types, order', order, a);
      RepresentativeOfRepresentative(h, types, order', order, b);
    }
    forall b | IsSurvivor(h, types, order', b)
      ensures exists a :: IsSurvivor(h, types, order, a) && Representative(h, types, order', a) == b
    {
      RepresentativeOfType(h, types, order, b);
      RepresentativeOfRepresentative(h, types, order, order', b);
      var a := Representative(h, types, order, b);
      assert IsSurvivor(h, types, order, a);
    }
  }

  lemma FunctionsCorrespond(
      h: StdHash, types: TypeTable, order: seq<u32>, order': seq<u32>, f: FunctionSymbol)
    requires IsOrder(types, order) && IsOrder(types, order')
    ensures RenamedFunction(Renaming(h, types, order'),
                            RewriteFunction(OldToNew(h, types, order), f),
                            RewriteFunction(OldToNew(h, types, order'), f))
  {
    var rename := Renaming(h, types, order');
    var m, m' := OldToNew(h, types, order), OldToNew(h, types, order');
    RepresentativeOfRepresentative(h, types, order, order', f.returnTypeId);
    forall i | 0 <= i < |f.argumentTypeIds|
      ensures RewriteId(m', f.argumentTypeIds[i]) == rename(RewriteId(m, f.argumentTypeIds[i]))
    {
      RepresentativeOfRepresentative(h, types, order, order', f.argumentTypeIds[i]);
    }
    var ids := RewriteFunction(m, f).argumentTypeIds;
    assert RewriteFunction(m', f).argumentTypeIds
        == seq(|ids|, i requires 0 <= i < |ids| => rename(ids[i]));
  }

  lemma PurgedFunctionsCorrespond(
      h: StdHash, types: TypeTable, order: seq<u32>, order': seq<u32>, functions: FunctionTable)
    requires IsOrder(types, order) && IsOrder(types, order')
    ensures IsomorphicFunctions(Renaming(h, types, order'),
              PurgedFunctions(h, types, order, functions), PurgedFunctions(h, types, order', functions))
  {
    forall id | id in functions
      ensures RenamedFunction(Renaming(h, types, order'), PurgedFunctions(h, types, order, functions)[id],
                              PurgedFunctions(h, types, order', functions)[id])
    {
      FunctionsCorrespond(h, types, order, order', functions[id]);
    }
  }

  lemma KeysBiject(h: StdHash, types: TypeTable, order: seq<u32>, order': seq<u32>)
    requires IsOrder(types, order) && IsOrder(types, order')
    ensures var rename := Renaming(h, types, order');
            var t, t' := PurgedTypes(h, types, order), PurgedTypes(h, types, order');
            && (forall a, b :: a in t && b in t && rename(a) == rename(b) ==> a == b)
            && (forall b :: b in t' ==> exists a :: a in t && rename(a) == b)
  {
    var rename, t, t' := Renaming(h, types, order'), PurgedTypes(h, types, order), PurgedTypes(h, types, order');
    SurvivorsBiject(h, types, order, order');
    forall b | b in t'
      ensures exists a :: a in t && rename(a) == b
    {
      SurvivorsAreTheKeys(h, types, order', b);
      var a :| IsSurvivor(h, types, order, a) && Representative(h, types, order', a) == b;
      SurvivorsAreTheKeys(h, types, order, a);
      assert rename(a) == b;
    }
  }

  lemma {:induction false} IsomorphicIfAlike(h: StdHash, types: TypeTable, order: seq<u32>, order': seq<u32>)
    requires IsOrder(types, order) && IsOrder(types, order')
    requires DuplicatesAreAlike(h, types)
    ensures IsomorphicTypes(Renaming(h, types, order'),
              PurgedTypes(h, types, order), PurgedTypes(h, types, order'))
  {
    var rename := Renaming(h, types, order');
    var t, t' := PurgedTypes(h, types, order), PurgedTypes(h, types, order');
    forall a | a in t
      ensures rename(a) in t' && RenamedType(rename, t[a], t'[rename(a)])
    {
      RepresentativeOfType(h, types, order', a);
      RenamedIffAlike(h, types, order, order', types[a], types[rename(a)]);
    }
    KeysBiject(h, types, order, order');
  }

  // ---------------------------------------------------------------- orders that start with a given id

  ghost function Others(s: set<u32>): (order: seq<u32>)
    ensures forall i, j :: 0 <= i < j < |order| ==> order[i] != order[j]
    ensures forall id :: id in order <==> id in s
  {
    if s == {} then []
    else
      var id :| id in s;
      Others(s - {id}) + [id]
  }

  ghost function StartingWith(types: TypeTable, id: u32): (order: seq<u32>)
    requires id in types
    ensures IsOrder(types, order) && order[0] == id
  {
    [id] + Others(types.Keys - {id})
  }

  lemma {:induction false} FirstSurvives(h: StdHash, types: TypeTable, order: seq<u32>)
    requires IsOrder(types, order) && order != []
    ensures IsSurvivor(h, types, order, order[0])
  {
    NextInOrder(h, types, order, 0);
  }

  /** The purged tables from any two orders are the same up to renaming survivors. */
  ghost predicate OrderIndependent(h: StdHash, types: TypeTable) {
    forall order, order' | IsOrder(types, order) && IsOrder(types, order') ::
      IsomorphicTypes(Renaming(h, types, order'), PurgedTypes(h, types, order), PurgedTypes(h, types, order'))
  }

  lemma {:induction false} AlikeIfIndependent(h: StdHash, types: TypeTable, a: u32, b: u32)
    requires OrderIndependent(h, types)
    requires a in types && b in types && TypeHash(h, types[a]) == TypeHash(h, types[b])
    ensures AlikeTypes(h, types, types[a], types[b])
  {
    var order, order' := StartingWith(types, a), StartingWith(types, b);
    FirstSurvives(h, types, order);
    FirstSurvives(h, types, order');
    RepresentativeOfType(h, types, order', b);
    SurvivorsAreTheKeys(h, types, order, a);
    SurvivorsAreTheKeys(h, types, order', b);
    assert IsomorphicTypes(Renaming(h, types, order'), PurgedTypes(h, types, order), PurgedTypes(h, types, order'));
    RenamedIffAlike(h, types, order, order', types[a], types[b]);
  }

  /** The iteration order does not matter exactly when types of one hash are alike. */
  lemma {:induction false} PurgeIsOrderIndependentIff(h: StdHash, types: TypeTable)
    ensures OrderIndependent(h, types) <==> DuplicatesAreAlike(h, types)
  {
    if DuplicatesAreAlike(h, types) {
      forall order, order' | IsOrder(types, order) && IsOrder(types, order')
        ensures IsomorphicTypes(Renaming(h, types, order'),
                  PurgedTypes(h, types, order), PurgedTypes(h, types, order'))
      {
        IsomorphicIfAlike(h, types, order, order');
      }
    }
    if OrderIndependent(h, types) {
      forall a, b | a in types && b in types && TypeHash(h, types[a]) == TypeHash(h, types[b])
        ensures AlikeTypes(h, types, types[a], types[b])
      {
        AlikeIfIndependent(h, types, a, b);
      }
    }
  }

  /** So it does not if equal hashes imply operator==: the purged tables are the same up to which id
      of each class stands for it. Functions are so in any case. */
  lemma PurgeIsOrderIndependent(
      h: StdHash, types: TypeTable, order: seq<u32>, order': seq<u32>, functions: FunctionTable)
    requires IsOrder(types, order) && IsOrder(types, order')
    requires EqualHashImpliesEqual(h, types)
    ensures IsomorphicTypes(Renaming(h, types, order'),
              PurgedTypes(h, types, order), PurgedTypes(h, types, order'))
    ensures IsomorphicFunctions(Renaming(h, types, order'),
              PurgedFunctions(h, types, order, functions), PurgedFunctions(h, types, order', functions))
  {
    forall a, b | a in types && b in types && TypeHash(h, types[a]) == TypeHash(h, types[b])
      ensures AlikeTypes(h, types, types[a], types[b])
    {
      forall i | 0 <= i < |types[a].fields|
        ensures AlikeFields(h, types, types[a].fields[i], types[b].fields[i])
      {
        assert SameField(types[a].fields[i], types[b].fields[i]);
      }
    }
    IsomorphicIfAlike(h, types, order, order');
    PurgedFunctionsCorrespond(h, types, order, order', functions);
  }
}
