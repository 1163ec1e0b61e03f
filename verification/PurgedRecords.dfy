/** What a purge does to each record, which records compare equal, and which tables verify, said of
    the records' own fields (Components/UniversalSymbolsFormat/USYM.h and USYM.cpp). */
module PurgedRecords {
  import opened Symbols
  import opened Purge

  // ---------------------------------------------------------------- what a purge leaves

  /** r stands in for id: the first in the iteration order whose type hashes like that of id, or id itself
      if it names no type. */
  ghost predicate StandsIn(h: StdHash, types: TypeTable, order: seq<u32>, id: u32, r: u32)
    requires IsOrder(types, order)
  {
    if id !in types then r == id
    else exists i: nat :: IsFirst(h, types, order, TypeHash(h, types[id]), i) && order[i] == r
  }

  ghost predicate IsFirst(h: StdHash, types: TypeTable, order: seq<u32>, hash: nat, i: nat)
    requires IsOrder(types, order)
  {
    && i < |order| && TypeHash(h, types[order[i]]) == hash
    && forall j :: 0 <= j < i ==> TypeHash(h, types[order[j]]) != hash
  }

  ghost predicate FieldKept(h: StdHash, types: TypeTable, order: seq<u32>, f: FieldSymbol, g: FieldSymbol)
    requires IsOrder(types, order)
  {
    && (g.id, g.name, g.offset, g.isAnonymousUnion, g.unionId)
       == (f.id, f.name, f.offset, f.isAnonymousUnion, f.unionId)
    && StandsIn(h, types, order, f.underlyingTypeId, g.underlyingTypeId)
  }

  ghost predicate TypeKept(h: StdHash, types: TypeTable, order: seq<u32>, s: TypeSymbol, t: TypeSymbol)
    requires IsOrder(types, order)
  {
    && (t.id, t.name, t.kind, t.length, t.fieldCount) == (s.id, s.name, s.kind, s.length, s.fieldCount)
    && StandsIn(h, types, order, s.typedefSource, t.typedefSource)
    && |t.fields| == |s.fields|
    && forall i :: 0 <= i < |s.fields| ==> FieldKept(h, types, order, s.fields[i], t.fields[i])
  }

  ghost predicate FunctionKept(h: StdHash, types: TypeTable, order: seq<u32>, f: FunctionSymbol, g: FunctionSymbol)
    requires IsOrder(types, order)
  {
    && (g.id, g.name, g.argumentCount, g.callingConvention, g.virtualAddress)
       == (f.id, f.name, f.argumentCount, f.callingConvention, f.virtualAddress)
    && StandsIn(h, types, order, f.returnTypeId, g.returnTypeId)
    && |g.argumentTypeIds| == |f.argumentTypeIds|
    && forall i :: 0 <= i < |f.argumentTypeIds| ==>
         StandsIn(h, types, order, f.argumentTypeIds[i], g.argumentTypeIds[i])
  }

  /** What the purge leaves: the types that stand in for themselves, and every function, each with its record
      but for the type ids in it, which are those of their stand-ins. */
  ghost predicate IsPurge(h: StdHash, types: TypeTable, order: seq<u32>, functions: FunctionTable,
                          typesAfter: TypeTable, functionsAfter: FunctionTable)
    requires IsOrder(types, order)
  {
    && (forall id :: id in typesAfter <==> id in types && StandsIn(h, types, order, id, id))
    && (forall id :: id in typesAfter && id in types ==> TypeKept(h, types, order, types[id], typesAfter[id]))
    && functionsAfter.Keys == functions.Keys
    && (forall id :: id in functions && id in functionsAfter ==>
          FunctionKept(h, types, order, functions[id], functionsAfter[id]))
  }

  lemma {:induction false} FoundFirst(h: StdHash, types: TypeTable, order: seq<u32>, hash: nat, n: nat, i: nat)
    requires IsOrder(types, order) && i < n <= |order| && IsFirst(h, types, order, hash, i)
    ensures FirstWithHash(h, types, order[..n], hash) == Some(order[i])
  {
    assert order[..n][..n - 1] == order[..n - 1];
    if i < n - 1 {
      FoundFirst(h, types, order, hash, n - 1, i);
    } else {
      FirstWithHashIsSound(h, types, order[..i], hash);
    }
  }

  lemma {:induction false} FirstRepresents(h: StdHash, types: TypeTable, order: seq<u32>, id: u32, i: nat)
    requires IsOrder(types, order) && id in types && IsFirst(h, types, order, TypeHash(h, types[id]), i)
    ensures Representative(h, types, order, id) == order[i]
  {
    assert order[..|order|] == order;
    FoundFirst(h, types, order, TypeHash(h, types[id]), |order|, i);
  }

  lemma {:induction false} FirstExists(h: StdHash, types: TypeTable, order: seq<u32>, id: u32) returns (i: nat)
    requires IsOrder(types, order) && id in types
    ensures IsFirst(h, types, order, TypeHash(h, types[id]), i)
  {
    var n :| 0 <= n < |order| && order[n] == id;
    i := 0;
    while TypeHash(h, types[order[i]]) != TypeHash(h, types[id])
      invariant i <= n
      invariant forall j :: 0 <= j < i ==> TypeHash(h, types[order[j]]) != TypeHash(h, types[id])
      decreases n - i
    {
      i := i + 1;
    }
  }

  lemma {:induction false} StandsInIff(h: StdHash, types: TypeTable, order: seq<u32>, id: u32, r: u32)
    requires IsOrder(types, order)
    ensures StandsIn(h, types, order, id, r) <==> r == Representative(h, types, order, id)
  {
    if id in types {
      var i := FirstExists(h, types, order, id);
      FirstRepresents(h, types, order, id, i);
      if StandsIn(h, types, order, id, r) {
        var k: nat :| IsFirst(h, types, order, TypeHash(h, types[id]), k) && order[k] == r;
        FirstRepresents(h, types, order, id, k);
      }
    }
  }

  lemma {:induction false} SurvivorIsKept(h: StdHash, types: TypeTable, order: seq<u32>, id: u32)
    requires IsOrder(types, order) && id in PurgedTypes(h, types, order)
    ensures TypeKept(h, types, order, types[id], PurgedTypes(h, types, order)[id])
  {
    var s, t := types[id], PurgedTypes(h, types, order)[id];
    RewriteIdIsRepresentative(h, types, order, s.typedefSource);
    StandsInIff(h, types, order, s.typedefSource, t.typedefSource);
    forall i | 0 <= i < |s.fields|
      ensures FieldKept(h, types, order, s.fields[i], t.fields[i])
    {
      RewriteIdIsRepresentative(h, types, order, s.fields[i].underlyingTypeId);
      StandsInIff(h, types, order, s.fields[i].underlyingTypeId, t.fields[i].underlyingTypeId);
    }
  }

  lemma {:induction false} FunctionIsKept(
      h: StdHash, types: TypeTable, order: seq<u32>, functions: FunctionTable, id: u32)
    requires IsOrder(types, order) && id in functions
    ensures FunctionKept(h, types, order, functions[id], PurgedFunctions(h, types, order, functions)[id])
  {
    var f, g := functions[id], PurgedFunctions(h, types, order, functions)[id];
    RewriteIdIsRepresentative(h, types, order, f.returnTypeId);
    StandsInIff(h, types, order, f.returnTypeId, g.returnTypeId);
    forall i | 0 <= i < |f.argumentTypeIds|
      ensures StandsIn(h, types, order, f.argumentTypeIds[i], g.argumentTypeIds[i])
    {
      RewriteIdIsRepresentative(h, types, order, f.argumentTypeIds[i]);
      StandsInIff(h, types, order, f.argumentTypeIds[i], g.argumentTypeIds[i]);
    }
  }

  lemma {:induction false} PurgeIsShown(h: StdHash, types: TypeTable, order: seq<u32>, functions: FunctionTable)
    requires IsOrder(types, order)
    ensures IsPurge(h, types, order, functions,
                    PurgedTypes(h, types, order), PurgedFunctions(h, types, order, functions))
  {
    forall id
      ensures id in PurgedTypes(h, types, order) <==> id in types && StandsIn(h, types, order, id, id)
    {
      StandsInIff(h, types, order, id, id);
    }
    forall id | id in PurgedTypes(h, types, order)
      ensures TypeKept(h, types, order, types[id], PurgedTypes(h, types, order)[id])
    {
      SurvivorIsKept(h, types, order, id);
    }
    forall id | id in functions
      ensures FunctionKept(h, types, order, functions[id], PurgedFunctions(h, types, order, functions)[id])
    {
      FunctionIsKept(h, types, order, functions, id);
    }
  }

  /** operator== compares everything but the kind and the records' own ids. */
  lemma {:induction false} SameTypeIff(s: TypeSymbol, t: TypeSymbol)
    ensures SameType(s, t) <==>
            (s.(id := 0, kind := Unknown, fields := WithoutIds(s.fields))
             == t.(id := 0, kind := Unknown, fields := WithoutIds(t.fields)))
  {
    if SameType(s, t) {
      assert WithoutIds(s.fields) == WithoutIds(t.fields);
    }
    if WithoutIds(s.fields) == WithoutIds(t.fields) {
      forall i | 0 <= i < |s.fields|
        ensures SameField(s.fields[i], t.fields[i])
      {
        assert WithoutIds(s.fields)[i] == WithoutIds(t.fields)[i];
      }
    }
  }

  function WithoutIds(fields: seq<FieldSymbol>): seq<FieldSymbol> {
    seq(|fields|, i requires 0 <= i < |fields| => fields[i].(id := 0))
  }

  // ---------------------------------------------------------------- which tables verify

  /** The type ids in a type's record. */
  ghost function IdsIn(t: TypeSymbol): set<u32> {
    {t.typedefSource} + set i | 0 <= i < |t.fields| :: t.fields[i].underlyingTypeId
  }

  ghost function IdsInFunction(f: FunctionSymbol): set<u32> {
    {f.returnTypeId} + set i | 0 <= i < |f.argumentTypeIds| :: f.argumentTypeIds[i]
  }

  /** The ids verify exactly if all there are anywhere are keys or 0. */
  lemma {:induction false} ClosedIff(types: TypeTable, functions: FunctionTable)
    ensures Closed(types, functions) <==>
            && (forall k :: k in types ==> IdsIn(types[k]) <= types.Keys + {0})
            && (forall k :: k in functions ==> IdsInFunction(functions[k]) <= types.Keys + {0})
  {
    forall k | k in types
      ensures TypeRefsOk(types, types[k]) <==> IdsIn(types[k]) <= types.Keys + {0}
    {
      TypeRefsOkIff(types, types[k]);
    }
    forall k | k in functions
      ensures FunctionRefsOk(types, functions[k]) <==> IdsInFunction(functions[k]) <= types.Keys + {0}
    {
      FunctionRefsOkIff(types, functions[k]);
    }
  }

  lemma {:induction false} TypeRefsOkIff(types: TypeTable, t: TypeSymbol)
    ensures TypeRefsOk(types, t) <==> IdsIn(t) <= types.Keys + {0}
  {
    if IdsIn(t) <= types.Keys + {0} {
      assert t.typedefSource in IdsIn(t);
      forall i | 0 <= i < |t.fields|
        ensures RefOk(types, t.fields[i].underlyingTypeId)
      {
        assert t.fields[i].underlyingTypeId in IdsIn(t);
      }
    }
  }

  lemma {:induction false} FunctionRefsOkIff(types: TypeTable, f: FunctionSymbol)
    ensures FunctionRefsOk(types, f) <==> IdsInFunction(f) <= types.Keys + {0}
  {
    if IdsInFunction(f) <= types.Keys + {0} {
      assert f.returnTypeId in IdsInFunction(f);
      forall i | 0 <= i < |f.argumentTypeIds|
        ensures RefOk(types, f.argumentTypeIds[i])
      {
        assert f.argumentTypeIds[i] in IdsInFunction(f);
      }
    }
  }

  /** A typedef of a type that is not in the table. */
  lemma {:induction false} DanglingSourceIsFound()
    ensures !Closed(map[1 := EMPTY_TYPE.(id := 1, kind := Typedef, typedefSource := 2)], map[])
  {
    var types: TypeTable := map[1 := EMPTY_TYPE.(id := 1, kind := Typedef, typedefSource := 2)];
    assert 1 in types && !RefOk(types, 2);
  }
}
