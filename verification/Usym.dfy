/** The symbol table object and the two passes it runs before it is written
    (Components/UniversalSymbolsFormat/USYM.cpp). */
module UsymTable {
  import opened Symbols
  import opened Purge
  import opened PurgedRecords

  class Usym {
    var typeSymbols: TypeTable
    var functionSymbols: FunctionTable

    constructor ()
      ensures typeSymbols == map[] && functionSymbols == map[]
    {
      typeSymbols, functionSymbols := map[], map[];
    }

    /** Merges the types that hash alike. order and functionOrder are the orders in which the
        two unordered maps happen to be iterated. */
    method PurgeDuplicateTypes(h: StdHash, order: seq<u32>, functionOrder: seq<u32>)
      requires IsOrder(typeSymbols, order) && IsOrder(functionSymbols, functionOrder)
      modifies this
      ensures typeSymbols == PurgedTypes(h, old(typeSymbols), order)
      ensures functionSymbols == PurgedFunctions(h, old(typeSymbols), order, old(functionSymbols))
      ensures IsPurge(h, old(typeSymbols), order, old(functionSymbols), typeSymbols, functionSymbols)
    {
      var oldToNew := CollectDuplicates(h, order);
      RewriteTypeSymbols(oldToNew, order);
      RewriteFunctionSymbols(oldToNew, functionOrder);
      typeSymbols := EraseTypes(oldToNew, typeSymbols);
      PurgeInTwoSteps(h, old(typeSymbols), order);
      PurgeIsShown(h, old(typeSymbols), order, old(functionSymbols));
    }

    method CollectDuplicates(h: StdHash, order: seq<u32>) returns (oldToNew: map<u32, u32>)
      requires IsOrder(typeSymbols, order)
      ensures oldToNew == OldToNew(h, typeSymbols, order)
    {
      var types := typeSymbols;
      oldToNew := map[];
      var hashesToIds: map<nat, u32> := map[];
      for i := 0 to |order|
        invariant forall hash :: FirstWithHash(h, types, order[..i], hash) ==
                    if hash in hashesToIds then Some(hashesToIds[hash]) else None
        invariant oldToNew == OldToNewUpTo(h, types, order, i)
      {
        var id := order[i];
        var hash := ComputeTypeHash(h, types[id]);
        NextInOrder(h, types, order, i);
        NextDuplicate(h, types, order, i);
        if hash in hashesToIds {
          oldToNew := oldToNew[id := hashesToIds[hash]];
        } else {
          hashesToIds := hashesToIds[hash := id];
        }
      }
      AllDuplicates(h, types, order);
    }

    static method RewriteTypeSymbol(oldToNew: map<u32, u32>, before: TypeSymbol) returns (symbol: TypeSymbol)
      ensures symbol == RewriteType(oldToNew, before)
    {
      symbol := before;
      if symbol.typedefSource in oldToNew {
        symbol := symbol.(typedefSource := oldToNew[symbol.typedefSource]);
      }
      var fields := symbol.fields;
      for k := 0 to |fields|
        invariant |fields| == |before.fields|
        invariant forall j :: 0 <= j < |fields| ==>
                    fields[j] == if j < k then RewriteField(oldToNew, before.fields[j]) else before.fields[j]
      {
        if fields[k].underlyingTypeId in oldToNew {
          fields := fields[k := fields[k].(underlyingTypeId := oldToNew[fields[k].underlyingTypeId])];
        }
      }
      assert fields == RewriteFields(oldToNew, before.fields);
      symbol := symbol.(fields := fields);
    }

    static method RewriteFunctionSymbol(oldToNew: map<u32, u32>, before: FunctionSymbol)
        returns (symbol: FunctionSymbol)
      ensures symbol == RewriteFunction(oldToNew, before)
    {
      symbol := before;
      if symbol.returnTypeId in oldToNew {
        symbol := symbol.(returnTypeId := oldToNew[symbol.returnTypeId]);
      }
      var ids := symbol.argumentTypeIds;
      for k := 0 to |ids|
        invariant |ids| == |before.argumentTypeIds|
        invariant forall j :: 0 <= j < |ids| ==>
                    ids[j] == if j < k then RewriteId(oldToNew, before.argumentTypeIds[j])
                              else before.argumentTypeIds[j]
      {
        if ids[k] in oldToNew {
          ids := ids[k := oldToNew[ids[k]]];
        }
      }
      assert ids == RewriteIds(oldToNew, before.argumentTypeIds);
      symbol := symbol.(argumentTypeIds := ids);
    }

    method RewriteTypeSymbols(oldToNew: map<u32, u32>, order: seq<u32>)
      requires IsOrder(typeSymbols, order)
      modifies this`typeSymbols
      ensures typeSymbols == RewriteTypes(oldToNew, old(typeSymbols))
    {
      for i := 0 to |order|
        invariant typeSymbols.Keys == old(typeSymbols).Keys
        invariant forall j :: 0 <= j < i ==>
                    typeSymbols[order[j]] == RewriteType(oldToNew, old(typeSymbols)[order[j]])
        invariant forall j :: i <= j < |order| ==> typeSymbols[order[j]] == old(typeSymbols)[order[j]]
      {
        var symbol := RewriteTypeSymbol(oldToNew, typeSymbols[order[i]]);
        typeSymbols := typeSymbols[order[i] := symbol];
      }
    }

    method RewriteFunctionSymbols(oldToNew: map<u32, u32>, functionOrder: seq<u32>)
      requires IsOrder(functionSymbols, functionOrder)
      modifies this`functionSymbols
      ensures functionSymbols == RewriteFunctions(oldToNew, old(functionSymbols))
    {
      for i := 0 to |functionOrder|
        invariant functionSymbols.Keys == old(functionSymbols).Keys
        invariant forall j :: 0 <= j < i ==>
                    functionSymbols[functionOrder[j]]
                    == RewriteFunction(oldToNew, old(functionSymbols)[functionOrder[j]])
        invariant forall j :: i <= j < |functionOrder| ==>
                    functionSymbols[functionOrder[j]] == old(functionSymbols)[functionOrder[j]]
      {
        var symbol := RewriteFunctionSymbol(oldToNew, functionSymbols[functionOrder[i]]);
        functionSymbols := functionSymbols[functionOrder[i] := symbol];
      }
    }

    /** True exactly when every type id mentioned anywhere is 0 or a key. */
    method VerifyTypeIds(order: seq<u32>, functionOrder: seq<u32>) returns (purity: bool)
      requires IsOrder(typeSymbols, order) && IsOrder(functionSymbols, functionOrder)
      ensures purity <==> Closed(typeSymbols, functionSymbols)
    {
      purity := true;
      for i := 0 to |functionOrder|
        invariant purity <==> forall j :: 0 <= j < i ==> FunctionRefsOk(typeSymbols, functionSymbols[functionOrder[j]])
      {
        var symbol := functionSymbols[functionOrder[i]];
        ghost var before := purity;
        if symbol.returnTypeId != 0 && symbol.returnTypeId !in typeSymbols {
          purity := false;
        }
        for k := 0 to |symbol.argumentTypeIds|
          invariant purity <==>
                    && before && RefOk(typeSymbols, symbol.returnTypeId)
                    && forall j :: 0 <= j < k ==> RefOk(typeSymbols, symbol.argumentTypeIds[j])
        {
          if symbol.argumentTypeIds[k] != 0 && symbol.argumentTypeIds[k] !in typeSymbols {
            purity := false;
          }
        }
        assert purity <==> before && FunctionRefsOk(typeSymbols, symbol);
      }
      ghost var functionsOk := purity;
      assert functionsOk <==> forall id :: id in functionSymbols ==> FunctionRefsOk(typeSymbols, functionSymbols[id]);
      for i := 0 to |order|
        invariant purity <==>
                    && functionsOk
                    && forall j :: 0 <= j < i ==> TypeRefsOk(typeSymbols, typeSymbols[order[j]])
      {
        var symbol := typeSymbols[order[i]];
        ghost var before := purity;
        if symbol.typedefSource != 0 && symbol.typedefSource !in typeSymbols {
          purity := false;
        }
        for k := 0 to |symbol.fields|
          invariant purity <==>
                    && before && RefOk(typeSymbols, symbol.typedefSource)
                    && forall j :: 0 <= j < k ==> RefOk(typeSymbols, symbol.fields[j].underlyingTypeId)
        {
          if symbol.fields[k].underlyingTypeId != 0 && symbol.fields[k].underlyingTypeId !in typeSymbols {
            purity := false;
          }
        }
        assert purity <==> before && TypeRefsOk(typeSymbols, symbol);
      }
      assert (forall j :: 0 <= j < |order| ==> TypeRefsOk(typeSymbols, typeSymbols[order[j]])) <==>
             forall id :: id in typeSymbols ==> TypeRefsOk(typeSymbols, typeSymbols[id]);
    }
  }
}
