/** The importer: a depth-first search over DIA's type graph that fills the symbol table
    (Components/DiaProcessor/DiaInterface.cpp). */
module DiaImporter {
  import opened Seqs
  import opened Sets
  import opened Symbols
  import opened Purge
  import opened UsymTable
  import opened AnonymousUnions
  import opened DiaGraph
  import opened DiaFunctions

  // ---------------------------------------------------------------- the table between calls

  /** k has its final record, and everything it refers to is in the table. */
  ghost predicate Done(g: Graph, types: TypeTable, k: u32, pointers: nat) {
    && k in types
    && RecordFor(g, k, types[k], pointers)
    && forall to :: Edge(g, k, to) ==> to in types
  }

  ghost predicate PointerNamesDiffer(types: TypeTable) {
    forall a, b ::
      a in types && b in types && a != b && types[a].kind == Pointer && types[b].kind == Pointer
      ==> types[a].name != types[b].name
  }

  /** What holds of the table whenever control passes between the importer's functions.
      grey holds the ids under construction, which may still have the placeholder. */
  ghost predicate Consistent(g: Graph, reach: set<u32>, types: TypeTable, pointers: nat, grey: set<u32>) {
    && types.Keys <= reach
    && (forall k :: k in types ==> Done(g, types, k, pointers) || (k in grey && types[k] == EMPTY_TYPE))
    && PointerNamesDiffer(types)
  }

  lemma OneMoreId(ids: seq<u32>, n: nat, before: set<u32>, keys: set<u32>)
    requires n < |ids| && Ids(ids[..n]) <= before <= keys && ids[n] in keys
    ensures Ids(ids[..n + 1]) <= keys
  {
    TakeOneMore(ids, n);
  }

  ghost predicate SearchSpace(g: Graph, reach: set<u32>, rank: map<u32, nat>) {
    && GraphOk(g)
    && reach <= g.Keys
    && ClosedUnderEdges(g, reach)
    && IsRank(g, reach, rank)
  }

  lemma RecordRefersToEdges(g: Graph, id: u32, t: TypeSymbol, pointers: nat)
    requires RecordFor(g, id, t, pointers)
    ensures t.typedefSource == 0 || Edge(g, id, t.typedefSource)
    ensures forall i :: 0 <= i < |t.fields| ==>
              t.fields[i].underlyingTypeId == 0 || Edge(g, id, t.fields[i].underlyingTypeId)
  {
    if Supported(g, id) && HasMembers(g, id) {
      var members := g[id].members;
      var fields: seq<FieldSymbol> :|
        FieldsFor(g, members, fields) && |fields| < 0x8000_0000 && t == MemberRecord(g, id, fields);
      forall i | 0 <= i < |t.fields|
        ensures t.fields[i].underlyingTypeId == 0 || Edge(g, id, t.fields[i].underlyingTypeId)
      {
        assert FieldFor(g, members[i], fields[i]);
        assert t.fields[i].underlyingTypeId == fields[i].underlyingTypeId;
      }
    }
  }

  /** Whatever is under construction, every id stored in a type record is 0 or a key. */
  lemma ConsistentIsClosed(g: Graph, reach: set<u32>, types: TypeTable, pointers: nat, grey: set<u32>)
    requires Consistent(g, reach, types, pointers, grey)
    ensures forall k :: k in types ==> TypeRefsOk(types, types[k])
  {
    forall k | k in types
      ensures TypeRefsOk(types, types[k])
    {
      if Done(g, types, k, pointers) {
        RecordRefersToEdges(g, k, types[k], pointers);
      }
    }
  }

  lemma MorePointers(g: Graph, reach: set<u32>, types: TypeTable, pointers: nat, pointers': nat, grey: set<u32>)
    requires Consistent(g, reach, types, pointers, grey) && pointers <= pointers'
    ensures Consistent(g, reach, types, pointers', grey)
  {
    forall k | k in types && Done(g, types, k, pointers)
      ensures Done(g, types, k, pointers')
    {
      assert RecordFor(g, k, types[k], pointers');
    }
  }

  lemma EnterPlaceholder(g: Graph, reach: set<u32>, types: TypeTable, pointers: nat, grey: set<u32>, id: u32)
    requires Consistent(g, reach, types, pointers, grey) && id in reach
    ensures var types' := if id in types then types else types[id := EMPTY_TYPE];
            Consistent(g, reach, types', pointers, grey + {id})
  {
    var types' := if id in types then types else types[id := EMPTY_TYPE];
    forall k | k in types'
      ensures Done(g, types', k, pointers) || (k in grey + {id} && types'[k] == EMPTY_TYPE)
    {
      if k in types && Done(g, types, k, pointers) {
        assert Done(g, types', k, pointers);
      }
    }
  }

  lemma StoreRecord(
      g: Graph, reach: set<u32>, types: TypeTable, pointers: nat, grey: set<u32>, id: u32, t: TypeSymbol)
    requires Consistent(g, reach, types, pointers, grey + {id}) && id in types
    requires RecordFor(g, id, t, pointers)
    requires forall to :: Edge(g, id, to) ==> to in types
    requires forall k :: k in types && k != id && types[k].kind == Pointer && t.kind == Pointer
               ==> types[k].name != t.name
    ensures Consistent(g, reach, types[id := t], pointers, grey)
    ensures Done(g, types[id := t], id, pointers)
  {
    var types' := types[id := t];
    assert Done(g, types', id, pointers);
    forall k | k in types' && k != id
      ensures Done(g, types', k, pointers) || (k in grey && types'[k] == EMPTY_TYPE)
    {
      if Done(g, types, k, pointers) {
        assert Done(g, types', k, pointers);
      }
    }
  }

  /** A pointer name handed out for the first time is in no record yet. */
  lemma NewPointerName(g: Graph, reach: set<u32>, types: TypeTable, pointers: nat, grey: set<u32>, k: u32)
    requires Consistent(g, reach, types, pointers, grey)
    requires k in types && types[k].kind == Pointer
    ensures types[k].name != PointerName(pointers + 1)
  {
    assert Done(g, types, k, pointers);
    var n :| 1 <= n <= pointers && types[k] == PlainRecord(g, k, PointerName(n));
    if PointerName(n) == PointerName(pointers + 1) {
      PointerNameInjective(n, pointers + 1);
    }
  }

  ghost predicate MembersEntered(members: seq<Member>, keys: set<u32>) {
    forall m :: m in members && m.ofType.Some? ==> m.ofType.value in keys
  }

  lemma OneMoreEntered(members: seq<Member>, n: nat, before: set<u32>, keys: set<u32>)
    requires n < |members| && MembersEntered(members[..n], before) && before <= keys
    requires members[n].ofType.Some? ==> members[n].ofType.value in keys
    ensures MembersEntered(members[..n + 1], keys)
  {
    TakeOneMore(members, n);
  }

  lemma EnteredEdges(g: Graph, id: u32, keys: set<u32>)
    requires id in g && HasMembers(g, id) && MembersEntered(g[id].members, keys)
    ensures forall to :: Edge(g, id, to) ==> to in keys
  {}

  lemma OneMoreField(g: Graph, members: seq<Member>, n: nat, fields: seq<FieldSymbol>, f: FieldSymbol)
    requires n < |members| && FieldsFor(g, members[..n], fields) && FieldFor(g, members[n], f)
    ensures FieldsFor(g, members[..n + 1], fields + [f])
  {}

  /** ids and the arguments from i on, less leading stubs while there was none other, are all of them. */
  ghost predicate ArgumentsLeft(g: Graph, t: FunctionType, i: nat, ids: seq<u32>, position: nat) {
    && i <= |t.arguments|
    && ids + (if position == 0 then SkipStubs(g, t.arguments[i..]) else t.arguments[i..]) == ArgumentsOf(g, t)
  }

  lemma NextArgument(g: Graph, t: FunctionType, i: nat, ids: seq<u32>, position: nat)
    requires ArgumentsLeft(g, t, i, ids, position) && i < |t.arguments|
    ensures if IsStub(g, t.arguments[i]) && position == 0 then ArgumentsLeft(g, t, i + 1, ids, position)
            else
              && ArgumentsLeft(g, t, i + 1, ids + [t.arguments[i]], position + 1)
              && t.arguments[i] in ArgumentsOf(g, t)
  {
    var id := t.arguments[i];
    assert t.arguments[i..] == [id] + t.arguments[i + 1..];
    if !IsStub(g, id) || position != 0 {
      Regroup(ids, [id], t.arguments[i + 1..]);
      assert (ids + [id])[|ids|] == id;
    }
  }

  // ---------------------------------------------------------------- the search

  class Importer {
    const graph: Graph
    const usym: Usym
    /** The static counter behind generated pointer names. */
    var pointers: nat
    ghost const reach: set<u32>
    ghost const rank: map<u32, nat>

    constructor (graph: Graph, usym: Usym, ghost reach: set<u32>, ghost rank: map<u32, nat>)
      ensures this.graph == graph && this.usym == usym && this.reach == reach && this.rank == rank
      ensures pointers == 0
    {
      this.graph, this.usym, this.reach, this.rank, this.pointers := graph, usym, reach, rank, 0;
    }

    ghost predicate TableOk(grey: set<u32>)
      reads this`pointers, usym`typeSymbols
    {
      Consistent(graph, reach, usym.typeSymbols, pointers, grey)
    }

    ghost function Unvisited(): nat
      reads usym`typeSymbols
    {
      |reach - usym.typeSymbols.Keys|
    }

    method CreateFieldSymbol(m: Member, ghost grey: set<u32>) returns (symbol: Option<FieldSymbol>)
      requires SearchSpace(graph, reach, rank) && TableOk(grey)
      requires m.ofType.Some? ==> m.ofType.value in reach
      modifies this`pointers, usym`typeSymbols
      ensures TableOk(grey) && old(usym.typeSymbols.Keys) <= usym.typeSymbols.Keys
      ensures m.ofType.Some? ==> m.ofType.value in usym.typeSymbols
      ensures FieldFor(graph, m, if symbol.Some? then symbol.value else EMPTY_FIELD)
      decreases Unvisited(), 0, 1
    {
      if m.ofType.None? {
        return None;
      }
      if m.ofType.value !in usym.typeSymbols {
        assert |reach - usym.typeSymbols.Keys - {m.ofType.value}| < Unvisited();
        var ok := CreateTypeSymbol(m.ofType.value, grey);
        if !ok {
          return None;
        }
      }
      return Some(FieldOf(m));
    }

    /** Fills in the fields of a class or enum. */
    method CreateMembersForSymbol(id: u32, symbol: TypeSymbol, ghost grey: set<u32>)
        returns (filled: TypeSymbol, ghost fields: seq<FieldSymbol>)
      requires SearchSpace(graph, reach, rank) && TableOk(grey) && id in reach && id in usym.typeSymbols
      requires HasMembers(graph, id) && Supported(graph, id)
      requires symbol.fields == []
      modifies this`pointers, usym`typeSymbols
      ensures TableOk(grey) && old(usym.typeSymbols.Keys) <= usym.typeSymbols.Keys
      ensures forall to :: Edge(graph, id, to) ==> to in usym.typeSymbols
      ensures FieldsFor(graph, graph[id].members, fields) && |fields| < 0x8000_0000
      ensures filled == symbol.(fieldCount := |fields|, fields := WithUnions(symbol.kind, fields))
      decreases Unvisited(), rank[id], 2
    {
      var members := graph[id].members;
      var built: seq<FieldSymbol> := [];
      for i := 0 to |members|
        invariant TableOk(grey) && old(usym.typeSymbols.Keys) <= usym.typeSymbols.Keys
        invariant FieldsFor(graph, members[..i], built)
        invariant MembersEntered(members[..i], usym.typeSymbols.Keys)
      {
        if members[i].ofType.Some? {
          assert Edge(graph, id, members[i].ofType.value);
        }
        UnvisitedFalls(old(usym.typeSymbols.Keys));
        ghost var before := usym.typeSymbols.Keys;
        var field := CreateFieldSymbol(members[i], grey);
        OneMoreField(graph, members, i, built, if field.Some? then field.value else EMPTY_FIELD);
        OneMoreEntered(members, i, before, usym.typeSymbols.Keys);
        // An empty field keeps the field count right.
        built := built + [if field.Some? then field.value else EMPTY_FIELD];
      }
      assert members[..|members|] == members;
      EnteredEdges(graph, id, usym.typeSymbols.Keys);
      fields := built;
      filled := symbol.(fieldCount := |members|, fields := built);
      if filled.kind != Union && filled.kind != Enum {
        filled := SetAnonymousUnionData(filled);
      }
    }

    lemma UnvisitedFalls(before: set<u32>)
      requires before <= usym.typeSymbols.Keys
      ensures Unvisited() <= |reach - before|
    {
      SubsetSize(reach - usym.typeSymbols.Keys, reach - before);
    }

    method CreateBaseTypeSymbol(id: u32) returns (symbol: Option<TypeSymbol>)
      requires id in graph && graph[id].tag.TagBaseType?
      ensures symbol.Some? <==> Supported(graph, id)
      ensures symbol.Some? ==> symbol.value == PlainRecord(graph, id, [])
    {
      var dia := graph[id];
      if dia.baseName.None? || dia.length.None? {
        return None;
      }
      return Some(TypeSymbol(id, dia.baseName.value, Base, dia.length.value, 0, [], 0));
    }

    method CreateUdtSymbol(id: u32, ghost grey: set<u32>) returns (symbol: Option<TypeSymbol>)
      requires SearchSpace(graph, reach, rank) && TableOk(grey) && id in reach && id in usym.typeSymbols
      requires graph[id].tag.TagUdt?
      modifies this`pointers, usym`typeSymbols
      ensures TableOk(grey) && old(usym.typeSymbols.Keys) <= usym.typeSymbols.Keys
      ensures symbol.Some? <==> Supported(graph, id)
      ensures symbol.Some? ==> RecordFor(graph, id, symbol.value, pointers) && symbol.value.kind != Pointer
      ensures forall to :: Edge(graph, id, to) ==> to in usym.typeSymbols
      decreases Unvisited(), rank[id], 3
    {
      var dia := graph[id];
      if dia.udtKind.None? || dia.length.None? {
        return None;
      }
      var record := EMPTY_TYPE.(id := id, kind := KindOfUdt(dia.udtKind.value), name := dia.name,
                                length := dia.length.value);
      ghost var fields: seq<FieldSymbol>;
      record, fields := CreateMembersForSymbol(id, record, grey);
      assert record == MemberRecord(graph, id, fields);
      return Some(record);
    }

    method CreateEnumSymbol(id: u32, ghost grey: set<u32>) returns (symbol: Option<TypeSymbol>)
      requires SearchSpace(graph, reach, rank) && TableOk(grey) && id in reach && id in usym.typeSymbols
      requires graph[id].tag.TagEnum?
      modifies this`pointers, usym`typeSymbols
      ensures TableOk(grey) && old(usym.typeSymbols.Keys) <= usym.typeSymbols.Keys
      ensures symbol.Some? <==> Supported(graph, id)
      ensures symbol.Some? ==> RecordFor(graph, id, symbol.value, pointers) && symbol.value.kind != Pointer
      ensures forall to :: Edge(graph, id, to) ==> to in usym.typeSymbols
      decreases Unvisited(), rank[id], 3
    {
      var dia := graph[id];
      if dia.length.None? {
        return None;
      }
      var record := EMPTY_TYPE.(id := id, kind := Enum, name := dia.name, length := dia.length.value);
      ghost var fields: seq<FieldSymbol>;
      record, fields := CreateMembersForSymbol(id, record, grey);
      assert record == MemberRecord(graph, id, fields);
      return Some(record);
    }

    /** The counter advances even when the length then turns out to be missing. */
    method CreatePointerTypeSymbol(id: u32) returns (symbol: Option<TypeSymbol>)
      requires id in graph && graph[id].tag.TagPointerType?
      modifies this`pointers
      ensures pointers == old(pointers) + 1
      ensures symbol.Some? <==> Supported(graph, id)
      ensures symbol.Some? ==> symbol.value == PlainRecord(graph, id, PointerName(pointers))
    {
      pointers := pointers + 1;
      var dia := graph[id];
      if dia.length.None? {
        return None;
      }
      return Some(TypeSymbol(id, PointerName(pointers), Pointer, dia.length.value, 0, [], 0));
    }

    method CreateTypedefSymbol(id: u32, ghost grey: set<u32>) returns (symbol: Option<TypeSymbol>)
      requires SearchSpace(graph, reach, rank) && TableOk(grey) && id in reach && id in usym.typeSymbols
      requires graph[id].tag.TagTypedef?
      modifies this`pointers, usym`typeSymbols
      ensures TableOk(grey) && old(usym.typeSymbols.Keys) <= usym.typeSymbols.Keys
      ensures symbol.Some? <==> Supported(graph, id)
      ensures symbol.Some? ==> symbol.value == PlainRecord(graph, id, [])
      ensures forall to :: Edge(graph, id, to) ==> to in usym.typeSymbols
      decreases Unvisited(), rank[id], 3
    {
      var dia := graph[id];
      if dia.ofType.None? {
        return None;
      }
      var underlying := dia.ofType.value;
      if graph[underlying].tag.TagFunctionType? {
        return Some(TypeSymbol(id, dia.name, Typedef, 0, 0, [], 0));
      }
      assert Edge(graph, id, underlying);
      // Not guarded by a look into the table, and its result is not looked at.
      SubsetSize(reach - usym.typeSymbols.Keys - {underlying}, reach - usym.typeSymbols.Keys);
      var _ := CreateTypeSymbol(underlying, grey);
      if graph[underlying].length.None? {
        return None;
      }
      return Some(TypeSymbol(id, dia.name, Typedef, graph[underlying].length.value, 0, [], underlying));
    }

    method CreateArrayTypeSymbol(id: u32) returns (symbol: Option<TypeSymbol>)
      requires id in graph && graph[id].tag.TagArrayType?
      ensures symbol.Some? <==> Supported(graph, id)
      ensures symbol.Some? ==> symbol.value == PlainRecord(graph, id, [])
    {
      var dia := graph[id];
      if dia.length.None? {
        return None;
      }
      return Some(TypeSymbol(id, dia.name, Array, dia.length.value, 0, [], 0));
    }

    method CreateSymbolByTag(id: u32, ghost grey: set<u32>) returns (symbol: Option<TypeSymbol>)
      requires SearchSpace(graph, reach, rank) && TableOk(grey) && id in reach && id in usym.typeSymbols
      modifies this`pointers, usym`typeSymbols
      ensures TableOk(grey) && old(usym.typeSymbols.Keys) <= usym.typeSymbols.Keys
      ensures symbol.Some? <==> Supported(graph, id)
      ensures RecordFor(graph, id, if symbol.Some? then symbol.value else EMPTY_TYPE, pointers)
      ensures forall to :: Edge(graph, id, to) ==> to in usym.typeSymbols
      ensures symbol.Some? && symbol.value.kind == Pointer ==>
                forall k :: k in usym.typeSymbols && usym.typeSymbols[k].kind == Pointer
                  ==> usym.typeSymbols[k].name != symbol.value.name
      decreases Unvisited(), rank[id], 4
    {
      match graph[id].tag {
        case TagBaseType => symbol := CreateBaseTypeSymbol(id);
        case TagUdt => symbol := CreateUdtSymbol(id, grey);
        case TagEnum => symbol := CreateEnumSymbol(id, grey);
        case TagPointerType =>
          ghost var before := pointers;
          symbol := CreatePointerTypeSymbol(id);
          MorePointers(graph, reach, usym.typeSymbols, before, pointers, grey);
          forall k | k in usym.typeSymbols && usym.typeSymbols[k].kind == Pointer
            ensures usym.typeSymbols[k].name != PointerName(pointers)
          {
            NewPointerName(graph, reach, usym.typeSymbols, before, grey, k);
          }
        case TagTypedef => symbol := CreateTypedefSymbol(id, grey);
        case TagArrayType => symbol := CreateArrayTypeSymbol(id);
        case TagFunctionType => symbol := None;
        case TagOther => symbol := None;
      }
    }

    /** What typeSymbols[id] does when id is not a key yet. */
    method EnterType(id: u32, ghost grey: set<u32>)
      requires TableOk(grey) && id in reach
      modifies usym`typeSymbols
      ensures TableOk(grey + {id})
      ensures usym.typeSymbols == if id in old(usym.typeSymbols) then old(usym.typeSymbols)
                                  else old(usym.typeSymbols)[id := EMPTY_TYPE]
    {
      EnterPlaceholder(graph, reach, usym.typeSymbols, pointers, grey, id);
      if id !in usym.typeSymbols {
        usym.typeSymbols := usym.typeSymbols[id := EMPTY_TYPE];
      }
    }

    /** Enters id and everything reachable from it. Terminates although types may refer to one
        another in cycles: either an id that was not in the table is entered, or one typedef
        step is taken. On return id has its final record even if it is still under
        construction further up. */
    method CreateTypeSymbol(id: u32, ghost grey: set<u32>) returns (ok: bool)
      requires SearchSpace(graph, reach, rank) && TableOk(grey) && id in reach
      modifies this`pointers, usym`typeSymbols
      ensures TableOk(grey) && old(usym.typeSymbols.Keys) <= usym.typeSymbols.Keys
      ensures Done(graph, usym.typeSymbols, id, pointers)
      ensures ok <==> Supported(graph, id)
      decreases |reach - usym.typeSymbols.Keys - {id}|, rank[id], 5
    {
      EnterType(id, grey);
      assert reach - old(usym.typeSymbols.Keys) - {id} == reach - usym.typeSymbols.Keys;
      var result := CreateSymbolByTag(id, grey + {id});
      StoreRecord(graph, reach, usym.typeSymbols, pointers, grey, id,
                  if result.Some? then result.value else EMPTY_TYPE);
      if result.None? {
        assert usym.typeSymbols[id] == EMPTY_TYPE;
        UpdateToSame(usym.typeSymbols, id);
        return false;
      }
      usym.typeSymbols := usym.typeSymbols[id := result.value];
      return true;
    }

    method BuildTypeList(ids: seq<u32>)
      requires SearchSpace(graph, reach, rank) && TableOk({})
      requires Ids(ids) <= reach
      modifies this`pointers, usym`typeSymbols
      ensures TableOk({}) && old(usym.typeSymbols.Keys) + Ids(ids) <= usym.typeSymbols.Keys
    {
      for i := 0 to |ids|
        invariant TableOk({}) && old(usym.typeSymbols.Keys) <= usym.typeSymbols.Keys
        invariant Ids(ids[..i]) <= usym.typeSymbols.Keys
      {
        assert ids[i] in Ids(ids);
        ghost var before := usym.typeSymbols.Keys;
        var _ := CreateTypeSymbol(ids[i], {});
        OneMoreId(ids, i, before, usym.typeSymbols.Keys);
      }
      assert ids[..|ids|] == ids;
    }

    /** Creates the type of a return value or argument unless the table has it. */
    method EnterUnlessKnown(id: u32)
      requires SearchSpace(graph, reach, rank) && TableOk({}) && id in reach
      modifies this`pointers, usym`typeSymbols
      ensures TableOk({}) && old(usym.typeSymbols.Keys) + {id} <= usym.typeSymbols.Keys
    {
      if id !in usym.typeSymbols {
        var _ := CreateTypeSymbol(id, {});
      }
    }

    method BuildArguments(t: FunctionType) returns (argumentTypeIds: seq<u32>)
      requires SearchSpace(graph, reach, rank) && TableOk({})
      requires Ids(ArgumentsOf(graph, t)) <= reach
      modifies this`pointers, usym`typeSymbols
      ensures TableOk({}) && old(usym.typeSymbols.Keys) <= usym.typeSymbols.Keys
      ensures argumentTypeIds == ArgumentsOf(graph, t)
      ensures Ids(ArgumentsOf(graph, t)) <= usym.typeSymbols.Keys
    {
      argumentTypeIds := [];
      if t.thisType.Some? {
        argumentTypeIds := [t.thisType.value];
        EnterUnlessKnown(t.thisType.value);
      }
      var position := 0;
      for i := 0 to |t.arguments|
        invariant TableOk({}) && old(usym.typeSymbols.Keys) <= usym.typeSymbols.Keys
        invariant ArgumentsLeft(graph, t, i, argumentTypeIds, position)
        invariant Ids(argumentTypeIds) <= usym.typeSymbols.Keys
      {
        argumentTypeIds, position := BuildArgument(t, i, argumentTypeIds, position);
      }
    }

    /** A leading stub is passed over; any other argument is added. */
    method BuildArgument(t: FunctionType, i: nat, before: seq<u32>, count: nat)
        returns (argumentTypeIds: seq<u32>, position: nat)
      requires SearchSpace(graph, reach, rank) && TableOk({})
      requires i < |t.arguments| && ArgumentsLeft(graph, t, i, before, count)
      requires Ids(ArgumentsOf(graph, t)) <= reach && Ids(before) <= usym.typeSymbols.Keys
      modifies this`pointers, usym`typeSymbols
      ensures TableOk({}) && old(usym.typeSymbols.Keys) <= usym.typeSymbols.Keys
      ensures ArgumentsLeft(graph, t, i + 1, argumentTypeIds, position)
      ensures Ids(argumentTypeIds) <= usym.typeSymbols.Keys
    {
      var id := t.arguments[i];
      NextArgument(graph, t, i, before, count);
      if IsStub(graph, id) && count == 0 {
        return before, count;
      }
      assert id in Ids(ArgumentsOf(graph, t));
      argumentTypeIds := before + [id];
      EnterUnlessKnown(id);
      position := count + 1;
    }

    method BuildFunction(f: DiaFunction)
      requires SearchSpace(graph, reach, rank) && TableOk({})
      requires RootsOf(graph, Entry(usym.functionSymbols, f.id), f) <= reach
      modifies this`pointers, usym
      ensures TableOk({}) && old(usym.typeSymbols.Keys) <= usym.typeSymbols.Keys
      ensures usym.functionSymbols
           == old(usym.functionSymbols)[f.id := Filled(graph, Entry(old(usym.functionSymbols), f.id), f)]
      ensures FunctionShown(graph, Entry(old(usym.functionSymbols), f.id), f, usym.functionSymbols[f.id])
      ensures RootsOf(graph, Entry(old(usym.functionSymbols), f.id), f) <= usym.typeSymbols.Keys
    {
      var before := Entry(usym.functionSymbols, f.id);
      FilledIsShown(graph, before, f);
      if f.ofType.None? {
        usym.functionSymbols := usym.functionSymbols[f.id := before.(id := f.id, name := f.name)];
        return;
      }
      var symbol := FillFunction(f, before);
      usym.functionSymbols := usym.functionSymbols[f.id := symbol];
    }

    /** What is read of a function that has a type, entering the types it mentions. */
    method FillFunction(f: DiaFunction, before: FunctionSymbol) returns (symbol: FunctionSymbol)
      requires SearchSpace(graph, reach, rank) && TableOk({})
      requires f.ofType.Some? && RootsOf(graph, before, f) <= reach
      modifies this`pointers, usym`typeSymbols
      ensures TableOk({}) && old(usym.typeSymbols.Keys) <= usym.typeSymbols.Keys
      ensures symbol == Filled(graph, before, f)
      ensures RootsOf(graph, before, f) <= usym.typeSymbols.Keys
    {
      var t := f.ofType.value;
      if t.returnType.Some? {
        EnterUnlessKnown(t.returnType.value);
      }
      var argumentCount := Or(t.argumentCount, before.argumentCount);
      var argumentTypeIds := before.argumentTypeIds;
      if argumentCount > 0 {
        var ids := BuildArguments(t);
        argumentTypeIds := argumentTypeIds + ids;
      }
      symbol := FunctionSymbol(
        f.id, f.name, Or(t.returnType, before.returnTypeId), argumentCount, argumentTypeIds,
        Or(t.callingConvention, before.callingConvention), Or(f.virtualAddress, before.virtualAddress));
    }

    method BuildFunctionList(fs: seq<DiaFunction>)
      requires SearchSpace(graph, reach, rank) && TableOk({})
      requires FunctionRoots(graph, usym.functionSymbols, fs) <= reach
      modifies this`pointers, usym
      ensures TableOk({}) && old(usym.typeSymbols.Keys) <= usym.typeSymbols.Keys
      ensures usym.functionSymbols == FunctionsFrom(graph, old(usym.functionSymbols), fs)
      ensures FunctionRoots(graph, old(usym.functionSymbols), fs) <= usym.typeSymbols.Keys
    {
      for i := 0 to |fs|
        invariant TableOk({}) && old(usym.typeSymbols.Keys) <= usym.typeSymbols.Keys
        invariant usym.functionSymbols == FunctionsFrom(graph, old(usym.functionSymbols), fs[..i])
        invariant FunctionRoots(graph, old(usym.functionSymbols), fs[..i]) <= usym.typeSymbols.Keys
      {
        NextFunction(graph, old(usym.functionSymbols), fs, i);
        BuildFunction(fs[i]);
      }
      assert fs[..|fs|] == fs;
    }
  }

  lemma UpdateToSame(types: TypeTable, id: u32)
    requires id in types
    ensures types[id := types[id]] == types
  {}

  lemma {:induction false} FunctionRootsGrow(g: Graph, functions: FunctionTable, fs: seq<DiaFunction>, n: nat)
    requires n <= |fs|
    ensures FunctionRoots(g, functions, fs[..n]) <= FunctionRoots(g, functions, fs)
  {
    if n < |fs| {
      var shorter := fs[..|fs| - 1];
      assert shorter[..n] == fs[..n];
      FunctionRootsGrow(g, functions, shorter, n);
    } else {
      assert fs[..n] == fs;
    }
  }

  lemma NextFunction(g: Graph, functions: FunctionTable, fs: seq<DiaFunction>, n: nat)
    requires n < |fs|
    ensures var before := FunctionsFrom(g, functions, fs[..n]);
            && FunctionsFrom(g, functions, fs[..n + 1])
               == before[fs[n].id := Filled(g, Entry(before, fs[n].id), fs[n])]
            && FunctionRoots(g, functions, fs[..n + 1])
               == FunctionRoots(g, functions, fs[..n]) + RootsOf(g, Entry(before, fs[n].id), fs[n])
            && RootsOf(g, Entry(before, fs[n].id), fs[n]) <= FunctionRoots(g, functions, fs)
  {
    assert fs[..n + 1][..n] == fs[..n];
    FunctionRootsGrow(g, functions, fs, n + 1);
  }
}
