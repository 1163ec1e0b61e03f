/** A whole import, and the two checks of the table that the test suite makes of one
    (CreateUsymFromFile, Components/DiaProcessor/DiaInterface.cpp). */
module PdbImport {
  import opened Symbols
  import opened Purge
  import opened UsymTable
  import opened DiaGraph
  import opened DiaFunctions
  import opened DiaImporter
  import opened ImportedRecords

  /** The graph, and the global scope's children by tag, in the order DIA lists them. */
  datatype PdbFile = PdbFile(
    graph: Graph, baseTypes: seq<u32>, udts: seq<u32>, enums: seq<u32>, typedefs: seq<u32>,
    pointerTypes: seq<u32>, functions: seq<DiaFunction>)
  {
    ghost function ListedTypes(): set<u32> {
      Ids(baseTypes) + Ids(udts) + Ids(enums) + Ids(typedefs) + Ids(pointerTypes)
    }

    ghost function Roots(): set<u32> {
      ListedTypes() + FunctionRoots(graph, map[], functions)
    }

    /** The ids of all types that the listed types and the functions lead to. */
    ghost function ReachableTypes(): set<u32> {
      Reachable(graph, Roots())
    }

    ghost predicate Ok() {
      && GraphOk(graph)
      && ListedTypes() <= graph.Keys
      && (forall f :: f in functions ==> FunctionOk(graph, f))
    }
  }

  lemma {:induction false} FunctionRootsInGraph(g: Graph, functions: FunctionTable, fs: seq<DiaFunction>)
    requires forall f :: f in fs ==> FunctionOk(g, f)
    ensures FunctionRoots(g, functions, fs) <= g.Keys
  {
    if fs != [] {
      FunctionRootsInGraph(g, functions, fs[..|fs| - 1]);
      var f := fs[|fs| - 1];
      assert f in fs;
      if f.ofType.Some? {
        SkipStubsIsSuffix(g, f.ofType.value.arguments);
      }
    }
  }

  lemma {:induction false} SkipStubsIsSuffix(g: Graph, arguments: seq<u32>)
    ensures forall id :: id in SkipStubs(g, arguments) ==> id in arguments
  {
    if arguments != [] && IsStub(g, arguments[0]) {
      SkipStubsIsSuffix(g, arguments[1..]);
    }
  }

  /** When nothing is under construction any more, the keys are the reachable ids. */
  lemma KeysAreReachable(g: Graph, roots: set<u32>, types: TypeTable, pointers: nat)
    requires Consistent(g, Reachable(g, roots), types, pointers, {})
    requires roots <= types.Keys
    ensures types.Keys == Reachable(g, roots)
  {
    forall from, to | from in types && Edge(g, from, to)
      ensures to in types
    {
      assert Done(g, types, from, pointers);
    }
    ReachableIsLeast(g, roots, types.Keys);
  }

  /** t and fs are what importing the file should give. */
  ghost predicate IsImportOf(file: PdbFile, types: TypeTable, functions: FunctionTable, pointers: nat) {
    && types.Keys == file.ReachableTypes()
    && (forall id :: id in types ==> RecordFor(file.graph, id, types[id], pointers))
    && PointerNamesDiffer(types)
    && functions == FunctionsFrom(file.graph, map[], file.functions)
  }

  lemma SearchSpaceOf(file: PdbFile) returns (rank: map<u32, nat>)
    requires file.Ok() && TypedefsAcyclic(file.graph, file.ReachableTypes())
    ensures SearchSpace(file.graph, file.ReachableTypes(), rank)
    ensures file.Roots() <= file.ReachableTypes()
  {
    FunctionRootsInGraph(file.graph, map[], file.functions);
    RootsAreReachable(file.graph, file.Roots());
    ReachableIsClosed(file.graph, file.Roots());
    rank := AcyclicHasRank(file.graph, file.ReachableTypes());
  }

  lemma ImportedTableIsRight(file: PdbFile, types: TypeTable, functions: FunctionTable, pointers: nat)
    requires Consistent(file.graph, file.ReachableTypes(), types, pointers, {})
    requires file.Roots() <= types.Keys
    requires functions == FunctionsFrom(file.graph, map[], file.functions)
    ensures IsImportOf(file, types, functions, pointers)
    ensures Closed(types, functions)
  {
    KeysAreReachable(file.graph, file.Roots(), types, pointers);
    ConsistentIsClosed(file.graph, file.ReachableTypes(), types, pointers, {});
    FunctionRefsFromOk(file.graph, map[], file.functions, types);
    assert forall id :: id in types ==> Done(file.graph, types, id, pointers);
  }

  ghost predicate RecordsShown(g: Graph, types: TypeTable, pointers: nat) {
    types.Keys <= g.Keys && forall id :: id in types ==> RecordShown(g, id, types[id], pointers)
  }

  ghost predicate ListedAreStored(file: PdbFile, types: TypeTable) {
    forall id :: id in file.baseTypes + file.udts + file.enums + file.typedefs + file.pointerTypes ==> id in types
  }

  lemma ImportIsShown(file: PdbFile, types: TypeTable, functions: FunctionTable, pointers: nat)
    requires IsImportOf(file, types, functions, pointers) && file.Roots() <= types.Keys
    ensures ListedAreStored(file, types)
    ensures RecordsShown(file.graph, types, pointers)
    ensures IdsDiffer(file.functions) ==> FunctionsShown(file.graph, file.functions, functions)
  {
    forall id | id in types
      ensures RecordShown(file.graph, id, types[id], pointers)
    {
      RecordIsShown(file.graph, id, types[id], pointers);
    }
    if IdsDiffer(file.functions) {
      FunctionsAreSeparate(file.graph, file.functions);
    }
  }

  ghost predicate FunctionsShown(g: Graph, fs: seq<DiaFunction>, functions: FunctionTable) {
    && (forall f :: f in fs ==> f.id in functions && FunctionShown(g, EMPTY_FUNCTION, f, functions[f.id]))
    && (forall id :: id in functions ==> exists f :: f in fs && f.id == id)
  }

  /** Imports a file. The types stored are those reachable from what the file lists, each with what
      the graph shows of it; every id stored is 0 or a key; no two pointers have one name. */
  method CreateUsymFromFile(file: PdbFile) returns (usym: Usym, ghost pointers: nat)
    requires file.Ok()
    requires TypedefsAcyclic(file.graph, file.ReachableTypes())
    ensures fresh(usym)
    ensures IsImportOf(file, usym.typeSymbols, usym.functionSymbols, pointers)
    ensures ListedAreStored(file, usym.typeSymbols)
    ensures RecordsShown(file.graph, usym.typeSymbols, pointers)
    ensures IdsDiffer(file.functions) ==> FunctionsShown(file.graph, file.functions, usym.functionSymbols)
    ensures Closed(usym.typeSymbols, usym.functionSymbols)
  {
    ghost var rank := SearchSpaceOf(file);
    usym := new Usym();
    var importer := new Importer(file.graph, usym, file.ReachableTypes(), rank);
    importer.BuildTypeList(file.baseTypes);
    importer.BuildTypeList(file.udts);
    importer.BuildTypeList(file.enums);
    importer.BuildTypeList(file.typedefs);
    importer.BuildTypeList(file.pointerTypes);
    assert file.ListedTypes() <= usym.typeSymbols.Keys;
    importer.BuildFunctionList(file.functions);
    pointers := importer.pointers;
    ImportedTableIsRight(file, usym.typeSymbols, usym.functionSymbols, pointers);
    ImportIsShown(file, usym.typeSymbols, usym.functionSymbols, pointers);
  }

  ghost predicate AllSupported(g: Graph, s: set<u32>) {
    forall id :: id in s ==> Supported(g, id) && id != 0
  }

  /** If everything reachable is supported, no placeholder is left and every record is complete: it is
      determined by the graph, but for the made-up names of pointers, and shows every member. */
  lemma ImportIsComplete(file: PdbFile, types: TypeTable, functions: FunctionTable, pointers: nat, id: u32)
    requires file.Ok() && IsImportOf(file, types, functions, pointers)
    requires AllSupported(file.graph, file.ReachableTypes())
    requires id in types
    ensures types[id] != EMPTY_TYPE
    ensures types[id] ==
              if HasMembers(file.graph, id) then MemberRecord(file.graph, id, FieldsOf(file.graph[id].members))
              else PlainRecord(file.graph, id, types[id].name)
    ensures id in file.graph && RecordShown(file.graph, id, types[id], pointers)
    ensures HasMembers(file.graph, id) ==> ShowsAllMembers(file.graph[id].members, types[id].fields)
  {
    ReachableIsClosed(file.graph, file.Roots());
    PlaceholderOnlyIfUnsupported(file.graph, id, types[id], pointers);
    RecordIsShown(file.graph, id, types[id], pointers);
    if HasMembers(file.graph, id) {
      CompleteMemberRecord(file.graph, id, types[id], pointers);
      AllMembersAreThere(file.graph, id, types[id], pointers);
    }
  }

  /** The ids verify right after an import and again after the purge. */
  method VerifyBeforeAndAfterPurge(file: PdbFile, h: StdHash) returns (before: bool, after: bool)
    requires file.Ok()
    requires TypedefsAcyclic(file.graph, file.ReachableTypes())
    ensures before && after
  {
    var usym, _ := CreateUsymFromFile(file);
    var order := OrderOf(usym.typeSymbols);
    var functionOrder := OrderOf(usym.functionSymbols);
    before := usym.VerifyTypeIds(order, functionOrder);
    ghost var types, functions := usym.typeSymbols, usym.functionSymbols;
    usym.PurgeDuplicateTypes(h, order, functionOrder);
    ClosedAfterPurge(h, types, order, functions);
    order := OrderOf(usym.typeSymbols);
    functionOrder := OrderOf(usym.functionSymbols);
    after := usym.VerifyTypeIds(order, functionOrder);
  }
}
