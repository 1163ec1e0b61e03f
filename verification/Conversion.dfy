/** From a PDB file to the bytes of the symbol file: an import followed by Serialize. */
module Conversion {
  import opened Symbols
  import opened Bytes
  import opened BinaryFormat
  import opened BinarySerialization
  import opened Purge
  import opened UsymTable
  import opened AnonymousUnions
  import opened DiaGraph
  import opened DiaFunctions
  import opened PdbImport
  import opened Serialize

  /** Names are taken from C strings, so they hold no NUL; DIA counts with LONGs. */
  ghost predicate TextOk(file: PdbFile) {
    && |file.functions| < 0x8000_0000
    && (forall id :: id in file.graph ==>
          && NulFree(file.graph[id].name)
          && (file.graph[id].baseName.Some? ==> NulFree(file.graph[id].baseName.value))
          && forall m :: m in file.graph[id].members ==> NulFree(m.name))
    && (forall f :: f in file.functions ==>
          && NulFree(f.name)
          && (f.ofType.Some? ==> |f.ofType.value.arguments| < 0x8000_0000))
  }

  // ---------------------------------------------------------------- names

  lemma {:induction false} DecimalNulFree(n: nat)
    ensures NulFree(Decimal(n))
  {
    if n >= 10 {
      DecimalNulFree(n / 10);
    }
  }

  lemma {:induction false} MarkedKeepsNames(fields: seq<FieldSymbol>)
    requires |fields| < 0x1_0000_0000
    requires forall f :: f in fields ==> NulFree(f.name)
    ensures |Marked(fields)| == |fields|
    ensures forall f :: f in Marked(fields) ==> NulFree(f.name)
  {
    forall f | f in Marked(fields)
      ensures NulFree(f.name)
    {
      var i :| 0 <= i < |fields| && Marked(fields)[i] == f;
      assert fields[i] in fields;
    }
  }

  lemma FieldsForNulFree(g: Graph, members: seq<Member>, fields: seq<FieldSymbol>)
    requires FieldsFor(g, members, fields)
    requires forall m :: m in members ==> NulFree(m.name)
    ensures forall f :: f in fields ==> NulFree(f.name)
  {
    forall f | f in fields
      ensures NulFree(f.name)
    {
      var i :| 0 <= i < |fields| && fields[i] == f;
      assert FieldFor(g, members[i], fields[i]);
      assert members[i] in members;
    }
  }

  ghost predicate TypeTextOk(t: TypeSymbol) {
    TypeNamesNulFree(t) && |t.fields| < 0x8000_0000
  }

  lemma RecordTextOk(file: PdbFile, id: u32, t: TypeSymbol, pointers: nat)
    requires TextOk(file) && RecordFor(file.graph, id, t, pointers)
    ensures TypeTextOk(t)
  {
    var g := file.graph;
    if Supported(g, id) {
      if HasMembers(g, id) {
        var fields: seq<FieldSymbol> :|
          FieldsFor(g, g[id].members, fields) && |fields| < 0x8000_0000 && t == MemberRecord(g, id, fields);
        FieldsForNulFree(g, g[id].members, fields);
        MarkedKeepsNames(fields);
      } else if g[id].tag.TagPointerType? {
        var n :| 1 <= n <= pointers && t == PlainRecord(g, id, PointerName(n));
        DecimalNulFree(n);
      }
    }
  }

  ghost predicate FunctionTextOk(f: FunctionSymbol) {
    NulFree(f.name) && |f.argumentTypeIds| < 0x1_0000_0000_0000_0000
  }

  lemma {:induction false} SkipStubsShorter(g: Graph, arguments: seq<u32>)
    ensures |SkipStubs(g, arguments)| <= |arguments|
  {
    if arguments != [] && IsStub(g, arguments[0]) {
      SkipStubsShorter(g, arguments[1..]);
    }
  }

  /** Reading more into a record lengthens its argument list by no more than one list of arguments. */
  lemma {:induction false} FilledTextOk(file: PdbFile, before: FunctionSymbol, f: DiaFunction)
    requires TextOk(file) && f in file.functions && NulFree(before.name)
    ensures NulFree(Filled(file.graph, before, f).name)
    ensures |Filled(file.graph, before, f).argumentTypeIds| <= |before.argumentTypeIds| + 0x8000_0000
  {
    if f.ofType.Some? {
      SkipStubsShorter(file.graph, f.ofType.value.arguments);
    }
  }

  /** Even if functions come more than once, which makes their argument lists accumulate. */
  lemma {:induction false} FunctionsTextOkUpTo(file: PdbFile, n: nat, id: u32)
    requires TextOk(file) && n <= |file.functions|
    requires id in FunctionsFrom(file.graph, map[], file.functions[..n])
    ensures var f := FunctionsFrom(file.graph, map[], file.functions[..n])[id];
            NulFree(f.name) && |f.argumentTypeIds| <= n * 0x8000_0000
  {
    if n > 0 {
      var fs := file.functions[..n];
      assert fs[..n - 1] == file.functions[..n - 1];
      var before := FunctionsFrom(file.graph, map[], fs[..n - 1]);
      if id in before {
        FunctionsTextOkUpTo(file, n - 1, id);
      }
      if id == fs[n - 1].id {
        FilledTextOk(file, Entry(before, id), fs[n - 1]);
      }
    }
  }

  lemma {:induction false} FunctionsTextOk(file: PdbFile, id: u32)
    requires TextOk(file)
    requires id in FunctionsFrom(file.graph, map[], file.functions)
    ensures FunctionTextOk(FunctionsFrom(file.graph, map[], file.functions)[id])
  {
    assert file.functions[..|file.functions|] == file.functions;
    FunctionsTextOkUpTo(file, |file.functions|, id);
  }

  // ---------------------------------------------------------------- the purged table

  lemma PurgedTextOk(h: StdHash, types: TypeTable, order: seq<u32>, functions: FunctionTable)
    requires IsOrder(types, order)
    requires forall id :: id in types ==> TypeTextOk(types[id])
    requires forall id :: id in functions ==> FunctionTextOk(functions[id])
    ensures forall id :: id in PurgedTypes(h, types, order) ==> TypeTextOk(PurgedTypes(h, types, order)[id])
    ensures forall id :: id in functions ==> FunctionTextOk(PurgedFunctions(h, types, order, functions)[id])
  {
    var m := OldToNew(h, types, order);
    forall id | id in PurgedTypes(h, types, order)
      ensures TypeTextOk(PurgedTypes(h, types, order)[id])
    {
      RewrittenTextOk(m, types[id]);
    }
  }

  lemma RewrittenTextOk(oldToNew: map<u32, u32>, t: TypeSymbol)
    requires TypeTextOk(t)
    ensures TypeTextOk(RewriteType(oldToNew, t))
  {
    forall f | f in RewriteType(oldToNew, t).fields
      ensures NulFree(f.name)
    {
      var i :| 0 <= i < |t.fields| && RewriteType(oldToNew, t).fields[i] == f;
      assert t.fields[i] in t.fields;
    }
  }

  lemma {:induction false} IdsBelow(s: set<u32>, n: nat)
    requires forall x :: x in s ==> x < n
    ensures |s| <= n
  {
    if n > 0 {
      IdsBelow(s - {n - 1}, n - 1);
    }
  }

  lemma ListedTextOk(types: TypeTable, order: seq<u32>)
    requires IsOrder(types, order)
    requires forall id :: id in types ==> TypeTextOk(types[id])
    ensures |Listed(types, order)| < 0x1_0000_0000_0000_0000
    ensures forall t :: t in Listed(types, order) ==> TypeTextOk(t)
  {
    OrderSize(types, order);
    IdsBelow(types.Keys, 0x1_0000_0000);
    forall t | t in Listed(types, order)
      ensures TypeTextOk(t)
    {
      var i :| 0 <= i < |order| && types[order[i]] == t;
    }
  }

  lemma ListedFunctionsTextOk(functions: FunctionTable, order: seq<u32>)
    requires IsOrder(functions, order)
    requires forall id :: id in functions ==> FunctionTextOk(functions[id])
    ensures |Listed(functions, order)| < 0x1_0000_0000_0000_0000
    ensures forall f :: f in Listed(functions, order) ==> FunctionTextOk(f)
  {
    OrderSize(functions, order);
    IdsBelow(functions.Keys, 0x1_0000_0000);
    forall f | f in Listed(functions, order)
      ensures FunctionTextOk(f)
    {
      var i :| 0 <= i < |order| && functions[order[i]] == f;
    }
  }

  // ---------------------------------------------------------------- the program

  /** c lists the purged import of the file, in some order. */
  ghost predicate IsPurgedImport(file: PdbFile, header: Header, h: StdHash, c: Contents) {
    exists types: TypeTable, functions: FunctionTable, pointers: nat, order: seq<u32>, functionOrder: seq<u32>,
           orderAfter: seq<u32> ::
      PurgesTo(file, header, h, types, functions, pointers, order, functionOrder, orderAfter, c)
  }

  ghost predicate PurgesTo(
      file: PdbFile, header: Header, h: StdHash, types: TypeTable, functions: FunctionTable, pointers: nat,
      order: seq<u32>, functionOrder: seq<u32>, orderAfter: seq<u32>, c: Contents)
  {
    && IsImportOf(file, types, functions, pointers)
    && IsOrder(types, order) && IsOrder(functions, functionOrder)
    && IsOrder(PurgedTypes(h, types, order), orderAfter)
    && c == PurgedContents(header, h, types, functions, order, functionOrder, orderAfter)
  }

  lemma PurgedImportDecodes(
      file: PdbFile, header: Header, h: StdHash, types: TypeTable, functions: FunctionTable, pointers: nat,
      order: seq<u32>, functionOrder: seq<u32>, orderAfter: seq<u32>, c: Contents, more: seq<u8>)
    requires TextOk(file)
    requires PurgesTo(file, header, h, types, functions, pointers, order, functionOrder, orderAfter, c)
    ensures NamesNulFree(c)
    ensures TakeContents(Encode(c) + more) == Some((c, more))
  {
    forall id | id in types
      ensures TypeTextOk(types[id])
    {
      RecordTextOk(file, id, types[id], pointers);
    }
    forall id | id in functions
      ensures FunctionTextOk(functions[id])
    {
      FunctionsTextOk(file, id);
    }
    PurgedTextOk(h, types, order, functions);
    ListedTextOk(PurgedTypes(h, types, order), orderAfter);
    ListedFunctionsTextOk(PurgedFunctions(h, types, order, functions), functionOrder);
    TakeContentsBack(c, more);
  }

  /** The file holds the contents and one byte more. */
  ghost predicate FileHolds(file: seq<u8>, c: Contents) {
    exists last :: TakeContents(file) == Some((c, [last]))
  }

  lemma Converted(
      file: PdbFile, header: Header, h: StdHash, types: TypeTable, functions: FunctionTable, pointers: nat,
      order: seq<u32>, functionOrder: seq<u32>, orderAfter: seq<u32>, c: Contents, written: seq<u8>)
    requires TextOk(file)
    requires PurgesTo(file, header, h, types, functions, pointers, order, functionOrder, orderAfter, c)
    requires exists last :: written == [] + Encode(c) + [last]
    ensures FileHolds(written, c)
  {
    var last :| written == [] + Encode(c) + [last];
    PurgedImportDecodes(file, header, h, types, functions, pointers, order, functionOrder, orderAfter, c, [last]);
    NothingBefore(Encode(c));
  }

  /** Imports a file and serializes it. Whatever the orders in which the unordered maps are iterated,
      the check before writing passes, and what is in the file decodes to the purged table, but for
      the one byte that follows it. */
  method Convert(file: PdbFile, header: Header, h: StdHash, fileOpens: bool)
      returns (result: SerializeResult, verified: bool, written: Option<seq<u8>>, ghost content: Contents)
    requires file.Ok() && TextOk(file)
    requires TypedefsAcyclic(file.graph, file.ReachableTypes())
    ensures verified
    ensures result == if fileOpens then Ok else FileCreationFailed
    ensures IsPurgedImport(file, header, h, content)
    ensures written.Some? ==> FileHolds(written.value, content)
    ensures fileOpens && |Encode(content)| < INITIAL_SIZE ==> written.Some?
  {
    var usym, pointers := CreateUsymFromFile(file);
    result, verified, written, content := SerializeImport(file, usym, pointers, header, h, fileOpens);
  }

  /** What Convert does with the table of an import. */
  method SerializeImport(
      file: PdbFile, usym: Usym, ghost pointers: nat, header: Header, h: StdHash, fileOpens: bool)
    returns (result: SerializeResult, verified: bool, written: Option<seq<u8>>, ghost content: Contents)
    requires TextOk(file)
    requires IsImportOf(file, usym.typeSymbols, usym.functionSymbols, pointers)
    requires Closed(usym.typeSymbols, usym.functionSymbols)
    modifies usym
    ensures verified
    ensures result == if fileOpens then Ok else FileCreationFailed
    ensures IsPurgedImport(file, header, h, content)
    ensures written.Some? ==> FileHolds(written.value, content)
    ensures fileOpens && |Encode(content)| < INITIAL_SIZE ==> written.Some?
  {
    ghost var types, functions := usym.typeSymbols, usym.functionSymbols;
    var order := OrderOf(usym.typeSymbols);
    var functionOrder := OrderOf(usym.functionSymbols);
    var serializer := new BinarySerializer();
    ClosedAfterPurge(h, types, order, functions);
    ghost var orderAfter: seq<u32>;
    result, verified, written, orderAfter :=
      SerializeUsym(usym, header, serializer, h, order, functionOrder, fileOpens);
    content := PurgedContents(header, h, types, functions, order, functionOrder, orderAfter);
    assert PurgesTo(file, header, h, types, functions, pointers, order, functionOrder, orderAfter, content);
    if written.Some? {
      Converted(file, header, h, types, functions, pointers, order, functionOrder, orderAfter, content, written.value);
    }
  }
}
