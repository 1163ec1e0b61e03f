/** Writing the symbol table to the buffer, and the whole of USYM::Serialize
    (Components/UniversalSymbolsFormat/Serializers/BinarySerializer.cpp and USYM.cpp). */
module BinarySerialization {
  import opened Seqs
  import opened Symbols
  import opened Bytes
  import opened BinaryFormat
  import opened Layout
  import opened WriterBuffer
  import opened Purge
  import opened UsymTable

  // ---------------------------------------------------------------- field by field

  // What the buffer holds once each record has been written to the end of it.

  function AppendField(out: seq<u8>, f: FieldSymbol): seq<u8> {
    out + U32(f.id) + Terminated(f.name) + U32(f.underlyingTypeId) + U64(f.offset)
    + [BoolCode(f.isAnonymousUnion)] + U32(f.unionId)
  }

  function AppendType(out: seq<u8>, t: TypeSymbol): seq<u8> {
    Append(AppendField, AppendTypeStart(out, t), t.fields) + U32(t.typedefSource)
  }

  function AppendTypeStart(out: seq<u8>, t: TypeSymbol): seq<u8> {
    out + U32(t.id) + Terminated(t.name) + [KindCode(t.kind)] + U64(t.length) + U64(t.fieldCount) + U64(|t.fields|)
  }

  function AppendId(out: seq<u8>, id: u32): seq<u8> {
    out + U32(id)
  }

  function AppendFunction(out: seq<u8>, f: FunctionSymbol): seq<u8> {
    Append(AppendId, AppendFunctionStart(out, f), f.argumentTypeIds)
    + [ConventionCode(f.callingConvention)] + U64(f.virtualAddress)
  }

  lemma AppendFieldIsPut(out: seq<u8>, f: FieldSymbol, rest: seq<u8>)
    ensures AppendField(out, f) + rest == out + PutField(f, rest)
  {}

  lemma TypeStartIsPut(out: seq<u8>, t: TypeSymbol, rest: seq<u8>)
    ensures AppendTypeStart(out, t) + rest
         == out + (U32(t.id) + (Terminated(t.name) + ([KindCode(t.kind)] + (U64(t.length) + (U64(t.fieldCount) + (
              U64(|t.fields|) + rest))))))
  {}

  lemma AppendTypeIsPut(out: seq<u8>, t: TypeSymbol, rest: seq<u8>)
    ensures AppendType(out, t) + rest == out + PutType(t, rest)
  {
    var start := AppendTypeStart(out, t);
    forall o, f, r
      ensures AppendField(o, f) + r == o + PutField(f, r)
    {
      AppendFieldIsPut(o, f, r);
    }
    AppendIsPut(PutField, AppendField, start, t.fields, U32(t.typedefSource) + rest);
    Regroup(Append(AppendField, start, t.fields), U32(t.typedefSource), rest);
    TypeStartIsPut(out, t, Put(PutField, t.fields, U32(t.typedefSource) + rest));
  }

  function AppendFunctionStart(out: seq<u8>, f: FunctionSymbol): seq<u8> {
    out + U32(f.id) + Terminated(f.name) + U32(f.returnTypeId) + U32(f.argumentCount) + U64(|f.argumentTypeIds|)
  }

  lemma FunctionStartIsPut(out: seq<u8>, f: FunctionSymbol, rest: seq<u8>)
    ensures AppendFunctionStart(out, f) + rest
         == out + (U32(f.id) + (Terminated(f.name) + (U32(f.returnTypeId) + (U32(f.argumentCount) + (
              U64(|f.argumentTypeIds|) + rest)))))
  {}

  lemma AppendFunctionIsPut(out: seq<u8>, f: FunctionSymbol, rest: seq<u8>)
    ensures AppendFunction(out, f) + rest == out + PutFunction(f, rest)
  {
    var start := AppendFunctionStart(out, f);
    var tail := [ConventionCode(f.callingConvention)] + (U64(f.virtualAddress) + rest);
    forall o, id, r
      ensures AppendId(o, id) + r == o + PutId(id, r)
    {
      Regroup(o, U32(id), r);
    }
    AppendIsPut(PutId, AppendId, start, f.argumentTypeIds, tail);
    var ids := Append(AppendId, start, f.argumentTypeIds);
    Regroup(ids + [ConventionCode(f.callingConvention)], U64(f.virtualAddress), rest);
    Regroup(ids, [ConventionCode(f.callingConvention)], U64(f.virtualAddress) + rest);
    FunctionStartIsPut(out, f, Put(PutId, f.argumentTypeIds, tail));
  }

  // ---------------------------------------------------------------- the serializer

  /** The symbols of a table in iteration order. */
  function Listed<V>(table: map<u32, V>, order: seq<u32>): seq<V>
    requires forall id :: id in order ==> id in table
  {
    seq(|order|, i requires 0 <= i < |order| => table[order[i]])
  }

  const INITIAL_SIZE := 1_000_000_000

  class BinarySerializer {
    const writer: Writer

    constructor ()
      ensures fresh(writer) && fresh(writer.pData) && writer.Valid() && writer.Contents() == []
      ensures writer.size == INITIAL_SIZE
    {
      writer := new Writer.WithSize(INITIAL_SIZE);
    }

    method WriteField(field: FieldSymbol)
      requires writer.Valid()
      modifies writer, writer.pData
      ensures writer.Grown()
      ensures writer.Contents() == AppendField(old(writer.Contents()), field)
    {
      writer.WriteImpl(U32(field.id));
      writer.WriteString(field.name);
      writer.WriteImpl(U32(field.underlyingTypeId));
      writer.WriteImpl(U64(field.offset));
      writer.WriteImpl([BoolCode(field.isAnonymousUnion)]);
      writer.WriteImpl(U32(field.unionId));
    }

    method WriteType(typeSymbol: TypeSymbol)
      requires writer.Valid()
      modifies writer, writer.pData
      ensures writer.Grown()
      ensures writer.Contents() == AppendType(old(writer.Contents()), typeSymbol)
    {
      writer.WriteImpl(U32(typeSymbol.id));
      writer.WriteString(typeSymbol.name);
      writer.WriteImpl([KindCode(typeSymbol.kind)]);
      writer.WriteImpl(U64(typeSymbol.length));
      writer.WriteImpl(U64(typeSymbol.fieldCount));
      writer.WriteImpl(U64(|typeSymbol.fields|));
      WriteFields(typeSymbol.fields);
      writer.WriteImpl(U32(typeSymbol.typedefSource));
    }

    method WriteFields(fields: seq<FieldSymbol>)
      requires writer.Valid()
      modifies writer, writer.pData
      ensures writer.Grown()
      ensures writer.Contents() == Append(AppendField, old(writer.Contents()), fields)
    {
      for i := 0 to |fields|
        invariant writer.Grown()
        invariant writer.Contents() == Append(AppendField, old(writer.Contents()), fields[..i])
      {
        OneMore(AppendField, old(writer.Contents()), fields, i);
        WriteField(fields[i]);
      }
      assert fields[..|fields|] == fields;
    }

    method WriteIds(ids: seq<u32>)
      requires writer.Valid()
      modifies writer, writer.pData
      ensures writer.Grown()
      ensures writer.Contents() == Append(AppendId, old(writer.Contents()), ids)
    {
      for i := 0 to |ids|
        invariant writer.Grown()
        invariant writer.Contents() == Append(AppendId, old(writer.Contents()), ids[..i])
      {
        OneMore(AppendId, old(writer.Contents()), ids, i);
        writer.WriteImpl(U32(ids[i]));
      }
      assert ids[..|ids|] == ids;
    }

    method WriteFunction(functionSymbol: FunctionSymbol)
      requires writer.Valid()
      modifies writer, writer.pData
      ensures writer.Grown()
      ensures writer.Contents() == AppendFunction(old(writer.Contents()), functionSymbol)
    {
      writer.WriteImpl(U32(functionSymbol.id));
      writer.WriteString(functionSymbol.name);
      writer.WriteImpl(U32(functionSymbol.returnTypeId));
      writer.WriteImpl(U32(functionSymbol.argumentCount));
      writer.WriteImpl(U64(|functionSymbol.argumentTypeIds|));
      WriteIds(functionSymbol.argumentTypeIds);
      writer.WriteImpl([ConventionCode(functionSymbol.callingConvention)]);
      writer.WriteImpl(U64(functionSymbol.virtualAddress));
    }

    method SerializeHeader(header: Header)
      requires writer.Valid()
      modifies writer, writer.pData
      ensures writer.Grown()
      ensures writer.Contents() == old(writer.Contents()) + PutHeader(header, [])
      ensures HeaderAt(writer.Contents(), |old(writer.Contents())|, header)
    {
      HeaderHere(writer.Contents(), header, []);
      writer.WriteImpl(U32(header.magic));
      writer.WriteImpl([FormatCode(header.originalFormat)]);
      writer.WriteImpl([ArchitectureCode(header.architecture)]);
    }

    method WriteTypes(symbols: seq<TypeSymbol>)
      requires writer.Valid()
      modifies writer, writer.pData
      ensures writer.Grown()
      ensures writer.Contents() == old(writer.Contents()) + Put(PutType, symbols, [])
    {
      for i := 0 to |symbols|
        invariant writer.Grown()
        invariant writer.Contents() == Append(AppendType, old(writer.Contents()), symbols[..i])
      {
        OneMore(AppendType, old(writer.Contents()), symbols, i);
        WriteType(symbols[i]);
      }
      assert symbols[..|symbols|] == symbols;
      TypesAppended(old(writer.Contents()), symbols);
    }

    method SerializeTypeSymbols(usym: Usym, order: seq<u32>)
      requires writer.Valid() && IsOrder(usym.typeSymbols, order)
      modifies writer, writer.pData
      ensures writer.Grown()
      ensures writer.Contents() == old(writer.Contents())
              + (U64(|order|) + Put(PutType, Listed(usym.typeSymbols, order), []))
      ensures TableAt(TypeAt, TypeSize, writer.Contents(), |old(writer.Contents())|, usym.typeSymbols, order)
    {
      TypesTableHere(writer.Contents(), usym.typeSymbols, order, Listed(usym.typeSymbols, order), []);
      OrderSize(usym.typeSymbols, order);
      writer.WriteImpl(U64(|usym.typeSymbols|));
      WriteTypes(Listed(usym.typeSymbols, order));
      Regroup(old(writer.Contents()), U64(|order|), Put(PutType, Listed(usym.typeSymbols, order), []));
    }

    method WriteFunctions(symbols: seq<FunctionSymbol>)
      requires writer.Valid()
      modifies writer, writer.pData
      ensures writer.Grown()
      ensures writer.Contents() == old(writer.Contents()) + Put(PutFunction, symbols, [])
    {
      for i := 0 to |symbols|
        invariant writer.Grown()
        invariant writer.Contents() == Append(AppendFunction, old(writer.Contents()), symbols[..i])
      {
        OneMore(AppendFunction, old(writer.Contents()), symbols, i);
        WriteFunction(symbols[i]);
      }
      assert symbols[..|symbols|] == symbols;
      FunctionsAppended(old(writer.Contents()), symbols);
    }

    method SerializeFunctionSymbols(usym: Usym, order: seq<u32>)
      requires writer.Valid() && IsOrder(usym.functionSymbols, order)
      modifies writer, writer.pData
      ensures writer.Grown()
      ensures writer.Contents() == old(writer.Contents())
              + (U64(|order|) + Put(PutFunction, Listed(usym.functionSymbols, order), []))
      ensures TableAt(
                FunctionAt, FunctionSize, writer.Contents(), |old(writer.Contents())|, usym.functionSymbols, order)
    {
      ghost var out, symbols := writer.Contents(), Listed(usym.functionSymbols, order);
      OrderSize(usym.functionSymbols, order);
      writer.WriteImpl(U64(|usym.functionSymbols|));
      WriteFunctions(Listed(usym.functionSymbols, order));
      Regroup(out, U64(|order|), Put(PutFunction, symbols, []));
      FunctionsTableHere(out, usym.functionSymbols, order, symbols, writer.Contents(), |out|);
    }

    /** The three parts, in the order in which SerializeToFile calls for them. */
    method SerializeAll(header: Header, usym: Usym, order: seq<u32>, functionOrder: seq<u32>)
      requires writer.Valid()
      requires IsOrder(usym.typeSymbols, order) && IsOrder(usym.functionSymbols, functionOrder)
      modifies writer, writer.pData
      ensures writer.Grown()
      ensures writer.Contents() == old(writer.Contents()) + Encode(
                Contents(header, Listed(usym.typeSymbols, order), Listed(usym.functionSymbols, functionOrder)))
      ensures IsLaidOut(writer.Contents(), |old(writer.Contents())|, header,
                        usym.typeSymbols, order, usym.functionSymbols, functionOrder)
    {
      ghost var out, contents := writer.Contents(),
        Contents(header, Listed(usym.typeSymbols, order), Listed(usym.functionSymbols, functionOrder));
      WholeFileIsLaidOut(out, header, usym.typeSymbols, order, usym.functionSymbols, functionOrder);
      SerializeHeader(header);
      SerializeTypeSymbols(usym, order);
      SerializeFunctionSymbols(usym, functionOrder);
      WholeFile(out, contents);
    }
  }

  lemma OneMore<T>(append: (seq<u8>, T) -> seq<u8>, out: seq<u8>, xs: seq<T>, n: nat)
    requires n < |xs|
    ensures Append(append, out, xs[..n + 1]) == append(Append(append, out, xs[..n]), xs[n])
  {
    assert xs[..n + 1][..n] == xs[..n];
  }

  lemma TypesAppended(out: seq<u8>, types: seq<TypeSymbol>)
    ensures Append(AppendType, out, types) == out + Put(PutType, types, [])
  {
    forall o, t, r
      ensures AppendType(o, t) + r == o + PutType(t, r)
    {
      AppendTypeIsPut(o, t, r);
    }
    AppendIsPut(PutType, AppendType, out, types, []);
    assert Append(AppendType, out, types) + [] == Append(AppendType, out, types);
  }

  lemma FunctionsAppended(out: seq<u8>, functions: seq<FunctionSymbol>)
    ensures Append(AppendFunction, out, functions) == out + Put(PutFunction, functions, [])
  {
    forall o, f, r
      ensures AppendFunction(o, f) + r == o + PutFunction(f, r)
    {
      AppendFunctionIsPut(o, f, r);
    }
    AppendIsPut(PutFunction, AppendFunction, out, functions, []);
    assert Append(AppendFunction, out, functions) + [] == Append(AppendFunction, out, functions);
  }

  lemma WholeFileIsLaidOut(
      out: seq<u8>, header: Header, types: TypeTable, ids: seq<u32>,
      functions: FunctionTable, functionIds: seq<u32>)
    requires forall id :: id in ids ==> id in types
    requires forall id :: id in functionIds ==> id in functions
    ensures IsLaidOut(out + Encode(Contents(header, Listed(types, ids), Listed(functions, functionIds))), |out|,
                      header, types, ids, functions, functionIds)
  {
    var behindHeader := |out| + 6;
    EncodingIsLaidOut(
      out, Contents(header, Listed(types, ids), Listed(functions, functionIds)), types, ids,
      functions, functionIds, behindHeader, behindHeader + 8 + TableSize(TypeSize, types, ids));
  }

  lemma WholeFile(out: seq<u8>, c: Contents)
    ensures ((out + PutHeader(c.header, [])) + (U64(|c.types|) + Put(PutType, c.types, [])))
            + (U64(|c.functions|) + Put(PutFunction, c.functions, [])) == out + Encode(c)
  {
    var header, types := PutHeader(c.header, []), U64(|c.types|) + Put(PutType, c.types, []);
    var functions := U64(|c.functions|) + Put(PutFunction, c.functions, []);
    forall t, r
      ensures PutType(t, r) + functions == PutType(t, r + functions)
    {
      PutTypeThen(t, r, functions);
    }
    PutThen(PutType, c.types, [], functions);
    NothingBefore(functions);
    Regroup(U64(|c.types|), Put(PutType, c.types, []), functions);
    PutHeaderThen(c.header, [], types + functions);
    NothingBefore(types + functions);
    Regroup(out + header, types, functions);
    Regroup(out, header, types + functions);
  }
}
