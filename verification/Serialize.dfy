/** USYM::Serialize: purge, verify, write (Components/UniversalSymbolsFormat/USYM.cpp and
    Serializers/ISerializer.cpp). */
module Serialize {
  import opened Seqs
  import opened Symbols
  import opened BinaryFormat
  import opened Layout
  import opened BinarySerialization
  import opened Purge
  import opened UsymTable

  datatype SerializeResult = Ok | SerializerUninitialized | FileCreationFailed

  /** What the file is to hold. */
  ghost function PurgedContents(
      header: Header, h: StdHash, types: TypeTable, functions: FunctionTable,
      order: seq<u32>, functionOrder: seq<u32>, orderAfter: seq<u32>): Contents
    requires IsOrder(types, order) && IsOrder(functions, functionOrder)
    requires IsOrder(PurgedTypes(h, types, order), orderAfter)
  {
    Contents(header, Listed(PurgedTypes(h, types, order), orderAfter),
             Listed(PurgedFunctions(h, types, order, functions), functionOrder))
  }

  /** Purges before it verifies, and verifies before it writes; a failed verification is only
      logged. The orders are those in which the unordered maps are iterated, orderAfter once the
      duplicates are erased; fileOpens tells whether the file can be created. The target name always
      ends in .usym and the serializer has just been given its table, so its other failures cannot
      happen. file is None if none is created, or if the byte that is written after the contents
      lies past the buffer, which is then full. */
  method SerializeUsym(
      usym: Usym, header: Header, serializer: BinarySerializer?, h: StdHash,
      order: seq<u32>, functionOrder: seq<u32>, fileOpens: bool)
    returns (result: SerializeResult, verified: bool, file: Option<seq<u8>>, ghost orderAfter: seq<u32>)
    requires IsOrder(usym.typeSymbols, order) && IsOrder(usym.functionSymbols, functionOrder)
    requires serializer != null ==> serializer.writer.Valid()
    modifies usym
    modifies if serializer == null then {} else {serializer.writer, serializer.writer.pData}
    ensures serializer == null ==>
              result == SerializerUninitialized && file == None
              && usym.typeSymbols == old(usym.typeSymbols) && usym.functionSymbols == old(usym.functionSymbols)
    ensures serializer != null ==>
              && IsOrder(PurgedTypes(h, old(usym.typeSymbols), order), orderAfter)
              && result == (if fileOpens then Ok else FileCreationFailed)
              && usym.typeSymbols == PurgedTypes(h, old(usym.typeSymbols), order)
              && usym.functionSymbols
                 == PurgedFunctions(h, old(usym.typeSymbols), order, old(usym.functionSymbols))
              && (verified <==> Closed(usym.typeSymbols, usym.functionSymbols))
              && serializer.writer.Grown()
              && serializer.writer.Contents() == old(serializer.writer.Contents()) + Encode(PurgedContents(
                   header, h, old(usym.typeSymbols), old(usym.functionSymbols), order, functionOrder, orderAfter))
              && IsLaidOut(serializer.writer.Contents(), |old(serializer.writer.Contents())|, header,
                           usym.typeSymbols, orderAfter, usym.functionSymbols, functionOrder)
              && (file.Some? <==> fileOpens && serializer.writer.position < serializer.writer.size)
              && (file.Some? ==> exists last :: file.value == serializer.writer.Contents() + [last])
  {
    file := None;
    if serializer == null {
      return SerializerUninitialized, false, None, [];
    }
    usym.PurgeDuplicateTypes(h, order, functionOrder);
    var newOrder := OrderOf(usym.typeSymbols);
    orderAfter := newOrder;
    verified := usym.VerifyTypeIds(newOrder, functionOrder);
    serializer.SerializeAll(header, usym, newOrder, functionOrder);
    if !fileOpens {
      return FileCreationFailed, verified, None, orderAfter;
    }
    file := serializer.writer.WriteToFile();
    result := Ok;
  }

  /** What a file holds after two tables were written to one buffer, which is never emptied. */
  ghost predicate HoldsBoth(file: seq<u8>, first: Contents, second: Contents) {
    exists last :: file == Encode(first) + Encode(second) + [last]
  }

  /** Reading it gives the first table and leaves the second unread, so it gives the second exactly
      if that is the same. */
  lemma {:induction false} ReadAfterTwoIff(file: seq<u8>, first: Contents, second: Contents)
    requires HoldsBoth(file, first, second) && CountsFit(first) && NamesNulFree(first)
    ensures TakeContents(file).Some? && TakeContents(file).value.0 == first
    ensures TakeContents(file).value.0 == second <==> first == second
    ensures Encode(second) <= TakeContents(file).value.1
  {
    var last :| file == Encode(first) + Encode(second) + [last];
    Regroup(Encode(first), Encode(second), [last]);
    TakeContentsBack(first, Encode(second) + [last]);
  }

  /** c lists a purge of the tables, in some order. */
  ghost predicate IsPurgeOf(header: Header, h: StdHash, types: TypeTable, functions: FunctionTable, c: Contents) {
    exists order: seq<u32>, functionOrder: seq<u32>, orderAfter: seq<u32> ::
      ListsPurge(header, h, types, functions, order, functionOrder, orderAfter, c)
  }

  ghost predicate ListsPurge(
      header: Header, h: StdHash, types: TypeTable, functions: FunctionTable,
      order: seq<u32>, functionOrder: seq<u32>, orderAfter: seq<u32>, c: Contents)
  {
    && IsOrder(types, order) && IsOrder(functions, functionOrder)
    && IsOrder(PurgedTypes(h, types, order), orderAfter)
    && c == PurgedContents(header, h, types, functions, order, functionOrder, orderAfter)
  }

  /** One call of Serialize that succeeds, in any order. */
  method SerializeOnce(usym: Usym, header: Header, serializer: BinarySerializer, h: StdHash)
      returns (file: Option<seq<u8>>, ghost c: Contents)
    requires serializer.writer.Valid()
    modifies usym, serializer.writer, serializer.writer.pData
    ensures serializer.writer.Grown()
    ensures IsPurgeOf(header, h, old(usym.typeSymbols), old(usym.functionSymbols), c)
    ensures serializer.writer.Contents() == old(serializer.writer.Contents()) + Encode(c)
    ensures file.Some? ==> exists last :: file.value == serializer.writer.Contents() + [last]
  {
    ghost var types, functions := usym.typeSymbols, usym.functionSymbols;
    var order := OrderOf(usym.typeSymbols);
    var functionOrder := OrderOf(usym.functionSymbols);
    ghost var orderAfter: seq<u32>;
    var _, _, written, after := SerializeUsym(usym, header, serializer, h, order, functionOrder, true);
    orderAfter := after;
    file := written;
    c := PurgedContents(header, h, types, functions, order, functionOrder, orderAfter);
    assert ListsPurge(header, h, types, functions, order, functionOrder, orderAfter, c);
  }

  /** Serializes a table twice with one serializer: the second file holds both. */
  method SerializeTwice(usym: Usym, header: Header, serializer: BinarySerializer, h: StdHash)
      returns (file: Option<seq<u8>>, ghost first: Contents, ghost second: Contents)
    requires serializer.writer.Valid() && serializer.writer.Contents() == []
    modifies usym, serializer.writer, serializer.writer.pData
    ensures IsPurgeOf(header, h, old(usym.typeSymbols), old(usym.functionSymbols), first)
    ensures file.Some? ==> HoldsBoth(file.value, first, second)
    ensures file.Some? && CountsFit(first) && NamesNulFree(first) ==>
              TakeContents(file.value).Some? && TakeContents(file.value).value.0 == first
  {
    file, first := SerializeOnce(usym, header, serializer, h);
    NothingBefore(Encode(first));
    file, second := SerializeOnce(usym, header, serializer, h);
    if file.Some? && CountsFit(first) && NamesNulFree(first) {
      ReadAfterTwoIff(file.value, first, second);
    }
  }
}
