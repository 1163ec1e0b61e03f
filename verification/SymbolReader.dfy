/** Reading a symbol file back from a cursor, field by field in the order in which the serializer
    writes them (Components/UniversalSymbolsFormat/Serializers/BinarySerializer.cpp, with the reads
    of Libraries/RECore/Reader.h and Reader.cpp). */
module SymbolReader {
  import opened Symbols
  import opened Bytes
  import opened BinaryFormat
  import opened ReaderBuffer

  method ReadHeader(reader: Reader) returns (header: Header)
    requires reader.position <= |reader.data| && TakeHeader(reader.Remaining()).Some?
    modifies reader
    ensures reader.position <= |reader.data|
    ensures TakeHeader(old(reader.Remaining())) == Some((header, reader.Remaining()))
  {
    var magic := reader.ReadU32();
    var format := reader.ReadU8();
    var architecture := reader.ReadU8();
    header := Header(magic.value, FormatOf(format.value).value, ArchitectureOf(architecture.value).value);
  }

  method ReadField(reader: Reader) returns (field: FieldSymbol)
    requires reader.position <= |reader.data| && TakeField(reader.Remaining()).Some?
    modifies reader
    ensures reader.position <= |reader.data|
    ensures TakeField(old(reader.Remaining())) == Some((field, reader.Remaining()))
  {
    var id := reader.ReadU32();
    var name := reader.ReadString();
    var underlyingTypeId := reader.ReadU32();
    var offset := reader.ReadU64();
    var isAnonymousUnion := reader.ReadU8();
    var unionId := reader.ReadU32();
    field := FieldSymbol(id.value, name, underlyingTypeId.value, offset.value,
                         BoolOf(isAnonymousUnion.value).value, unionId.value);
  }

  /** What is left to read of a list of `count` elements once `read` have been read. */
  ghost predicate ListLeft<T>(
      take: seq<u8> -> Parsed<T>, all: Parsed<seq<T>>, read: seq<T>, count: nat, remaining: seq<u8>)
  {
    && all.Some? && |read| <= count
    && Take(take, remaining, count - |read|).Some?
    && var (more, rest) := Take(take, remaining, count - |read|).value;
       all.value == (read + more, rest)
  }

  lemma NextOfList<T>(
      take: seq<u8> -> Parsed<T>, all: Parsed<seq<T>>, read: seq<T>, count: nat, remaining: seq<u8>)
    requires ListLeft(take, all, read, count, remaining) && |read| < count
    ensures take(remaining).Some?
    ensures ListLeft(take, all, read + [take(remaining).value.0], count, take(remaining).value.1)
  {
    var (x, b) := take(remaining).value;
    var more := Take(take, b, count - |read| - 1).value.0;
    assert read + ([x] + more) == (read + [x]) + more;
  }

  lemma ListStarts<T>(take: seq<u8> -> Parsed<T>, count: nat, remaining: seq<u8>)
    requires Take(take, remaining, count).Some?
    ensures ListLeft(take, Take(take, remaining, count), [], count, remaining)
  {
    var (more, rest) := Take(take, remaining, count).value;
    assert [] + more == more;
  }

  lemma ListEnds<T>(
      take: seq<u8> -> Parsed<T>, all: Parsed<seq<T>>, read: seq<T>, count: nat, remaining: seq<u8>)
    requires ListLeft(take, all, read, count, remaining) && |read| == count
    ensures all == Some((read, remaining))
  {
    assert read + [] == read;
  }

  method ReadFields(reader: Reader, count: u64) returns (fields: seq<FieldSymbol>)
    requires reader.position <= |reader.data| && Take(TakeField, reader.Remaining(), count).Some?
    modifies reader
    ensures reader.position <= |reader.data|
    ensures Take(TakeField, old(reader.Remaining()), count) == Some((fields, reader.Remaining()))
  {
    fields := [];
    ghost var all := Take(TakeField, reader.Remaining(), count);
    ListStarts(TakeField, count, reader.Remaining());
    for i := 0 to count
      invariant |fields| == i && reader.position <= |reader.data|
      invariant ListLeft(TakeField, all, fields, count, reader.Remaining())
    {
      NextOfList(TakeField, all, fields, count, reader.Remaining());
      var field := ReadField(reader);
      fields := fields + [field];
    }
    ListEnds(TakeField, all, fields, count, reader.Remaining());
  }

  method ReadIds(reader: Reader, count: u64) returns (ids: seq<u32>)
    requires reader.position <= |reader.data| && Take(TakeU32, reader.Remaining(), count).Some?
    modifies reader
    ensures reader.position <= |reader.data|
    ensures Take(TakeU32, old(reader.Remaining()), count) == Some((ids, reader.Remaining()))
  {
    ids := [];
    ghost var all := Take(TakeU32, reader.Remaining(), count);
    ListStarts(TakeU32, count, reader.Remaining());
    for i := 0 to count
      invariant |ids| == i && reader.position <= |reader.data|
      invariant ListLeft(TakeU32, all, ids, count, reader.Remaining())
    {
      NextOfList(TakeU32, all, ids, count, reader.Remaining());
      var id := reader.ReadU32();
      ids := ids + [id.value];
    }
    ListEnds(TakeU32, all, ids, count, reader.Remaining());
  }

  method ReadType(reader: Reader) returns (typeSymbol: TypeSymbol)
    requires reader.position <= |reader.data| && TakeType(reader.Remaining()).Some?
    modifies reader
    ensures reader.position <= |reader.data|
    ensures TakeType(old(reader.Remaining())) == Some((typeSymbol, reader.Remaining()))
  {
    var id := reader.ReadU32();
    var name := reader.ReadString();
    var kind := reader.ReadU8();
    var length := reader.ReadU64();
    var fieldCount := reader.ReadU64();
    var count := reader.ReadU64();
    var fields := ReadFields(reader, count.value);
    var typedefSource := reader.ReadU32();
    typeSymbol := TypeSymbol(id.value, name, KindOf(kind.value).value, length.value, fieldCount.value, fields,
                             typedefSource.value);
  }

  method ReadFunction(reader: Reader) returns (functionSymbol: FunctionSymbol)
    requires reader.position <= |reader.data| && TakeFunction(reader.Remaining()).Some?
    modifies reader
    ensures reader.position <= |reader.data|
    ensures TakeFunction(old(reader.Remaining())) == Some((functionSymbol, reader.Remaining()))
  {
    var id := reader.ReadU32();
    var name := reader.ReadString();
    var returnTypeId := reader.ReadU32();
    var argumentCount := reader.ReadU32();
    var count := reader.ReadU64();
    var ids := ReadIds(reader, count.value);
    var convention := reader.ReadU8();
    var virtualAddress := reader.ReadU64();
    functionSymbol := FunctionSymbol(id.value, name, returnTypeId.value, argumentCount.value, ids,
                                     ConventionOf(convention.value).value, virtualAddress.value);
  }

  method ReadTypes(reader: Reader, count: u64) returns (types: seq<TypeSymbol>)
    requires reader.position <= |reader.data| && Take(TakeType, reader.Remaining(), count).Some?
    modifies reader
    ensures reader.position <= |reader.data|
    ensures Take(TakeType, old(reader.Remaining()), count) == Some((types, reader.Remaining()))
  {
    types := [];
    ghost var all := Take(TakeType, reader.Remaining(), count);
    ListStarts(TakeType, count, reader.Remaining());
    for i := 0 to count
      invariant |types| == i && reader.position <= |reader.data|
      invariant ListLeft(TakeType, all, types, count, reader.Remaining())
    {
      NextOfList(TakeType, all, types, count, reader.Remaining());
      var typeSymbol := ReadType(reader);
      types := types + [typeSymbol];
    }
    ListEnds(TakeType, all, types, count, reader.Remaining());
  }

  method ReadFunctions(reader: Reader, count: u64) returns (functions: seq<FunctionSymbol>)
    requires reader.position <= |reader.data| && Take(TakeFunction, reader.Remaining(), count).Some?
    modifies reader
    ensures reader.position <= |reader.data|
    ensures Take(TakeFunction, old(reader.Remaining()), count) == Some((functions, reader.Remaining()))
  {
    functions := [];
    ghost var all := Take(TakeFunction, reader.Remaining(), count);
    ListStarts(TakeFunction, count, reader.Remaining());
    for i := 0 to count
      invariant |functions| == i && reader.position <= |reader.data|
      invariant ListLeft(TakeFunction, all, functions, count, reader.Remaining())
    {
      NextOfList(TakeFunction, all, functions, count, reader.Remaining());
      var functionSymbol := ReadFunction(reader);
      functions := functions + [functionSymbol];
    }
    ListEnds(TakeFunction, all, functions, count, reader.Remaining());
  }

  method ReadContents(reader: Reader) returns (c: Contents)
    requires reader.position <= |reader.data| && TakeContents(reader.Remaining()).Some?
    modifies reader
    ensures reader.position <= |reader.data|
    ensures TakeContents(old(reader.Remaining())) == Some((c, reader.Remaining()))
  {
    var header := ReadHeader(reader);
    var typeCount := reader.ReadU64();
    var types := ReadTypes(reader, typeCount.value);
    var functionCount := reader.ReadU64();
    var functions := ReadFunctions(reader, functionCount.value);
    c := Contents(header, types, functions);
  }

  /** Reads what was written for c, if no name contains a NUL, and stops right after it. */
  method ReadBack(file: seq<u8>, ghost c: Contents, ghost more: seq<u8>) returns (read: Contents, position: nat)
    requires CountsFit(c) && NamesNulFree(c) && file == Encode(c) + more
    ensures read == c && position == |Encode(c)|
  {
    TakeContentsBack(c, more);
    var reader := new Reader(file);
    assert reader.Remaining() == file;
    read := ReadContents(reader);
    position := reader.position;
  }
}
