/** The byte layout of a symbol file, and its decoding
    (Components/UniversalSymbolsFormat/Serializers/BinarySerializer.cpp). */
module BinaryFormat {
  import opened Seqs
  import opened Symbols
  import opened Bytes

  datatype OriginalFormat = Pdb | Dwarf | UnknownFormat
  datatype Architecture = X86 | X86_64 | Arm32 | Arm64 | UnknownArchitecture

  datatype Header = Header(magic: u32, originalFormat: OriginalFormat, architecture: Architecture)

  /** What a file holds: the header and the symbols in the order they were iterated. */
  datatype Contents = Contents(header: Header, types: seq<TypeSymbol>, functions: seq<FunctionSymbol>)

  // ---------------------------------------------------------------- enumerations as bytes

  function FormatCode(f: OriginalFormat): u8 {
    match f case Pdb => 0 case Dwarf => 1 case UnknownFormat => 0xff
  }

  function FormatOf(code: u8): Option<OriginalFormat> {
    match code case 0 => Some(Pdb) case 1 => Some(Dwarf) case 0xff => Some(UnknownFormat) case _ => None
  }

  function ArchitectureCode(a: Architecture): u8 {
    match a case X86 => 0 case X86_64 => 1 case Arm32 => 2 case Arm64 => 3 case UnknownArchitecture => 0xff
  }

  function ArchitectureOf(code: u8): Option<Architecture> {
    match code
    case 0 => Some(X86) case 1 => Some(X86_64) case 2 => Some(Arm32) case 3 => Some(Arm64)
    case 0xff => Some(UnknownArchitecture) case _ => None
  }

  function KindCode(k: Kind): u8 {
    match k
    case Base => 0 case Struct => 1 case Class => 2 case Union => 3 case Interface => 4 case Enum => 5
    case Pointer => 6 case Typedef => 7 case Array => 8 case Unknown => 0xff
  }

  function KindOf(code: u8): Option<Kind> {
    match code
    case 0 => Some(Base) case 1 => Some(Struct) case 2 => Some(Class) case 3 => Some(Union)
    case 4 => Some(Interface) case 5 => Some(Enum) case 6 => Some(Pointer) case 7 => Some(Typedef)
    case 8 => Some(Array) case 0xff => Some(Unknown) case _ => None
  }

  function ConventionCode(c: CallingConvention): u8 {
    match c
    case NearC => 0 case NearFast => 1 case NearStd => 2 case NearSys => 3 case Thiscall => 4 case ClrCall => 5
    case UnknownConvention => 0xff
  }

  function ConventionOf(code: u8): Option<CallingConvention> {
    match code
    case 0 => Some(NearC) case 1 => Some(NearFast) case 2 => Some(NearStd) case 3 => Some(NearSys)
    case 4 => Some(Thiscall) case 5 => Some(ClrCall) case 0xff => Some(UnknownConvention) case _ => None
  }

  function BoolCode(b: bool): u8 {
    if b then 1 else 0
  }

  function BoolOf(code: u8): Option<bool> {
    match code case 0 => Some(false) case 1 => Some(true) case _ => None
  }

  // ---------------------------------------------------------------- encoding

  function U32(n: u32): seq<u8> {
    LittleEndian(n, 4)
  }

  function U64(n: nat): seq<u8> {
    LittleEndian(n, 8)
  }

  function Terminated(s: Str): seq<u8> {
    s + [0]
  }

  function PutHeader(h: Header, rest: seq<u8>): seq<u8> {
    U32(h.magic) + ([FormatCode(h.originalFormat)] + ([ArchitectureCode(h.architecture)] + rest))
  }

  function PutField(f: FieldSymbol, rest: seq<u8>): seq<u8> {
    U32(f.id) + (Terminated(f.name) + (U32(f.underlyingTypeId) + (U64(f.offset) + (
      [BoolCode(f.isAnonymousUnion)] + (U32(f.unionId) + rest)))))
  }

  function PutType(t: TypeSymbol, rest: seq<u8>): seq<u8> {
    U32(t.id) + (Terminated(t.name) + ([KindCode(t.kind)] + (U64(t.length) + (U64(t.fieldCount) + (
      U64(|t.fields|) + Put(PutField, t.fields, U32(t.typedefSource) + rest))))))
  }

  function PutId(id: u32, rest: seq<u8>): seq<u8> {
    U32(id) + rest
  }

  function PutFunction(f: FunctionSymbol, rest: seq<u8>): seq<u8> {
    U32(f.id) + (Terminated(f.name) + (U32(f.returnTypeId) + (U32(f.argumentCount) + (
      U64(|f.argumentTypeIds|) + Put(PutId, f.argumentTypeIds,
        [ConventionCode(f.callingConvention)] + (U64(f.virtualAddress) + rest))))))
  }

  function PutContents(c: Contents, rest: seq<u8>): seq<u8> {
    PutHeader(c.header, U64(|c.types|) + Put(PutType, c.types,
      U64(|c.functions|) + Put(PutFunction, c.functions, rest)))
  }

  /** What is written for the contents. */
  function Encode(c: Contents): seq<u8> {
    PutContents(c, [])
  }

  lemma PutHeaderThen(h: Header, rest: seq<u8>, more: seq<u8>)
    ensures PutHeader(h, rest) + more == PutHeader(h, rest + more)
  {}

  lemma PutFieldThen(f: FieldSymbol, rest: seq<u8>, more: seq<u8>)
    ensures PutField(f, rest) + more == PutField(f, rest + more)
  {}

  lemma PutTypeThen(t: TypeSymbol, rest: seq<u8>, more: seq<u8>)
    ensures PutType(t, rest) + more == PutType(t, rest + more)
  {
    forall f, r
      ensures PutField(f, r) + more == PutField(f, r + more)
    {
      PutFieldThen(f, r, more);
    }
    PutThen(PutField, t.fields, U32(t.typedefSource) + rest, more);
    Regroup(U32(t.typedefSource), rest, more);
    SixThen(U32(t.id), Terminated(t.name), [KindCode(t.kind)], U64(t.length), U64(t.fieldCount),
            U64(|t.fields|), Put(PutField, t.fields, U32(t.typedefSource) + rest), more);
  }

  lemma SixThen(
      a: seq<u8>, b: seq<u8>, c: seq<u8>, d: seq<u8>, e: seq<u8>, f: seq<u8>, rest: seq<u8>, more: seq<u8>)
    ensures (a + (b + (c + (d + (e + (f + rest)))))) + more == a + (b + (c + (d + (e + (f + (rest + more))))))
  {}

  lemma PutFunctionThen(f: FunctionSymbol, rest: seq<u8>, more: seq<u8>)
    ensures PutFunction(f, rest) + more == PutFunction(f, rest + more)
  {
    forall id, r
      ensures PutId(id, r) + more == PutId(id, r + more)
    {
      Regroup(U32(id), r, more);
    }
    var tail := [ConventionCode(f.callingConvention)] + (U64(f.virtualAddress) + rest);
    PutThen(PutId, f.argumentTypeIds, tail, more);
    assert tail + more == [ConventionCode(f.callingConvention)] + (U64(f.virtualAddress) + (rest + more));
    SixThen(U32(f.id), Terminated(f.name), U32(f.returnTypeId), U32(f.argumentCount), U64(|f.argumentTypeIds|),
            [], Put(PutId, f.argumentTypeIds, tail), more);
    NothingBefore(Put(PutId, f.argumentTypeIds, tail));
    NothingBefore(Put(PutId, f.argumentTypeIds, tail) + more);
  }

  lemma NothingBefore(b: seq<u8>)
    ensures [] + b == b
  {}

  /** Bytes that follow the contents. */
  lemma EncodeThen(c: Contents, more: seq<u8>)
    ensures Encode(c) + more == PutContents(c, more)
  {
    forall f, r
      ensures PutFunction(f, r) + more == PutFunction(f, r + more)
    {
      PutFunctionThen(f, r, more);
    }
    PutThen(PutFunction, c.functions, [], more);
    var functions := U64(|c.functions|) + Put(PutFunction, c.functions, []);
    Regroup(U64(|c.functions|), Put(PutFunction, c.functions, []), more);
    NothingBefore(more);
    forall t, r
      ensures PutType(t, r) + more == PutType(t, r + more)
    {
      PutTypeThen(t, r, more);
    }
    PutThen(PutType, c.types, functions, more);
    Regroup(U64(|c.types|), Put(PutType, c.types, functions), more);
    PutHeaderThen(c.header, U64(|c.types|) + Put(PutType, c.types, functions), more);
  }

  // ---------------------------------------------------------------- decoding

  function TakeHeader(b: seq<u8>): Parsed<Header> {
    var (magic, b) :- TakeU32(b);
    var (formatCode, b) :- TakeU8(b);
    var format :- FormatOf(formatCode);
    var (architectureCode, b) :- TakeU8(b);
    var architecture :- ArchitectureOf(architectureCode);
    Some((Header(magic, format, architecture), b))
  }

  function TakeField(b: seq<u8>): Parsed<FieldSymbol> {
    var (id, b) :- TakeU32(b);
    var (name, b) :- TakeString(b);
    var (underlyingTypeId, b) :- TakeU32(b);
    var (offset, b) :- TakeU64(b);
    var (flag, b) :- TakeU8(b);
    var isAnonymousUnion :- BoolOf(flag);
    var (unionId, b) :- TakeU32(b);
    Some((FieldSymbol(id, name, underlyingTypeId, offset, isAnonymousUnion, unionId), b))
  }

  function TakeType(b: seq<u8>): Parsed<TypeSymbol> {
    var (id, b) :- TakeU32(b);
    var (name, b) :- TakeString(b);
    var (kindCode, b) :- TakeU8(b);
    var kind :- KindOf(kindCode);
    var (length, b) :- TakeU64(b);
    var (fieldCount, b) :- TakeU64(b);
    var (count, b) :- TakeU64(b);
    var (fields, b) :- Take(TakeField, b, count);
    var (typedefSource, b) :- TakeU32(b);
    Some((TypeSymbol(id, name, kind, length, fieldCount, fields, typedefSource), b))
  }

  function TakeFunction(b: seq<u8>): Parsed<FunctionSymbol> {
    var (id, b) :- TakeU32(b);
    var (name, b) :- TakeString(b);
    var (returnTypeId, b) :- TakeU32(b);
    var (argumentCount, b) :- TakeU32(b);
    var (count, b) :- TakeU64(b);
    var (ids, b) :- Take(TakeU32, b, count);
    var (conventionCode, b) :- TakeU8(b);
    var convention :- ConventionOf(conventionCode);
    var (virtualAddress, b) :- TakeU64(b);
    Some((FunctionSymbol(id, name, returnTypeId, argumentCount, ids, convention, virtualAddress), b))
  }

  function TakeContents(b: seq<u8>): Parsed<Contents> {
    var (header, b) :- TakeHeader(b);
    var (typeCount, b) :- TakeU64(b);
    var (types, b) :- Take(TakeType, b, typeCount);
    var (functionCount, b) :- TakeU64(b);
    var (functions, b) :- Take(TakeFunction, b, functionCount);
    Some((Contents(header, types, functions), b))
  }

  // ---------------------------------------------------------------- round trips

  predicate TypeNamesNulFree(t: TypeSymbol) {
    NulFree(t.name) && forall f :: f in t.fields ==> NulFree(f.name)
  }

  /** No symbol's name contains a NUL. */
  predicate NamesNulFree(c: Contents) {
    && (forall t :: t in c.types ==> TypeNamesNulFree(t))
    && (forall f :: f in c.functions ==> NulFree(f.name))
  }

  /** Every count fits the size_t it is written as. */
  predicate CountsFit(c: Contents) {
    && |c.types| < 0x1_0000_0000_0000_0000
    && |c.functions| < 0x1_0000_0000_0000_0000
    && (forall t :: t in c.types ==> |t.fields| < 0x1_0000_0000_0000_0000)
    && (forall f :: f in c.functions ==> |f.argumentTypeIds| < 0x1_0000_0000_0000_0000)
  }

  lemma TakeU8Back(n: u8, rest: seq<u8>)
    ensures TakeU8([n] + rest) == Some((n, rest))
  {}

  lemma TakeTerminatedBack(s: Str, rest: seq<u8>)
    requires NulFree(s)
    ensures TakeString(Terminated(s) + rest) == Some((s, rest))
  {
    TakeStringBack(s, rest);
  }

  lemma HeaderCodesBack(h: Header)
    ensures FormatOf(FormatCode(h.originalFormat)) == Some(h.originalFormat)
    ensures ArchitectureOf(ArchitectureCode(h.architecture)) == Some(h.architecture)
  {}

  lemma KindCodeBack(k: Kind)
    ensures KindOf(KindCode(k)) == Some(k)
  {}

  lemma ConventionCodeBack(c: CallingConvention)
    ensures ConventionOf(ConventionCode(c)) == Some(c)
  {}

  lemma TakeHeaderBack(h: Header, rest: seq<u8>)
    ensures TakeHeader(PutHeader(h, rest)) == Some((h, rest))
  {
    HeaderCodesBack(h);
    var b1 := [ArchitectureCode(h.architecture)] + rest;
    TakeU8Back(ArchitectureCode(h.architecture), rest);
    var b2 := [FormatCode(h.originalFormat)] + b1;
    TakeU8Back(FormatCode(h.originalFormat), b1);
    TakeU32Back(h.magic, b2);
  }

  lemma TakeFieldBack(f: FieldSymbol, rest: seq<u8>)
    requires NulFree(f.name)
    ensures TakeField(PutField(f, rest)) == Some((f, rest))
  {
    TakeU32Back(f.unionId, rest);
    var b1 := U32(f.unionId) + rest;
    TakeU8Back(BoolCode(f.isAnonymousUnion), b1);
    var b2 := [BoolCode(f.isAnonymousUnion)] + b1;
    TakeU64Back(f.offset, b2);
    var b3 := U64(f.offset) + b2;
    TakeU32Back(f.underlyingTypeId, b3);
    var b4 := U32(f.underlyingTypeId) + b3;
    TakeTerminatedBack(f.name, b4);
    TakeU32Back(f.id, Terminated(f.name) + b4);
  }

  lemma {:induction false} TakeTypeBack(t: TypeSymbol, rest: seq<u8>)
    requires TypeNamesNulFree(t) && |t.fields| < 0x1_0000_0000_0000_0000
    ensures TakeType(PutType(t, rest)) == Some((t, rest))
  {
    KindCodeBack(t.kind);
    TakeU32Back(t.typedefSource, rest);
    forall f, r | f in t.fields
      ensures TakeField(PutField(f, r)) == Some((f, r))
    {
      TakeFieldBack(f, r);
    }
    TakeBack(PutField, TakeField, t.fields, U32(t.typedefSource) + rest);
    var b1 := Put(PutField, t.fields, U32(t.typedefSource) + rest);
    TakeU64Back(|t.fields|, b1);
    var b2 := U64(|t.fields|) + b1;
    TakeU64Back(t.fieldCount, b2);
    var b3 := U64(t.fieldCount) + b2;
    TakeU64Back(t.length, b3);
    var b4 := U64(t.length) + b3;
    TakeU8Back(KindCode(t.kind), b4);
    var b5 := [KindCode(t.kind)] + b4;
    TakeTerminatedBack(t.name, b5);
    TakeU32Back(t.id, Terminated(t.name) + b5);
  }

  lemma TakeFunctionBack(f: FunctionSymbol, rest: seq<u8>)
    requires NulFree(f.name) && |f.argumentTypeIds| < 0x1_0000_0000_0000_0000
    ensures TakeFunction(PutFunction(f, rest)) == Some((f, rest))
  {
    ConventionCodeBack(f.callingConvention);
    TakeU64Back(f.virtualAddress, rest);
    var b1 := U64(f.virtualAddress) + rest;
    TakeU8Back(ConventionCode(f.callingConvention), b1);
    var b2 := [ConventionCode(f.callingConvention)] + b1;
    forall id, r | id in f.argumentTypeIds
      ensures TakeU32(PutId(id, r)) == Some((id, r))
    {
      TakeU32Back(id, r);
    }
    TakeBack(PutId, TakeU32, f.argumentTypeIds, b2);
    var b3 := Put(PutId, f.argumentTypeIds, b2);
    TakeU64Back(|f.argumentTypeIds|, b3);
    var b4 := U64(|f.argumentTypeIds|) + b3;
    TakeU32Back(f.argumentCount, b4);
    var b5 := U32(f.argumentCount) + b4;
    TakeU32Back(f.returnTypeId, b5);
    var b6 := U32(f.returnTypeId) + b5;
    TakeTerminatedBack(f.name, b6);
    TakeU32Back(f.id, Terminated(f.name) + b6);
  }

  lemma TakeContentsBack(c: Contents, more: seq<u8>)
    requires CountsFit(c) && NamesNulFree(c)
    ensures TakeContents(Encode(c) + more) == Some((c, more))
  {
    EncodeThen(c, more);
    forall f, r | f in c.functions
      ensures TakeFunction(PutFunction(f, r)) == Some((f, r))
    {
      TakeFunctionBack(f, r);
    }
    TakeBack(PutFunction, TakeFunction, c.functions, more);
    var b1 := Put(PutFunction, c.functions, more);
    TakeU64Back(|c.functions|, b1);
    var b2 := U64(|c.functions|) + b1;
    forall t, r | t in c.types
      ensures TakeType(PutType(t, r)) == Some((t, r))
    {
      TakeTypeBack(t, r);
    }
    TakeBack(PutType, TakeType, c.types, b2);
    var b3 := Put(PutType, c.types, b2);
    TakeU64Back(|c.types|, b3);
    TakeHeaderBack(c.header, U64(|c.types|) + b3);
  }

  lemma TakenTypeIsNulFree(b: seq<u8>)
    requires TakeType(b).Some?
    ensures TypeNamesNulFree(TakeType(b).value.0)
  {
    var b1 := TakeU32(b).value.1;
    var b2 := TakeU8(TakeString(b1).value.1).value.1;
    var b3 := TakeU64(TakeU64(b2).value.1).value.1;
    var (count, b4) := TakeU64(b3).value;
    TakenHave(TakeField, (f: FieldSymbol) => NulFree(f.name), b4, count);
  }

  lemma TakenTypesAreNulFree(b: seq<u8>, count: nat)
    requires Take(TakeType, b, count).Some?
    ensures forall t :: t in Take(TakeType, b, count).value.0 ==> TypeNamesNulFree(t)
  {
    forall b' | TakeType(b').Some?
      ensures TypeNamesNulFree(TakeType(b').value.0)
    {
      TakenTypeIsNulFree(b');
    }
    TakenHave(TakeType, (t: TypeSymbol) => TypeNamesNulFree(t), b, count);
  }

  lemma TakenFunctionsAreNulFree(b: seq<u8>, count: nat)
    requires Take(TakeFunction, b, count).Some?
    ensures forall f :: f in Take(TakeFunction, b, count).value.0 ==> NulFree(f.name)
  {
    TakenHave(TakeFunction, (f: FunctionSymbol) => NulFree(f.name), b, count);
  }

  lemma TakenContentsAreNulFree(b: seq<u8>)
    requires TakeContents(b).Some?
    ensures NamesNulFree(TakeContents(b).value.0)
  {
    var (typeCount, b1) := TakeU64(TakeHeader(b).value.1).value;
    TakenTypesAreNulFree(b1, typeCount);
    var (functionCount, b2) := TakeU64(Take(TakeType, b1, typeCount).value.1).value;
    TakenFunctionsAreNulFree(b2, functionCount);
  }

  /** Reading a file back gives what was written, and leaves whatever follows it, exactly when no
      name contains a NUL. */
  lemma RoundTripIff(c: Contents, more: seq<u8>)
    requires CountsFit(c)
    ensures TakeContents(Encode(c) + more) == Some((c, more)) <==> NamesNulFree(c)
  {
    if NamesNulFree(c) {
      TakeContentsBack(c, more);
    }
    if TakeContents(Encode(c) + more) == Some((c, more)) {
      TakenContentsAreNulFree(Encode(c) + more);
    }
  }

  /** Different symbol tables have different bytes, and no table's bytes are the start of another's. */
  lemma UniquelyDecodable(c: Contents, d: Contents, more: seq<u8>, more': seq<u8>)
    requires CountsFit(c) && NamesNulFree(c)
    requires CountsFit(d) && NamesNulFree(d)
    requires Encode(c) + more == Encode(d) + more'
    ensures c == d && more == more'
  {
    TakeContentsBack(c, more);
    TakeContentsBack(d, more');
  }

  /** A base type whose name is the three bytes a, NUL and b. */
  function NulInName(): Contents {
    Contents(Header(0, Pdb, X86), [EMPTY_TYPE.(name := [0x61, 0, 0x62])], [])
  }

  /** Such a name is written whole and not read back. */
  lemma NulInNameIsLost(more: seq<u8>)
    ensures CountsFit(NulInName())
    ensures TakeContents(Encode(NulInName()) + more) != Some((NulInName(), more))
  {
    assert NulInName().types[0].name[1] == 0;
    assert NulInName().types[0] in NulInName().types;
    RoundTripIff(NulInName(), more);
  }
}
