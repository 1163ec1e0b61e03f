/** The symbol file byte by byte, said of positions and of the enumerations as they are listed, without
    the encoding (Components/UniversalSymbolsFormat/USYM.h and Serializers/BinarySerializer.cpp). */
module Layout {
  import opened Seqs
  import opened Symbols
  import opened Bytes
  import opened BinaryFormat

  // ---------------------------------------------------------------- values at positions

  predicate Int32At(b: seq<u8>, at: nat, n: int) {
    at + 4 <= |b| && Int32(b, at) == n
  }

  predicate Int64At(b: seq<u8>, at: nat, n: int) {
    at + 8 <= |b| && Int64(b, at) == n
  }

  /** A count, which is written as a size_t. */
  predicate CountAt(b: seq<u8>, at: nat, n: nat) {
    n < 0x1_0000_0000_0000_0000 ==> Int64At(b, at, n)
  }

  // The enumerations, as their declarations list them.

  const FORMATS: seq<OriginalFormat> := [Pdb, Dwarf]
  const ARCHITECTURES: seq<Architecture> := [X86, X86_64, Arm32, Arm64]
  const KINDS: seq<Kind> := [Base, Struct, Class, Union, Interface, Enum, Pointer, Typedef, Array]
  const CONVENTIONS: seq<CallingConvention> := [NearC, NearFast, NearStd, NearSys, Thiscall, ClrCall]

  /** The index of a value in the list, or 0xff if it is the unknown one. */
  predicate IsIndex<T(==)>(byte: u8, values: seq<T>, value: T, unknown: T) {
    if value == unknown then byte == 0xff else byte < |values| && values[byte] == value
  }

  predicate EnumAt<T(==)>(b: seq<u8>, at: nat, values: seq<T>, value: T, unknown: T) {
    at < |b| && IsIndex(b[at], values, value, unknown)
  }

  // ---------------------------------------------------------------- records at positions

  predicate HeaderAt(b: seq<u8>, at: nat, h: Header) {
    && Int32At(b, at, h.magic)
    && EnumAt(b, at + 4, FORMATS, h.originalFormat, UnknownFormat)
    && EnumAt(b, at + 5, ARCHITECTURES, h.architecture, UnknownArchitecture)
  }

  function FieldSize(f: FieldSymbol): nat {
    22 + |f.name|
  }

  predicate FieldAt(b: seq<u8>, at: nat, f: FieldSymbol) {
    var n := at + 5 + |f.name|;
    && Int32At(b, at, f.id) && TextAt(b, at + 4, f.name)
    && Int32At(b, n, f.underlyingTypeId) && Int64At(b, n + 4, f.offset)
    && n + 12 < |b| && b[n + 12] == (if f.isAnonymousUnion then 1 else 0)
    && Int32At(b, n + 13, f.unionId)
  }

  function TypeSize(t: TypeSymbol): nat {
    34 + |t.name| + Sum(FieldSize, t.fields)
  }

  predicate TypeStartAt(b: seq<u8>, at: nat, t: TypeSymbol) {
    var n := at + 5 + |t.name|;
    && Int32At(b, at, t.id) && TextAt(b, at + 4, t.name)
    && EnumAt(b, n, KINDS, t.kind, Unknown)
    && Int64At(b, n + 1, t.length) && Int64At(b, n + 9, t.fieldCount) && CountAt(b, n + 17, |t.fields|)
  }

  ghost predicate TypeRestAt(b: seq<u8>, at: nat, t: TypeSymbol) {
    && ListAt(FieldAt, FieldSize, b, at, t.fields)
    && Int32At(b, at + Sum(FieldSize, t.fields), t.typedefSource)
  }

  ghost predicate TypeAt(b: seq<u8>, at: nat, t: TypeSymbol) {
    && TypeStartAt(b, at, t)
    && exists behind: nat :: behind == at + 30 + |t.name| && TypeRestAt(b, behind, t)
  }

  function FunctionSize(f: FunctionSymbol): nat {
    30 + |f.name| + 4 * |f.argumentTypeIds|
  }

  predicate FunctionStartAt(b: seq<u8>, at: nat, f: FunctionSymbol) {
    var n := at + 5 + |f.name|;
    && Int32At(b, at, f.id) && TextAt(b, at + 4, f.name)
    && Int32At(b, n, f.returnTypeId) && Int32At(b, n + 4, f.argumentCount)
    && CountAt(b, n + 8, |f.argumentTypeIds|)
  }

  predicate IdsAt(b: seq<u8>, at: nat, ids: seq<u32>) {
    forall i :: 0 <= i < |ids| ==> Int32At(b, at + 4 * i, ids[i])
  }

  predicate FunctionAt(b: seq<u8>, at: nat, f: FunctionSymbol) {
    var m := at + 21 + |f.name| + 4 * |f.argumentTypeIds|;
    && FunctionStartAt(b, at, f)
    && IdsAt(b, at + 21 + |f.name|, f.argumentTypeIds)
    && EnumAt(b, m, CONVENTIONS, f.callingConvention, UnknownConvention)
    && Int64At(b, m + 1, f.virtualAddress)
  }

  /** Element i of a list lies behind those before it. */
  ghost predicate ListAt<T>(
      elementAt: (seq<u8>, nat, T) -> bool, size: T -> nat, b: seq<u8>, at: nat, xs: seq<T>)
  {
    forall i :: 0 <= i < |xs| ==> elementAt(b, at + Sum(size, xs[..i]), xs[i])
  }

  // ---------------------------------------------------------------- a part and what follows it

  lemma {:induction false} Int32Here(pre: seq<u8>, n: u32, rest: seq<u8>)
    ensures Int32At(pre + (U32(n) + rest), |pre|, n)
    ensures pre + (U32(n) + rest) == (pre + U32(n)) + rest
  {
    PowersOf256();
    LittleEndianRoundTrip(n, 4);
    FirstFour(U32(n));
    Regroup(pre, U32(n), rest);
  }

  lemma {:induction false} Int64Here(pre: seq<u8>, n: u64, rest: seq<u8>)
    ensures Int64At(pre + (U64(n) + rest), |pre|, n)
    ensures pre + (U64(n) + rest) == (pre + U64(n)) + rest
  {
    PowersOf256();
    LittleEndianRoundTrip(n, 8);
    FirstFour(U64(n));
    FirstFour(U64(n)[4..]);
    Regroup(pre, U64(n), rest);
  }

  lemma {:induction false} CountHere(pre: seq<u8>, n: nat, rest: seq<u8>)
    ensures CountAt(pre + (U64(n) + rest), |pre|, n)
    ensures pre + (U64(n) + rest) == (pre + U64(n)) + rest
  {
    if n < 0x1_0000_0000_0000_0000 {
      Int64Here(pre, n, rest);
    }
    Regroup(pre, U64(n), rest);
  }

  lemma {:induction false} TextHere(pre: seq<u8>, s: Str, rest: seq<u8>)
    ensures TextAt(pre + (Terminated(s) + rest), |pre|, s)
    ensures pre + (Terminated(s) + rest) == (pre + Terminated(s)) + rest
  {
    Regroup(pre, Terminated(s), rest);
    assert (pre + (s + [0] + rest))[|pre|..|pre| + |s|] == s;
  }

  lemma ByteHere(pre: seq<u8>, byte: u8, rest: seq<u8>)
    ensures (pre + ([byte] + rest))[|pre|] == byte
    ensures pre + ([byte] + rest) == (pre + [byte]) + rest
  {}

  lemma CodesAreIndices(f: OriginalFormat, a: Architecture, k: Kind, c: CallingConvention)
    ensures IsIndex(FormatCode(f), FORMATS, f, UnknownFormat)
    ensures IsIndex(ArchitectureCode(a), ARCHITECTURES, a, UnknownArchitecture)
    ensures IsIndex(KindCode(k), KINDS, k, Unknown)
    ensures IsIndex(ConventionCode(c), CONVENTIONS, c, UnknownConvention)
  {}

  // ---------------------------------------------------------------- lists

  lemma {:induction false} SumFromFront<T>(size: T -> nat, xs: seq<T>)
    requires xs != []
    ensures Sum(size, xs) == size(xs[0]) + Sum(size, xs[1..])
  {
    if |xs| > 1 {
      SumFromFront(size, xs[..|xs| - 1]);
      assert xs[..|xs| - 1][1..] == xs[1..][..|xs| - 2];
    } else {
      assert xs[..0] == [] && xs[1..] == [];
    }
  }

  lemma {:induction false} ListFromFront<T>(
      elementAt: (seq<u8>, nat, T) -> bool, size: T -> nat, b: seq<u8>, at: nat, xs: seq<T>)
    requires xs != [] && elementAt(b, at, xs[0])
    requires ListAt(elementAt, size, b, at + size(xs[0]), xs[1..])
    ensures ListAt(elementAt, size, b, at, xs)
  {
    forall i | 0 <= i < |xs|
      ensures elementAt(b, at + Sum(size, xs[..i]), xs[i])
    {
      if i > 0 {
        SumFromFront(size, xs[..i]);
        assert xs[..i][1..] == xs[1..][..i - 1];
        assert xs[i] == xs[1..][i - 1];
      }
    }
  }

  /** A list that starts with an element that is there, if the rest of it is there behind that. */
  lemma {:induction false} ListGrows<T>(
      put: (T, seq<u8>) -> seq<u8>, elementAt: (seq<u8>, nat, T) -> bool, size: T -> nat,
      pre: seq<u8>, xs: seq<T>, rest: seq<u8>, others: seq<u8>, part: seq<u8>)
    requires xs != [] && others == Put(put, xs[1..], rest)
    requires put(xs[0], others) == part + others && |part| == size(xs[0])
    requires elementAt(pre + put(xs[0], others), |pre|, xs[0])
    requires ListAt(elementAt, size, (pre + part) + others, |pre + part|, xs[1..])
    requires |others| == Sum(size, xs[1..]) + |rest|
    ensures ListAt(elementAt, size, pre + Put(put, xs, rest), |pre|, xs)
    ensures |Put(put, xs, rest)| == Sum(size, xs) + |rest|
  {
    Regroup(pre, part, others);
    SumFromFront(size, xs);
    ListFromFront(elementAt, size, pre + Put(put, xs, rest), |pre|, xs);
  }

  // ---------------------------------------------------------------- the records

  lemma {:induction false} HeaderHere(pre: seq<u8>, h: Header, rest: seq<u8>)
    ensures HeaderAt(pre + PutHeader(h, rest), |pre|, h)
  {
    CodesAreIndices(h.originalFormat, h.architecture, Unknown, UnknownConvention);
    var r2 := [ArchitectureCode(h.architecture)] + rest;
    var r1 := [FormatCode(h.originalFormat)] + r2;
    Int32Here(pre, h.magic, r1);
    ByteHere(pre + U32(h.magic), FormatCode(h.originalFormat), r2);
    ByteHere(pre + U32(h.magic) + [FormatCode(h.originalFormat)], ArchitectureCode(h.architecture), rest);
  }

  lemma {:induction false} FieldHere(pre: seq<u8>, f: FieldSymbol, rest: seq<u8>)
    ensures FieldAt(pre + PutField(f, rest), |pre|, f)
    ensures |PutField(f, rest)| == FieldSize(f) + |rest|
  {
    var r5 := U32(f.unionId) + rest;
    var r4 := [BoolCode(f.isAnonymousUnion)] + r5;
    var r3 := U64(f.offset) + r4;
    var r2 := U32(f.underlyingTypeId) + r3;
    var r1 := Terminated(f.name) + r2;
    Int32Here(pre, f.id, r1);
    var p1 := pre + U32(f.id);
    TextHere(p1, f.name, r2);
    var p2 := p1 + Terminated(f.name);
    Int32Here(p2, f.underlyingTypeId, r3);
    var p3 := p2 + U32(f.underlyingTypeId);
    Int64Here(p3, f.offset, r4);
    var p4 := p3 + U64(f.offset);
    ByteHere(p4, BoolCode(f.isAnonymousUnion), r5);
    Int32Here(p4 + [BoolCode(f.isAnonymousUnion)], f.unionId, rest);
  }

  lemma {:induction false} FieldsHere(pre: seq<u8>, fields: seq<FieldSymbol>, rest: seq<u8>)
    ensures ListAt(FieldAt, FieldSize, pre + Put(PutField, fields, rest), |pre|, fields)
    ensures |Put(PutField, fields, rest)| == Sum(FieldSize, fields) + |rest|
    decreases |fields|
  {
    if fields != [] {
      var part, others := PutField(fields[0], []), Put(PutField, fields[1..], rest);
      FieldHere(pre, fields[0], others);
      FieldHere([], fields[0], []);
      PutFieldThen(fields[0], [], others);
      NextPart(pre, part, others);
      FieldsHere(pre + part, fields[1..], rest);
      ListGrows(PutField, FieldAt, FieldSize, pre, fields, rest, others, part);
    }
  }

  lemma NextPart(pre: seq<u8>, part: seq<u8>, rest: seq<u8>)
    ensures (pre + part) + rest == pre + (part + rest)
    ensures [] + rest == rest
  {}

  lemma {:induction false} TypeStartHere(pre: seq<u8>, t: TypeSymbol, r6: seq<u8>)
    ensures var b := pre + (U32(t.id) + (Terminated(t.name) + ([KindCode(t.kind)] + (U64(t.length) + (
                     U64(t.fieldCount) + (U64(|t.fields|) + r6))))));
            && TypeStartAt(b, |pre|, t)
            && b == TypeStart(pre, t) + r6
  {
    CodesAreIndices(UnknownFormat, UnknownArchitecture, t.kind, UnknownConvention);
    var r5 := U64(|t.fields|) + r6;
    var r4 := U64(t.fieldCount) + r5;
    var r3 := U64(t.length) + r4;
    var r2 := [KindCode(t.kind)] + r3;
    var r1 := Terminated(t.name) + r2;
    Int32Here(pre, t.id, r1);
    var p1 := pre + U32(t.id);
    TextHere(p1, t.name, r2);
    var p2 := p1 + Terminated(t.name);
    ByteHere(p2, KindCode(t.kind), r3);
    var p3 := p2 + [KindCode(t.kind)];
    Int64Here(p3, t.length, r4);
    var p4 := p3 + U64(t.length);
    Int64Here(p4, t.fieldCount, r5);
    CountHere(p4 + U64(t.fieldCount), |t.fields|, r6);
  }

  function TypeStart(pre: seq<u8>, t: TypeSymbol): (b: seq<u8>)
    ensures |b| == |pre| + 30 + |t.name|
  {
    pre + U32(t.id) + Terminated(t.name) + [KindCode(t.kind)] + U64(t.length) + U64(t.fieldCount) + U64(|t.fields|)
  }

  lemma {:induction false} BehindFields(pre: seq<u8>, fields: seq<FieldSymbol>, n: u32, rest: seq<u8>)
    ensures Int32At(pre + Put(PutField, fields, U32(n) + rest), |pre| + Sum(FieldSize, fields), n)
  {
    FieldsHere(pre, fields, []);
    forall f, r
      ensures PutField(f, r) + (U32(n) + rest) == PutField(f, r + (U32(n) + rest))
    {
      PutFieldThen(f, r, U32(n) + rest);
    }
    PutThen(PutField, fields, [], U32(n) + rest);
    var p := Put(PutField, fields, []);
    NextPart(pre, p, U32(n) + rest);
    Int32Here(pre + p, n, rest);
  }

  /** What lies behind a type's start. */
  lemma {:induction false} TypeRestHere(start: seq<u8>, at: nat, t: TypeSymbol, rest: seq<u8>)
    requires |start| == at
    ensures TypeRestAt(start + Put(PutField, t.fields, U32(t.typedefSource) + rest), at, t)
  {
    FieldsHere(start, t.fields, U32(t.typedefSource) + rest);
    BehindFields(start, t.fields, t.typedefSource, rest);
  }

  lemma {:induction false} TypeBytes(pre: seq<u8>, t: TypeSymbol, rest: seq<u8>)
    ensures TypeStartAt(pre + PutType(t, rest), |pre|, t)
    ensures pre + PutType(t, rest) == TypeStart(pre, t) + Put(PutField, t.fields, U32(t.typedefSource) + rest)
  {
    TypeStartHere(pre, t, Put(PutField, t.fields, U32(t.typedefSource) + rest));
  }

  lemma {:induction false} TypeHere(pre: seq<u8>, t: TypeSymbol, rest: seq<u8>)
    ensures TypeAt(pre + PutType(t, rest), |pre|, t)
  {
    TypeBytes(pre, t, rest);
    var behind := |pre| + 30 + |t.name|;
    TypeRestHere(TypeStart(pre, t), behind, t, rest);
    assert TypeRestAt(pre + PutType(t, rest), behind, t);
  }

  lemma {:induction false} TypeLength(t: TypeSymbol)
    ensures |PutType(t, [])| == TypeSize(t)
  {
    FieldsHere([], t.fields, U32(t.typedefSource) + []);
    TypeStartHere([], t, Put(PutField, t.fields, U32(t.typedefSource) + []));
    NextPart([], [], PutType(t, []));
  }

  lemma {:induction false} TypesHere(pre: seq<u8>, types: seq<TypeSymbol>, rest: seq<u8>)
    ensures ListAt(TypeAt, TypeSize, pre + Put(PutType, types, rest), |pre|, types)
    ensures |Put(PutType, types, rest)| == Sum(TypeSize, types) + |rest|
    decreases |types|
  {
    if types != [] {
      var part, others := PutType(types[0], []), Put(PutType, types[1..], rest);
      TypeHere(pre, types[0], others);
      TypeLength(types[0]);
      PutTypeThen(types[0], [], others);
      NextPart(pre, part, others);
      TypesHere(pre + part, types[1..], rest);
      ListGrows(PutType, TypeAt, TypeSize, pre, types, rest, others, part);
    }
  }

  // ---------------------------------------------------------------- functions

  lemma {:induction false} IdsFromFront(b: seq<u8>, at: nat, ids: seq<u32>)
    requires ids != [] && Int32At(b, at, ids[0]) && IdsAt(b, at + 4, ids[1..])
    ensures IdsAt(b, at, ids)
  {
    forall i | 0 <= i < |ids|
      ensures Int32At(b, at + 4 * i, ids[i])
    {
      if i > 0 {
        assert Int32At(b, at + 4 + 4 * (i - 1), ids[1..][i - 1]);
      }
    }
  }

  lemma {:induction false} IdsHere(pre: seq<u8>, ids: seq<u32>, rest: seq<u8>)
    ensures IdsAt(pre + Put(PutId, ids, rest), |pre|, ids)
    ensures |Put(PutId, ids, rest)| == 4 * |ids| + |rest|
    decreases |ids|
  {
    if ids != [] {
      var others := Put(PutId, ids[1..], rest);
      Int32Here(pre, ids[0], others);
      IdsHere(pre + U32(ids[0]), ids[1..], rest);
      assert |pre + U32(ids[0])| == |pre| + 4;
      IdsFromFront(pre + Put(PutId, ids, rest), |pre|, ids);
    }
  }

  function FunctionStart(pre: seq<u8>, f: FunctionSymbol): (b: seq<u8>)
    ensures |b| == |pre| + 21 + |f.name|
  {
    pre + U32(f.id) + Terminated(f.name) + U32(f.returnTypeId) + U32(f.argumentCount) + U64(|f.argumentTypeIds|)
  }

  lemma {:induction false} FunctionStartHere(pre: seq<u8>, f: FunctionSymbol, r5: seq<u8>)
    ensures var b := pre + (U32(f.id) + (Terminated(f.name) + (U32(f.returnTypeId) + (U32(f.argumentCount) + (
                     U64(|f.argumentTypeIds|) + r5)))));
            && FunctionStartAt(b, |pre|, f)
            && b == FunctionStart(pre, f) + r5
  {
    var r4 := U64(|f.argumentTypeIds|) + r5;
    var r3 := U32(f.argumentCount) + r4;
    var r2 := U32(f.returnTypeId) + r3;
    var r1 := Terminated(f.name) + r2;
    Int32Here(pre, f.id, r1);
    var p1 := pre + U32(f.id);
    TextHere(p1, f.name, r2);
    var p2 := p1 + Terminated(f.name);
    Int32Here(p2, f.returnTypeId, r3);
    var p3 := p2 + U32(f.returnTypeId);
    Int32Here(p3, f.argumentCount, r4);
    CountHere(p3 + U32(f.argumentCount), |f.argumentTypeIds|, r5);
  }

  lemma {:induction false} BehindIds(pre: seq<u8>, ids: seq<u32>, tail: seq<u8>)
    ensures pre + Put(PutId, ids, tail) == (pre + Put(PutId, ids, [])) + tail
    ensures |Put(PutId, ids, [])| == 4 * |ids|
  {
    IdsHere(pre, ids, []);
    forall id, r
      ensures PutId(id, r) + tail == PutId(id, r + tail)
    {
      Regroup(U32(id), r, tail);
    }
    PutThen(PutId, ids, [], tail);
    NextPart(pre, Put(PutId, ids, []), tail);
  }

  lemma {:induction false} FunctionHere(pre: seq<u8>, f: FunctionSymbol, rest: seq<u8>)
    ensures FunctionAt(pre + PutFunction(f, rest), |pre|, f)
  {
    CodesAreIndices(UnknownFormat, UnknownArchitecture, Unknown, f.callingConvention);
    var r6 := U64(f.virtualAddress) + rest;
    var r5 := [ConventionCode(f.callingConvention)] + r6;
    var start := FunctionStart(pre, f);
    FunctionStartHere(pre, f, Put(PutId, f.argumentTypeIds, r5));
    IdsHere(start, f.argumentTypeIds, r5);
    BehindIds(start, f.argumentTypeIds, r5);
    var p5 := start + Put(PutId, f.argumentTypeIds, []);
    ByteHere(p5, ConventionCode(f.callingConvention), r6);
    Int64Here(p5 + [ConventionCode(f.callingConvention)], f.virtualAddress, rest);
  }

  lemma {:induction false} FunctionLength(f: FunctionSymbol)
    ensures |PutFunction(f, [])| == FunctionSize(f)
  {
    IdsHere([], f.argumentTypeIds, [ConventionCode(f.callingConvention)] + (U64(f.virtualAddress) + []));
  }

  lemma {:induction false} FunctionsHere(pre: seq<u8>, functions: seq<FunctionSymbol>, rest: seq<u8>)
    ensures ListAt(FunctionAt, FunctionSize, pre + Put(PutFunction, functions, rest), |pre|, functions)
    ensures |Put(PutFunction, functions, rest)| == Sum(FunctionSize, functions) + |rest|
    decreases |functions|
  {
    if functions != [] {
      var part, others := PutFunction(functions[0], []), Put(PutFunction, functions[1..], rest);
      FunctionHere(pre, functions[0], others);
      FunctionLength(functions[0]);
      PutFunctionThen(functions[0], [], others);
      NextPart(pre, part, others);
      FunctionsHere(pre + part, functions[1..], rest);
      ListGrows(PutFunction, FunctionAt, FunctionSize, pre, functions, rest, others, part);
    }
  }

  // ---------------------------------------------------------------- whole tables

  /** How many bytes the records of these ids take. */
  function TableSize<V>(size: V -> nat, table: map<u32, V>, ids: seq<u32>): nat
    requires forall id :: id in ids ==> id in table
  {
    if ids == [] then 0 else TableSize(size, table, ids[..|ids| - 1]) + size(table[ids[|ids| - 1]])
  }

  /** The number of records, and then the records in the order of the ids. */
  ghost predicate TableAt<V>(
      elementAt: (seq<u8>, nat, V) -> bool, size: V -> nat, b: seq<u8>, at: nat, table: map<u32, V>, ids: seq<u32>)
    requires forall id :: id in ids ==> id in table
  {
    && CountAt(b, at, |ids|)
    && forall i {:trigger TableSize(size, table, ids[..i])} :: 0 <= i < |ids| ==>
         elementAt(b, at + 8 + TableSize(size, table, ids[..i]), table[ids[i]])
  }

  ghost predicate Lists<V>(table: map<u32, V>, ids: seq<u32>, list: seq<V>) {
    && |list| == |ids|
    && forall i :: 0 <= i < |ids| ==> ids[i] in table && list[i] == table[ids[i]]
  }

  lemma {:induction false} TableSizeIsSum<V>(size: V -> nat, table: map<u32, V>, ids: seq<u32>, list: seq<V>)
    requires Lists(table, ids, list)
    ensures TableSize(size, table, ids) == Sum(size, list)
  {
    if ids != [] {
      TableSizeIsSum(size, table, ids[..|ids| - 1], list[..|list| - 1]);
    }
  }

  lemma {:induction false} ListIsTable<V>(
      elementAt: (seq<u8>, nat, V) -> bool, size: V -> nat, b: seq<u8>, at: nat,
      table: map<u32, V>, ids: seq<u32>, list: seq<V>)
    requires Lists(table, ids, list)
    requires CountAt(b, at, |ids|) && ListAt(elementAt, size, b, at + 8, list)
    ensures TableAt(elementAt, size, b, at, table, ids)
  {
    forall i | 0 <= i < |ids|
      ensures elementAt(b, at + 8 + TableSize(size, table, ids[..i]), table[ids[i]])
    {
      TableSizeIsSum(size, table, ids[..i], list[..i]);
      assert elementAt(b, at + 8 + Sum(size, list[..i]), list[i]);
    }
  }

  lemma {:induction false} TypesTableHere(
      pre: seq<u8>, types: TypeTable, ids: seq<u32>, list: seq<TypeSymbol>, rest: seq<u8>)
    requires Lists(types, ids, list)
    ensures TableAt(TypeAt, TypeSize, pre + (U64(|list|) + Put(PutType, list, rest)), |pre|, types, ids)
    ensures |U64(|list|) + Put(PutType, list, rest)| == 8 + TableSize(TypeSize, types, ids) + |rest|
  {
    CountHere(pre, |list|, Put(PutType, list, rest));
    TypesHere(pre + U64(|list|), list, rest);
    TableSizeIsSum(TypeSize, types, ids, list);
    ListIsTable(
      TypeAt, TypeSize, pre + (U64(|list|) + Put(PutType, list, rest)), |pre|, types, ids, list);
  }

  lemma {:induction false} FunctionsTableHere(
      pre: seq<u8>, functions: FunctionTable, ids: seq<u32>, list: seq<FunctionSymbol>, b: seq<u8>, at: nat)
    requires Lists(functions, ids, list)
    requires at == |pre| && b == pre + (U64(|list|) + Put(PutFunction, list, []))
    ensures TableAt(FunctionAt, FunctionSize, b, at, functions, ids)
  {
    CountHere(pre, |list|, Put(PutFunction, list, []));
    FunctionsHere(pre + U64(|list|), list, []);
    ListIsTable(FunctionAt, FunctionSize, b, at, functions, ids, list);
  }

  lemma {:induction false} BehindHeader(pre: seq<u8>, h: Header, rest: seq<u8>)
    ensures pre + PutHeader(h, rest) == (pre + PutHeader(h, [])) + rest
    ensures |PutHeader(h, [])| == 6
  {
    PutHeaderThen(h, [], rest);
    NextPart(pre, PutHeader(h, []), rest);
  }

  lemma {:induction false} BehindTypes(pre: seq<u8>, list: seq<TypeSymbol>, rest: seq<u8>)
    ensures pre + (U64(|list|) + Put(PutType, list, rest)) == (pre + (U64(|list|) + Put(PutType, list, []))) + rest
  {
    forall t, r
      ensures PutType(t, r) + rest == PutType(t, r + rest)
    {
      PutTypeThen(t, r, rest);
    }
    PutThen(PutType, list, [], rest);
    NextPart(pre, U64(|list|) + Put(PutType, list, []), rest);
    Regroup(U64(|list|), Put(PutType, list, []), rest);
  }

  /** The types behind a header, and the functions behind the types. */
  lemma {:induction false} TablesHere(
      pre: seq<u8>, list: seq<TypeSymbol>, functionList: seq<FunctionSymbol>,
      types: TypeTable, ids: seq<u32>, functions: FunctionTable, functionIds: seq<u32>,
      b: seq<u8>, at: nat, behind: nat)
    requires Lists(types, ids, list) && Lists(functions, functionIds, functionList)
    requires b == pre + (U64(|list|) + Put(PutType, list, U64(|functionList|) + Put(PutFunction, functionList, [])))
    requires at == |pre| && behind == at + 8 + TableSize(TypeSize, types, ids)
    ensures TableAt(TypeAt, TypeSize, b, at, types, ids)
    ensures TableAt(FunctionAt, FunctionSize, b, behind, functions, functionIds)
  {
    var rest := U64(|functionList|) + Put(PutFunction, functionList, []);
    TypesTableHere(pre, types, ids, list, rest);
    TypesTableHere(pre, types, ids, list, []);
    BehindTypes(pre, list, rest);
    FunctionsTableHere(
      pre + (U64(|list|) + Put(PutType, list, [])), functions, functionIds, functionList, b, behind);
  }

  /** A whole symbol file: header, types, and functions behind the types. */
  ghost predicate LaidOut(
      b: seq<u8>, at: nat, behindHeader: nat, behindTypes: nat, header: Header,
      types: TypeTable, ids: seq<u32>, functions: FunctionTable, functionIds: seq<u32>)
    requires forall id :: id in ids ==> id in types
    requires forall id :: id in functionIds ==> id in functions
  {
    && behindHeader == at + 6 && behindTypes == behindHeader + 8 + TableSize(TypeSize, types, ids)
    && HeaderAt(b, at, header)
    && TableAt(TypeAt, TypeSize, b, behindHeader, types, ids)
    && TableAt(FunctionAt, FunctionSize, b, behindTypes, functions, functionIds)
  }

  ghost predicate IsLaidOut(
      b: seq<u8>, at: nat, header: Header, types: TypeTable, ids: seq<u32>,
      functions: FunctionTable, functionIds: seq<u32>)
    requires forall id :: id in ids ==> id in types
    requires forall id :: id in functionIds ==> id in functions
  {
    exists behindHeader, behindTypes ::
      LaidOut(b, at, behindHeader, behindTypes, header, types, ids, functions, functionIds)
  }

  lemma {:induction false} EncodingIsLaidOut(
      pre: seq<u8>, c: Contents, types: TypeTable, ids: seq<u32>, functions: FunctionTable, functionIds: seq<u32>,
      behindHeader: nat, behindTypes: nat)
    requires Lists(types, ids, c.types) && Lists(functions, functionIds, c.functions)
    requires behindHeader == |pre| + 6 && behindTypes == behindHeader + 8 + TableSize(TypeSize, types, ids)
    ensures LaidOut(
              pre + Encode(c), |pre|, behindHeader, behindTypes, c.header, types, ids, functions, functionIds)
  {
    var r2 := U64(|c.functions|) + Put(PutFunction, c.functions, []);
    var r1 := U64(|c.types|) + Put(PutType, c.types, r2);
    HeaderHere(pre, c.header, r1);
    BehindHeader(pre, c.header, r1);
    TablesHere(
      pre + PutHeader(c.header, []), c.types, c.functions, types, ids, functions, functionIds,
      pre + Encode(c), behindHeader, behindTypes);
  }
}
