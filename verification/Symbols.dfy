/** The records of the universal symbol table, their comparison operators and
    their hashes (Components/UniversalSymbolsFormat/USYM.h). */
module Symbols {

  type u8 = x: int | 0 <= x < 0x100
  type u32 = x: int | 0 <= x < 0x1_0000_0000
  type u64 = x: int | 0 <= x < 0x1_0000_0000_0000_0000

  /** A std::string: any bytes, NUL included. */
  type Str = seq<u8>

  datatype Option<+T> = None | Some(value: T) {
    predicate IsFailure() {
      None?
    }

    function PropagateFailure<U>(): Option<U>
      requires None?
    {
      None
    }

    function Extract(): T
      requires Some?
    {
      value
    }
  }

  datatype Kind =
    | Base | Struct | Class | Union | Interface | Enum | Pointer | Typedef | Array
    | Unknown

  datatype FieldSymbol = FieldSymbol(
    id: u32, name: Str, underlyingTypeId: u32, offset: u64, isAnonymousUnion: bool, unionId: u32)

  datatype TypeSymbol = TypeSymbol(
    id: u32, name: Str, kind: Kind, length: u64, fieldCount: u64, fields: seq<FieldSymbol>,
    typedefSource: u32)

  datatype CallingConvention =
    | NearC | NearFast | NearStd | NearSys | Thiscall | ClrCall
    | UnknownConvention

  datatype FunctionSymbol = FunctionSymbol(
    id: u32, name: Str, returnTypeId: u32, argumentCount: u32, argumentTypeIds: seq<u32>,
    callingConvention: CallingConvention, virtualAddress: u64)

  // The default-constructed records.
  const EMPTY_FIELD := FieldSymbol(0, [], 0, 0, false, 0)
  const EMPTY_TYPE := TypeSymbol(0, [], Unknown, 0, 0, [], 0)
  const EMPTY_FUNCTION := FunctionSymbol(0, [], 0, 0, [], UnknownConvention, 0)

  type TypeTable = map<u32, TypeSymbol>
  type FunctionTable = map<u32, FunctionSymbol>

  // ---------------------------------------------------------------- comparison

  /** FieldSymbol::operator==, which ignores the field's own id. */
  predicate SameField(a: FieldSymbol, b: FieldSymbol) {
    && a.underlyingTypeId == b.underlyingTypeId
    && a.offset == b.offset
    && a.name == b.name
    && a.isAnonymousUnion == b.isAnonymousUnion
    && a.unionId == b.unionId
  }

  predicate SameFields(a: seq<FieldSymbol>, b: seq<FieldSymbol>) {
    |a| == |b| && forall i :: 0 <= i < |a| ==> SameField(a[i], b[i])
  }

  /** TypeSymbol::operator==, which ignores the id and the kind. */
  predicate SameType(a: TypeSymbol, b: TypeSymbol) {
    && a.length == b.length
    && a.fieldCount == b.fieldCount
    && a.name == b.name
    && SameFields(a.fields, b.fields)
    && a.typedefSource == b.typedefSource
  }

  // ---------------------------------------------------------------- hashing

  /** The standard library's hashes, about which nothing is assumed. */
  datatype StdHash = StdHash(ofU64: u64 -> nat, ofU32: u32 -> nat, ofString: Str -> nat)

  /** The bitwise exclusive or. */
  function Xor(a: nat, b: nat): nat
    decreases a + b
  {
    if a == 0 then b
    else if b == 0 then a
    else 2 * Xor(a / 2, b / 2) + (a + b) % 2
  }

  /** start XORed with every field's hash; a field hashes as its type id does. */
  function WithFields(h: StdHash, start: nat, fields: seq<FieldSymbol>): nat {
    if fields == [] then start
    else Xor(WithFields(h, start, fields[..|fields| - 1]), h.ofU32(fields[|fields| - 1].underlyingTypeId))
  }

  function TypeHash(h: StdHash, t: TypeSymbol): nat {
    Xor(WithFields(h, Xor(h.ofU64(t.length), h.ofU64(t.fieldCount)), t.fields), h.ofString(t.name))
  }

  /** The hash as it is accumulated, field by field. */
  method ComputeTypeHash(h: StdHash, t: TypeSymbol) returns (symbolHash: nat)
    ensures symbolHash == TypeHash(h, t)
  {
    symbolHash := Xor(h.ofU64(t.length), h.ofU64(t.fieldCount));
    ghost var start := symbolHash;
    for i := 0 to |t.fields|
      invariant symbolHash == WithFields(h, start, t.fields[..i])
    {
      assert t.fields[..i + 1][..i] == t.fields[..i];
      symbolHash := Xor(symbolHash, h.ofU32(t.fields[i].underlyingTypeId));
    }
    assert t.fields[..|t.fields|] == t.fields;
    symbolHash := Xor(symbolHash, h.ofString(t.name));
  }

  lemma {:induction false} SameFieldsHashEqual(
      h: StdHash, start: nat, a: seq<FieldSymbol>, b: seq<FieldSymbol>)
    requires SameFields(a, b)
    ensures WithFields(h, start, a) == WithFields(h, start, b)
  {
    if a != [] {
      SameFieldsHashEqual(h, start, a[..|a| - 1], b[..|b| - 1]);
    }
  }

  /** Symbols that compare equal hash equal, whatever the library hashes are. */
  lemma EqualTypesHashEqual(h: StdHash, a: TypeSymbol, b: TypeSymbol)
    requires SameType(a, b)
    ensures TypeHash(h, a) == TypeHash(h, b)
  {
    SameFieldsHashEqual(h, Xor(h.ofU64(a.length), h.ofU64(a.fieldCount)), a.fields, b.fields);
  }
}
