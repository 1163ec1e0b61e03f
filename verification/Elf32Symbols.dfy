/** The symbols of 32-bit ELF files, which are read with the record layout of 64-bit ones
    (ReadSymbols, Components/ElfProcessor/ElfInterface.cpp, and ELF.h). */
module Elf32Symbols {
  import opened Symbols
  import opened Bytes
  import opened ElfRecords

  const SYM_SIZE_32 := 16

  function SymbolFrom32(b: seq<u8>): ElfSymbol
    requires |b| == SYM_SIZE_32
  {
    ElfSymbol(U32At(b, 0), b[12], b[13], U16At(b, 14), U32At(b, 4), U32At(b, 8), [])
  }

  function SymbolAt32(file: seq<u8>, at: nat): ElfSymbol {
    if at + SYM_SIZE_32 <= |file| then SymbolFrom32(file[at..at + SYM_SIZE_32]) else NO_SYMBOL
  }

  /** What a 32-bit file has for symbols. */
  function UnnamedSymbols32(file: seq<u8>, offset: nat, size: nat): seq<ElfSymbol> {
    seq(size / SYM_SIZE_32, i requires 0 <= i < size / SYM_SIZE_32 => SymbolAt32(file, offset + SYM_SIZE_32 * i))
  }

  // ---------------------------------------------------------------- words and their bytes

  predicate ZeroBytes(b: seq<u8>, from: nat, to: nat) {
    forall k :: from <= k < to && k < |b| ==> b[k] == 0
  }

  // ---------------------------------------------------------------- one record

  predicate SameWord(file: seq<u8>, at: nat, at': nat)
    requires at + 4 <= |file| && at' + 4 <= |file|
  {
    && file[at] == file[at'] && file[at + 1] == file[at' + 1]
    && file[at + 2] == file[at' + 2] && file[at + 3] == file[at' + 3]
  }

  predicate ZeroWord(file: seq<u8>, at: nat)
    requires at + 4 <= |file|
  {
    file[at] == 0 && file[at + 1] == 0 && file[at + 2] == 0 && file[at + 3] == 0
  }

  /** The 64-bit record at `at` gives the symbol that the 32-bit record at at' holds. */
  predicate SameRecord(file: seq<u8>, at: nat, at': nat)
    requires at + SYM_SIZE <= |file| && at' + SYM_SIZE_32 <= |file|
  {
    && SameWord(file, at, at')
    && SameWord(file, at + 4, at' + 12)
    && SameWord(file, at + 8, at' + 4) && ZeroWord(file, at + 12)
    && SameWord(file, at + 16, at' + 8) && ZeroWord(file, at + 20)
  }

  lemma {:induction false} WordAt(file: seq<u8>, at: nat)
    requires at + 4 <= |file|
    ensures FromLittleEndian(file[at..at + 4]) == Bytes4(file[at], file[at + 1], file[at + 2], file[at + 3])
  {
    FirstFour(file[at..at + 4]);
  }

  lemma LowestDigit(a: nat, b: nat, a': nat, b': nat)
    requires a < 0x100 && a' < 0x100
    ensures a + 0x100 * b == a' + 0x100 * b' <==> a == a' && b == b'
  {}

  lemma {:induction false} SameBytes(a: u8, b: u8, c: u8, d: u8, a': u8, b': u8, c': u8, d': u8)
    ensures Bytes4(a, b, c, d) == Bytes4(a', b', c', d') <==> a == a' && b == b' && c == c' && d == d'
  {
    var ab, ab': nat := b + 0x100 * (c + 0x100 * (d as int)), b' + 0x100 * (c' + 0x100 * (d' as int));
    LowestDigit(a, ab, a', ab');
    LowestDigit(b, c + 0x100 * (d as int), b', c' + 0x100 * (d' as int));
    LowestDigit(c, d, c', d');
  }

  lemma {:induction false} SameWordIff(file: seq<u8>, at: nat, at': nat)
    requires at + 4 <= |file| && at' + 4 <= |file|
    ensures FromLittleEndian(file[at..at + 4]) == FromLittleEndian(file[at'..at' + 4]) <==> SameWord(file, at, at')
  {
    WordAt(file, at);
    WordAt(file, at');
    SameBytes(file[at], file[at + 1], file[at + 2], file[at + 3],
              file[at'], file[at' + 1], file[at' + 2], file[at' + 3]);
  }

  lemma {:induction false} ZeroWordIff(file: seq<u8>, at: nat)
    requires at + 4 <= |file|
    ensures FromLittleEndian(file[at..at + 4]) == 0 <==> ZeroWord(file, at)
  {
    WordAt(file, at);
  }

  lemma {:induction false} LongEqualsShortIff(file: seq<u8>, at: nat, at': nat)
    requires at + 8 <= |file| && at' + 4 <= |file|
    ensures FromLittleEndian(file[at..at + 8]) == FromLittleEndian(file[at'..at' + 4]) <==>
            SameWord(file, at, at') && ZeroWord(file, at + 4)
  {
    var long := file[at..at + 8];
    LongWord(long);
    assert long[..4] == file[at..at + 4] && long[4..] == file[at + 4..at + 4 + 4];
    WordBounds(file[at..at + 4]);
    WordBounds(file[at'..at' + 4]);
    SameWordIff(file, at, at');
    ZeroWordIff(file, at + 4);
  }

  lemma {:induction false} FieldsOf64(file: seq<u8>, at: nat)
    requires at + SYM_SIZE <= |file|
    ensures var s := SymbolAt(file, at);
            && s.nameOffset == FromLittleEndian(file[at..at + 4])
            && s.info == file[at + 4] && s.other == file[at + 5]
            && s.shndx == Bytes4(file[at + 6], file[at + 7], 0, 0)
            && s.value == FromLittleEndian(file[at + 8..at + 8 + 8])
            && s.size == FromLittleEndian(file[at + 16..at + 16 + 8])
            && s.name == []
  {
    var b := file[at..at + SYM_SIZE];
    Inside(file, at, SYM_SIZE, 0, 4);
    Inside(file, at, SYM_SIZE, 8, 8);
    Inside(file, at, SYM_SIZE, 16, 8);
    TwoBytes(b[6..8]);
  }

  lemma {:induction false} FieldsOf32(file: seq<u8>, at: nat)
    requires at + SYM_SIZE_32 <= |file|
    ensures var s := SymbolAt32(file, at);
            && s.nameOffset == FromLittleEndian(file[at..at + 4])
            && s.info == file[at + 12] && s.other == file[at + 13]
            && s.shndx == Bytes4(file[at + 14], file[at + 15], 0, 0)
            && s.value == FromLittleEndian(file[at + 4..at + 4 + 4])
            && s.size == FromLittleEndian(file[at + 8..at + 8 + 4])
            && s.name == []
  {
    var c := file[at..at + SYM_SIZE_32];
    Inside(file, at, SYM_SIZE_32, 0, 4);
    Inside(file, at, SYM_SIZE_32, 4, 4);
    Inside(file, at, SYM_SIZE_32, 8, 4);
    TwoBytes(c[14..16]);
  }

  lemma {:induction false} SameRecordIff(file: seq<u8>, at: nat, at': nat)
    requires at + SYM_SIZE <= |file| && at' + SYM_SIZE_32 <= |file|
    ensures SymbolAt(file, at) == SymbolAt32(file, at') <==> SameRecord(file, at, at')
  {
    FieldsOf64(file, at);
    FieldsOf32(file, at');
    SameWordIff(file, at, at');
    LongEqualsShortIff(file, at + 8, at' + 4);
    LongEqualsShortIff(file, at + 16, at' + 8);
  }

  lemma {:induction false} NoSymbolIff(file: seq<u8>, at: nat)
    requires at + SYM_SIZE_32 <= |file|
    ensures SymbolAt32(file, at) == NO_SYMBOL <==> ZeroBytes(file, at, at + SYM_SIZE_32)
  {
    NoSymbolIffWords(file, at);
    SixteenZerosIff(file, at);
  }

  lemma {:induction false} NoSymbolIffWords(file: seq<u8>, at: nat)
    requires at + SYM_SIZE_32 <= |file|
    ensures SymbolAt32(file, at) == NO_SYMBOL <==>
            ZeroWord(file, at) && ZeroWord(file, at + 4) && ZeroWord(file, at + 8) && ZeroWord(file, at + 12)
  {
    FieldsOf32(file, at);
    ZeroWordIff(file, at);
    ZeroWordIff(file, at + 4);
    ZeroWordIff(file, at + 8);
  }

  lemma SixteenZerosIff(file: seq<u8>, at: nat)
    requires at + SYM_SIZE_32 <= |file|
    ensures ZeroBytes(file, at, at + SYM_SIZE_32) <==>
            ZeroWord(file, at) && ZeroWord(file, at + 4) && ZeroWord(file, at + 8) && ZeroWord(file, at + 12)
  {}

  // ---------------------------------------------------------------- the table

  /** How many records of a size there are from the offset to the end of the file. */
  function Fits(file: seq<u8>, offset: nat, size: nat): nat
    requires size > 0
  {
    if offset <= |file| then (|file| - offset) / size else 0
  }

  function Min(a: nat, b: nat): nat {
    if a < b then a else b
  }

  /** The bytes of the table from the second word on are 0, but for the type and section of the
      second symbol. */
  predicate NearlyZero(file: seq<u8>, offset: nat, to: nat)
    requires offset + to <= |file|
  {
    forall k :: offset + 4 <= k < offset + to && !(offset + 28 <= k < offset + 32) ==> file[k] == 0
  }

  predicate RecordRight(file: seq<u8>, offset: nat, i: nat) {
    SymbolAt(file, offset + SYM_SIZE * i) == SymbolAt32(file, offset + SYM_SIZE_32 * i)
  }

  /** If the records before it are right, record i is exactly if its 24 bytes are nearly 0 too. */
  lemma {:induction false} NextRecordRightIff(file: seq<u8>, offset: nat, i: nat)
    requires offset + SYM_SIZE * i + SYM_SIZE <= |file| && NearlyZero(file, offset, SYM_SIZE * i)
    ensures RecordRight(file, offset, i) <==> NearlyZero(file, offset, SYM_SIZE * (i + 1))
  {
    SameRecordIff(file, offset + SYM_SIZE * i, offset + SYM_SIZE_32 * i);
    SameRecordInTable(file, offset, i);
  }

  lemma {:induction false} SameRecordInTable(file: seq<u8>, offset: nat, i: nat)
    requires offset + SYM_SIZE * i + SYM_SIZE <= |file| && NearlyZero(file, offset, SYM_SIZE * i)
    ensures SameRecord(file, offset + SYM_SIZE * i, offset + SYM_SIZE_32 * i)
            <==> NearlyZero(file, offset, SYM_SIZE * (i + 1))
  {
    if i == 0 {
      FirstSame(file, offset);
    } else if i == 1 {
      SecondSame(file, offset);
    } else {
      LaterSame(file, offset, i);
    }
  }

  lemma {:induction false} FirstSame(file: seq<u8>, offset: nat)
    requires offset + SYM_SIZE <= |file|
    ensures SameRecord(file, offset, offset) <==> NearlyZero(file, offset, SYM_SIZE)
  {
    if SameRecord(file, offset, offset) {
      assert ZeroWord(file, offset + 12) && ZeroWord(file, offset + 20);
      assert ZeroWord(file, offset + 4) && ZeroWord(file, offset + 8) && ZeroWord(file, offset + 16);
    }
  }

  lemma {:induction false} SecondSame(file: seq<u8>, offset: nat)
    requires offset + 2 * SYM_SIZE <= |file| && NearlyZero(file, offset, SYM_SIZE)
    ensures SameRecord(file, offset + SYM_SIZE, offset + SYM_SIZE_32) <==> NearlyZero(file, offset, 2 * SYM_SIZE)
  {
    assert ZeroWord(file, offset + 16) && ZeroWord(file, offset + 20);
    if SameRecord(file, offset + SYM_SIZE, offset + SYM_SIZE_32) {
      assert ZeroWord(file, offset + 24) && ZeroWord(file, offset + 32) && ZeroWord(file, offset + 36);
      assert ZeroWord(file, offset + 40) && ZeroWord(file, offset + 44);
    }
  }

  lemma {:induction false} LaterSame(file: seq<u8>, offset: nat, i: nat)
    requires i >= 2 && offset + SYM_SIZE * i + SYM_SIZE <= |file| && NearlyZero(file, offset, SYM_SIZE * i)
    ensures SameRecord(file, offset + SYM_SIZE * i, offset + SYM_SIZE_32 * i)
            <==> NearlyZero(file, offset, SYM_SIZE * (i + 1))
  {
    var at, at' := offset + SYM_SIZE * i, offset + SYM_SIZE_32 * i;
    assert offset + 32 <= at' && at' + SYM_SIZE_32 <= at;
    assert ZeroWord(file, at') && ZeroWord(file, at' + 4) && ZeroWord(file, at' + 8) && ZeroWord(file, at' + 12);
    if SameRecord(file, at, at') {
      assert ZeroWord(file, at) && ZeroWord(file, at + 4) && ZeroWord(file, at + 8);
      assert ZeroWord(file, at + 12) && ZeroWord(file, at + 16) && ZeroWord(file, at + 20);
    }
  }

  lemma {:induction false} RecordsRightIff(file: seq<u8>, offset: nat, n: nat)
    requires n == 0 || offset + SYM_SIZE * n <= |file|
    ensures (forall i :: 0 <= i < n ==> RecordRight(file, offset, i)) <==>
            n == 0 || NearlyZero(file, offset, SYM_SIZE * n)
  {
    if n > 0 {
      RecordsRightIff(file, offset, n - 1);
      if NearlyZero(file, offset, SYM_SIZE * (n - 1)) {
        NextRecordRightIff(file, offset, n - 1);
      } else {
        ShorterToo(file, offset, SYM_SIZE * (n - 1), SYM_SIZE * n);
      }
    }
  }

  lemma ShorterToo(file: seq<u8>, offset: nat, shorter: nat, longer: nat)
    requires shorter <= longer && offset + longer <= |file|
    ensures NearlyZero(file, offset, longer) ==> NearlyZero(file, offset, shorter)
  {}

  /** A record that is past the end when it is read as a 64-bit one reads as zeros. */
  lemma {:induction false} UnreadRecordRightIff(file: seq<u8>, offset: nat, i: nat)
    requires offset + SYM_SIZE * i + SYM_SIZE > |file|
    ensures RecordRight(file, offset, i) <==>
            (offset + SYM_SIZE_32 * i + SYM_SIZE_32 <= |file|
             ==> ZeroBytes(file, offset + SYM_SIZE_32 * i, offset + SYM_SIZE_32 * (i + 1)))
  {
    if offset + SYM_SIZE_32 * i + SYM_SIZE_32 <= |file| {
      NoSymbolIff(file, offset + SYM_SIZE_32 * i);
    }
  }

  lemma {:induction false} UnreadRecordsRightIff(file: seq<u8>, offset: nat, from: nat, end: nat)
    requires from <= end && (from < end ==> offset + SYM_SIZE * from + SYM_SIZE > |file|)
    requires from == end || offset + SYM_SIZE_32 * end <= |file|
    ensures (forall i :: from <= i < end ==> RecordRight(file, offset, i)) <==>
            ZeroBytes(file, offset + SYM_SIZE_32 * from, offset + SYM_SIZE_32 * end)
    decreases end
  {
    if from < end {
      UnreadRecordsRightIff(file, offset, from, end - 1);
      UnreadRecordRightIff(file, offset, end - 1);
      var a, b, c := offset + SYM_SIZE_32 * from, offset + SYM_SIZE_32 * (end - 1), offset + SYM_SIZE_32 * end;
      assert a <= b <= c <= |file|;
      assert ZeroBytes(file, a, c) <==> ZeroBytes(file, a, b) && ZeroBytes(file, b, c);
    }
  }

  /** The 24-byte records that are read, and after them what is left of the 32-bit file's, hold nothing
      but the name of the first symbol and, if two are read, type and section of the second. */
  predicate NothingToMisread(file: seq<u8>, offset: nat, count: nat) {
    var read := Min(count, Fits(file, offset, SYM_SIZE));
    var there := Min(count, Fits(file, offset, SYM_SIZE_32));
    && (read > 0 ==> offset + SYM_SIZE * read <= |file| && NearlyZero(file, offset, SYM_SIZE * read))
    && ZeroBytes(file, offset + SYM_SIZE_32 * read, offset + SYM_SIZE_32 * there)
  }

  lemma {:induction false} FitsIff(file: seq<u8>, offset: nat, size: nat, i: nat)
    requires size > 0
    ensures i < Fits(file, offset, size) <==> offset + size * i + size <= |file|
    ensures Fits(file, offset, size) > 0 ==> offset + size * Fits(file, offset, size) <= |file|
  {
    if offset <= |file| {
      var d, q := |file| - offset, (|file| - offset) / size;
      assert size * q <= d < size * q + size;
      if i < q {
        assert size * i + size <= size * q by { MulMonotone(size, i + 1, q); }
      } else {
        assert size * q <= size * i by { MulMonotone(size, q, i); }
      }
    }
  }

  lemma MulMonotone(size: nat, a: nat, b: nat)
    requires a <= b
    ensures size * a <= size * b
  {}

  lemma {:induction false} AllRecordsRightIff(file: seq<u8>, offset: nat, count: nat)
    ensures (forall i :: 0 <= i < count ==> RecordRight(file, offset, i)) <==> NothingToMisread(file, offset, count)
  {
    var read := Min(count, Fits(file, offset, SYM_SIZE));
    var there := Min(count, Fits(file, offset, SYM_SIZE_32));
    forall i: nat
      ensures i < Fits(file, offset, SYM_SIZE) <==> offset + SYM_SIZE * i + SYM_SIZE <= |file|
      ensures i < Fits(file, offset, SYM_SIZE_32) <==> offset + SYM_SIZE_32 * i + SYM_SIZE_32 <= |file|
    {
      FitsIff(file, offset, SYM_SIZE, i);
      FitsIff(file, offset, SYM_SIZE_32, i);
    }
    assert read <= there by {
      if there < Fits(file, offset, SYM_SIZE) {
        assert offset + SYM_SIZE * there + SYM_SIZE <= |file|;
      }
    }
    RecordsRightIff(file, offset, read);
    UnreadRecordsRightIff(file, offset, read, there);
    forall i | there <= i < count
      ensures RecordRight(file, offset, i)
    {
      UnreadRecordRightIff(file, offset, i);
    }
  }

  lemma {:induction false} TableRightIff(file: seq<u8>, offset: nat, size: nat)
    requires !Is64(file)
    ensures UnnamedSymbols(file, offset, size) == UnnamedSymbols32(file, offset, size) <==>
            forall i :: 0 <= i < size / SYM_SIZE_32 ==> RecordRight(file, offset, i)
  {
    var read, right := UnnamedSymbols(file, offset, size), UnnamedSymbols32(file, offset, size);
    assert |read| == |right| == size / SYM_SIZE_32;
    assert forall i :: 0 <= i < |read| ==> (read[i] == right[i] <==> RecordRight(file, offset, i));
  }

  /** The symbols of a 32-bit file are read right exactly if its table holds next to nothing. */
  lemma {:induction false} Symbols32RightIff(file: seq<u8>, offset: nat, size: nat)
    requires !Is64(file)
    ensures UnnamedSymbols(file, offset, size) == UnnamedSymbols32(file, offset, size) <==>
            NothingToMisread(file, offset, size / SYM_SIZE_32)
  {
    TableRightIff(file, offset, size);
    AllRecordsRightIff(file, offset, size / SYM_SIZE_32);
  }
}
