/** A 32-bit ELF object file with one named symbol, and what is read of it
    (Components/ElfProcessor/ElfInterface.cpp and ELF.h). */
module Elf32Example {
  import opened Symbols
  import opened Bytes
  import opened ReaderBuffer
  import opened ElfRecords
  import opened Elf
  import opened Elf32Symbols

  // Header at 0, symbol table at 52 (the null symbol and one named a), string table at 84,
  // section headers at 104 (the null section, .symtab and .strtab, which also has the section names).

  const SYMBOLS_AT := 52
  const STRINGS_AT := 84
  const SECTIONS_AT := 104
  const FILE_SIZE := 224

  const HEADER: seq<u32> :=
    [0x464c_457f, 0x1_0101, 0, 0, 0x3_0001, 1, 0, 0, SECTIONS_AT, 0, 52, 0x28_0000, 0x2_0003]
  const NULL_SYMBOL: seq<u32> := [0, 0, 0, 0]
  const SYMBOL_A: seq<u32> := [17, 32, 4, 0xfff1_0012]
  const NULL_SECTION: seq<u32> := [0, 0, 0, 0, 0, 0, 0, 0, 0, 0]
  const SYMTAB_SECTION: seq<u32> := [1, 2, 0, 0, SYMBOLS_AT, 32, 2, 1, 4, 16]
  const STRTAB_SECTION: seq<u32> := [9, 3, 0, 0, STRINGS_AT, 19, 0, 0, 1, 0]
  const NAME_A: Str := [0x61]
  const NAME_MTAB: Str := [0x6d, 0x74, 0x61, 0x62]

  function Strings(): (b: seq<u8>)
    ensures |b| == 20
  {
    [0] + SYMTAB + [0] + STRTAB + [0] + NAME_A + [0] + [0]
  }

  function Flat(words: seq<u32>): (b: seq<u8>)
    ensures |b| == 4 * |words|
  {
    if words == [] then [] else LittleEndian(words[0], 4) + Flat(words[1..])
  }

  function ObjectFile(): seq<u8> {
    Flat(HEADER) + Flat(NULL_SYMBOL) + Flat(SYMBOL_A) + Strings()
    + Flat(NULL_SECTION) + Flat(SYMTAB_SECTION) + Flat(STRTAB_SECTION)
  }

  // ---------------------------------------------------------------- words of the file

  predicate WordIs(file: seq<u8>, at: nat, value: int) {
    at + 4 <= |file| && FromLittleEndian(file[at..at + 4]) == value
  }

  lemma {:induction false} WordOfFlat(words: seq<u32>, i: nat)
    requires i < |words|
    ensures Flat(words)[4 * i..4 * i + 4] == LittleEndian(words[i], 4)
  {
    if i > 0 {
      WordOfFlat(words[1..], i - 1);
      assert Flat(words)[4..] == Flat(words[1..]);
      assert Flat(words)[4 * i..4 * i + 4] == Flat(words)[4..][4 * (i - 1)..4 * (i - 1) + 4];
    }
  }

  /** The words of a record that lies at `at`. */
  ghost predicate HasRecord(file: seq<u8>, at: nat, words: seq<u32>) {
    at + 4 * |words| <= |file| && file[at..at + 4 * |words|] == Flat(words)
  }

  lemma {:induction false} WordOfRecord(file: seq<u8>, at: nat, words: seq<u32>, i: nat)
    requires HasRecord(file, at, words) && i < |words|
    ensures WordIs(file, at + 4 * i, words[i])
  {
    WordOfFlat(words, i);
    Inside(file, at, 4 * |words|, 4 * i, 4);
    PowersOf256();
    LittleEndianRoundTrip(words[i], 4);
  }

  lemma Placed(before: seq<u8>, part: seq<u8>, after: seq<u8>)
    ensures (before + part + after)[|before|..|before| + |part|] == part
  {}

  /** The records of the file. */
  ghost predicate HasRecords(file: seq<u8>) {
    && |file| == FILE_SIZE && !Is64(file)
    && HasRecord(file, 0, HEADER)
    && HasRecord(file, 52, NULL_SYMBOL) && HasRecord(file, 68, SYMBOL_A)
    && HasRecord(file, 104, NULL_SECTION) && HasRecord(file, 144, SYMTAB_SECTION)
    && HasRecord(file, 184, STRTAB_SECTION)
  }

  lemma {:induction false} FileHasRecords()
    ensures HasRecords(ObjectFile())
    ensures ObjectFile()[STRINGS_AT..STRINGS_AT + 20] == Strings()
  {
    var h, n, a, s := Flat(HEADER), Flat(NULL_SYMBOL), Flat(SYMBOL_A), Strings();
    var x, y, z := Flat(NULL_SECTION), Flat(SYMTAB_SECTION), Flat(STRTAB_SECTION);
    SevenParts(h, n, a, s, x, y, z);
    ClassByte(h);
  }

  lemma {:induction false} ClassByte(h: seq<u8>)
    requires h == Flat(HEADER)
    ensures h[4] == 1
  {
    WordOfFlat(HEADER, 1);
    assert h[4] == h[4 * 1..4 * 1 + 4][0];
  }

  lemma SevenParts(
      a: seq<u8>, b: seq<u8>, c: seq<u8>, d: seq<u8>, e: seq<u8>, f: seq<u8>, g: seq<u8>)
    requires |a| == 52 && |b| == 16 && |c| == 16 && |d| == 20 && |e| == 40 && |f| == 40 && |g| == 40
    ensures var file := a + b + c + d + e + f + g;
            && |file| == 224 && file[4] == a[4]
            && file[0..52] == a && file[52..68] == b && file[68..84] == c && file[84..104] == d
            && file[104..144] == e && file[144..184] == f && file[184..224] == g
  {
    Placed([], a, b + c + d + e + f + g);
    Placed(a, b, c + d + e + f + g);
    Placed(a + b, c, d + e + f + g);
    Placed(a + b + c, d, e + f + g);
    Placed(a + b + c + d, e, f + g);
    Placed(a + b + c + d + e, f, g);
    Placed(a + b + c + d + e + f, g, []);
  }

  ghost predicate HeaderWords(file: seq<u8>) {
    WordIs(file, 32, SECTIONS_AT) && WordIs(file, 48, 0x2_0003)
  }

  ghost predicate SymbolWords(file: seq<u8>) {
    WordIs(file, 52, 0) && WordIs(file, 68, 17) && WordIs(file, 76, 4)
  }

  ghost predicate SectionWords(file: seq<u8>) {
    && WordIs(file, 104, 0)
    && WordIs(file, 144, 1) && WordIs(file, 160, SYMBOLS_AT) && WordIs(file, 164, 32)
    && WordIs(file, 184, 9) && WordIs(file, 200, STRINGS_AT)
  }

  /** The words that decide what is read. */
  ghost predicate HasWords(file: seq<u8>) {
    |file| == FILE_SIZE && !Is64(file) && HeaderWords(file) && SymbolWords(file) && SectionWords(file)
  }

  lemma {:induction false} HeaderWordsOf(file: seq<u8>)
    requires HasRecord(file, 0, HEADER)
    ensures HeaderWords(file)
  {
    WordOfRecord(file, 0, HEADER, 8);
    WordOfRecord(file, 0, HEADER, 12);
  }

  lemma {:induction false} SymbolWordsOf(file: seq<u8>)
    requires HasRecord(file, 52, NULL_SYMBOL) && HasRecord(file, 68, SYMBOL_A)
    ensures SymbolWords(file)
  {
    WordOfRecord(file, 52, NULL_SYMBOL, 0);
    WordOfRecord(file, 68, SYMBOL_A, 0);
    WordOfRecord(file, 68, SYMBOL_A, 2);
  }

  lemma {:induction false} SymtabWordsOf(file: seq<u8>)
    requires HasRecord(file, 144, SYMTAB_SECTION)
    ensures WordIs(file, 144, 1) && WordIs(file, 160, SYMBOLS_AT) && WordIs(file, 164, 32)
  {
    WordOfRecord(file, 144, SYMTAB_SECTION, 0);
    WordOfRecord(file, 144, SYMTAB_SECTION, 4);
    WordOfRecord(file, 144, SYMTAB_SECTION, 5);
  }

  lemma {:induction false} SectionWordsOf(file: seq<u8>)
    requires HasRecord(file, 104, NULL_SECTION) && HasRecord(file, 144, SYMTAB_SECTION)
    requires HasRecord(file, 184, STRTAB_SECTION)
    ensures SectionWords(file)
  {
    WordOfRecord(file, 104, NULL_SECTION, 0);
    SymtabWordsOf(file);
    WordOfRecord(file, 184, STRTAB_SECTION, 0);
    WordOfRecord(file, 184, STRTAB_SECTION, 4);
  }

  lemma {:induction false} FileHasWords()
    ensures HasWords(ObjectFile())
    ensures ObjectFile()[STRINGS_AT..STRINGS_AT + 20] == Strings()
  {
    FileHasRecords();
    HeaderWordsOf(ObjectFile());
    SymbolWordsOf(ObjectFile());
    SectionWordsOf(ObjectFile());
  }

  // ---------------------------------------------------------------- records of the file

  lemma {:induction false} WordIn(file: seq<u8>, at: nat, size: nat, from: nat, value: int)
    requires at + size <= |file| && from + 4 <= size && WordIs(file, at + from, value)
    ensures U32At(file[at..at + size], from) == value
  {
    Inside(file, at, size, from, 4);
  }

  /** Two 16-bit fields that make up a word. */
  lemma {:induction false} HalvesIn(file: seq<u8>, at: nat, size: nat, from: nat, low: nat, high: nat)
    requires at + size <= |file| && from + 4 <= size && WordIs(file, at + from, low + 0x1_0000 * high)
    requires low < 0x1_0000
    ensures U16At(file[at..at + size], from) == low && U16At(file[at..at + size], from + 2) == high
  {
    Inside(file, at, size, from, 2);
    Inside(file, at, size, from + 2, 2);
    WordAt(file, at + from);
    TwoBytes(file[at + from..at + from + 2]);
    TwoBytes(file[at + from + 2..at + from + 2 + 2]);
    TwoBytesBound(file[at + from], file[at + from + 1]);
    TwoBytesBound(file[at + from + 2], file[at + from + 3]);
    Halves(Bytes4(file[at + from], file[at + from + 1], 0, 0),
           Bytes4(file[at + from + 2], file[at + from + 3], 0, 0), low, high);
  }

  lemma TwoBytesBound(a: u8, b: u8)
    ensures 0 <= Bytes4(a, b, 0, 0) < 0x1_0000
  {}

  lemma Halves(a: nat, b: nat, low: nat, high: nat)
    requires a + 0x1_0000 * b == low + 0x1_0000 * high && a < 0x1_0000 && low < 0x1_0000
    ensures a == low && b == high
  {}

  lemma {:induction false} HeaderIs(file: seq<u8>)
    requires HasWords(file)
    ensures Header(file).shoff == SECTIONS_AT && Header(file).shnum == 3 && Header(file).shstrndx == 2
  {
    assert file[..52] == file[0..0 + 52];
    WordIn(file, 0, 52, 32, SECTIONS_AT);
    HalvesIn(file, 0, 52, 48, 3, 2);
  }

  lemma {:induction false} SectionIs(file: seq<u8>, at: nat, nameOffset: int, offset: int)
    requires !Is64(file) && at + 40 <= |file|
    requires WordIs(file, at, nameOffset) && WordIs(file, at + 16, offset)
    ensures SectionAt(file, at).nameOffset == nameOffset && SectionAt(file, at).offset == offset
  {
    WordIn(file, at, 40, 0, nameOffset);
    WordIn(file, at, 40, 16, offset);
  }

  ghost predicate SectionsAre(sections: seq<Section>) {
    && |sections| == 3
    && sections[0].nameOffset == 0
    && sections[1].nameOffset == 1 && sections[1].offset == SYMBOLS_AT && sections[1].size == 32
    && sections[2].nameOffset == 9 && sections[2].offset == STRINGS_AT
  }

  lemma {:induction false} SectionNumber(file: seq<u8>, i: nat)
    requires !Is64(file) && Header(file).shoff == SECTIONS_AT && i < Header(file).shnum
    ensures UnnamedSections(file)[i] == SectionAt(file, SECTIONS_AT + 40 * i)
  {}

  lemma {:induction false} UnnamedSectionsAre(file: seq<u8>)
    requires HasWords(file)
    ensures SectionsAre(UnnamedSections(file))
  {
    HeaderIs(file);
    WordIn(file, 104, 40, 0, 0);
    SectionIs(file, 144, 1, SYMBOLS_AT);
    WordIn(file, 144, 40, 20, 32);
    SectionIs(file, 184, 9, STRINGS_AT);
    SectionNumber(file, 0);
    SectionNumber(file, 1);
    SectionNumber(file, 2);
  }

  // ---------------------------------------------------------------- strings

  lemma {:induction false} StringIs(file: seq<u8>, at: nat, s: Str)
    requires at + |s| < |file| && file[at..at + |s|] == s && file[at + |s|] == 0 && NulFree(s)
    ensures HasString(file, at) && StringAt(file, at) == s
  {
    forall k | at <= k < at + |s|
      ensures file[k] != 0
    {
      assert s[k - at] == file[k];
    }
    assert NulAfter(file, at, |s|);
    OneNul(file, at, |s|);
  }

  ghost predicate HasStrings(file: seq<u8>) {
    && HasString(file, STRINGS_AT) && StringAt(file, STRINGS_AT) == []
    && HasString(file, STRINGS_AT + 1) && StringAt(file, STRINGS_AT + 1) == SYMTAB
    && HasString(file, STRINGS_AT + 9) && StringAt(file, STRINGS_AT + 9) == STRTAB
    && HasString(file, STRINGS_AT + 4) && StringAt(file, STRINGS_AT + 4) == NAME_MTAB
    && HasString(file, STRINGS_AT + 17) && StringAt(file, STRINGS_AT + 17) == NAME_A
  }

  /** A string of the table, by its place there. */
  lemma {:induction false} StringOfTable(file: seq<u8>, from: nat, s: Str)
    requires |file| == FILE_SIZE && file[STRINGS_AT..STRINGS_AT + 20] == Strings()
    requires from + |s| < 20 && Strings()[from..from + |s|] == s && Strings()[from + |s|] == 0 && NulFree(s)
    ensures HasString(file, STRINGS_AT + from) && StringAt(file, STRINGS_AT + from) == s
  {
    Inside(file, STRINGS_AT, 20, from, |s|);
    assert file[STRINGS_AT + from + |s|] == file[STRINGS_AT..STRINGS_AT + 20][from + |s|];
    StringIs(file, STRINGS_AT + from, s);
  }

  lemma {:induction false} StringsAre(file: seq<u8>)
    requires |file| == FILE_SIZE && file[STRINGS_AT..STRINGS_AT + 20] == Strings()
    ensures HasStrings(file)
  {
    assert Strings()[4..8] == NAME_MTAB;
    StringOfTable(file, 0, []);
    StringOfTable(file, 1, SYMTAB);
    StringOfTable(file, 9, STRTAB);
    StringOfTable(file, 4, NAME_MTAB);
    StringOfTable(file, 17, NAME_A);
  }

  // ---------------------------------------------------------------- what is read

  ghost predicate NamesAre(sections: seq<Section>) {
    SectionsAre(sections) && sections[0].name == [] && sections[1].name == SYMTAB && sections[2].name == STRTAB
  }

  lemma {:induction false} NamedSectionsAre(file: seq<u8>, unnamed: seq<Section>)
    requires HasStrings(file) && SectionsAre(unnamed)
    ensures NamesOk(file, 2, unnamed) && NamesAre(Named(file, 2, unnamed))
  {
    forall i | 0 <= i < |unnamed|
      ensures HasString(file, unnamed[2].offset + unnamed[i].nameOffset)
    {
      assert i == 0 || i == 1 || i == 2;
    }
    var named := Named(file, 2, unnamed);
    assert named[0] == NamedSection(file, 2, unnamed, 0);
    assert named[1] == NamedSection(file, 2, unnamed, 1);
    assert named[2] == NamedSection(file, 2, unnamed, 2);
  }

  lemma {:induction false} TablesAre(sections: seq<Section>, symtab: nat, strtab: nat)
    requires NamesAre(sections)
    requires IsLastNamed(sections, SYMTAB, symtab) && IsFirstNamed(sections, STRTAB, strtab)
    ensures symtab == 1 && strtab == 2
  {
    assert SYMTAB[2] != STRTAB[2];
  }

  /** The records at 52 and 76, which is where the second is looked for. */
  lemma {:induction false} SymbolsReadAre(file: seq<u8>)
    requires HasWords(file)
    ensures SymbolAt(file, SYMBOLS_AT).nameOffset == 0
    ensures SymbolAt(file, SYMBOLS_AT).size != 0 && SymbolAt(file, SYMBOLS_AT).name == []
    ensures SymbolAt(file, SYMBOLS_AT + SYM_SIZE).nameOffset == 4
  {
    FieldsOf64(file, 52);
    FieldsOf64(file, 76);
    LongWord(file[68..68 + 8]);
    assert file[68..68 + 8][..4] == file[68..68 + 4];
  }

  /** The second record is at 68. */
  lemma {:induction false} TheSymbolIsA(file: seq<u8>)
    requires HasWords(file) && HasStrings(file)
    ensures SymbolAt32(file, SYMBOLS_AT + SYM_SIZE_32).nameOffset == 17
    ensures StringAt(file, STRINGS_AT + 17) == NAME_A
  {
    FieldsOf32(file, 68);
  }

  ghost predicate ReadWrong(symbols: seq<ElfSymbol>) {
    |symbols| == 2 && symbols[0].size != 0 && symbols[0].name == [] && symbols[1].name == NAME_MTAB
  }

  lemma {:induction false} UnnamedAre(file: seq<u8>)
    requires !Is64(file)
    ensures UnnamedSymbols(file, SYMBOLS_AT, 32) == [SymbolAt(file, 52), SymbolAt(file, 76)]
  {
    assert SymbolCount(file, 32) == 2;
  }

  lemma {:induction false} NamedAre(file: seq<u8>, unnamed: seq<ElfSymbol>)
    requires HasStrings(file) && |unnamed| == 2
    requires unnamed[0].nameOffset == 0 && unnamed[0].size != 0 && unnamed[0].name == []
    requires unnamed[1].nameOffset == 4
    ensures SymbolNamesOk(file, unnamed, STRINGS_AT) && ReadWrong(NamedSymbols(file, unnamed, STRINGS_AT))
  {
    var named := NamedSymbols(file, unnamed, STRINGS_AT);
    assert named[0] == NamedSymbol(file, unnamed[0], STRINGS_AT);
    assert named[1] == NamedSymbol(file, unnamed[1], STRINGS_AT);
  }

  lemma {:induction false} TableIs(file: seq<u8>, sections: seq<Section>)
    requires HasWords(file) && HasStrings(file) && NamesAre(sections)
    ensures SymbolNamesOk(file, UnnamedSymbols(file, SYMBOLS_AT, 32), STRINGS_AT)
    ensures ReadWrong(SymbolTable(file, sections, SYMBOLS_AT, 32, 2))
  {
    SymbolsReadAre(file);
    UnnamedAre(file);
    NamedAre(file, UnnamedSymbols(file, SYMBOLS_AT, 32));
  }

  lemma {:induction false} AllNamesOk(file: seq<u8>, sections: seq<Section>)
    requires HasWords(file) && HasStrings(file) && NamesAre(sections)
    ensures AllSymbolNamesOk(file, sections)
  {
    forall symtab: nat, strtab: nat |
      symtab < |sections| && strtab < |sections|
      && IsLastNamed(sections, SYMTAB, symtab) && IsFirstNamed(sections, STRTAB, strtab)
      ensures SymbolNamesOk(file, UnnamedSymbols(file, sections[symtab].offset, sections[symtab].size),
                            sections[strtab].offset)
    {
      TablesAre(sections, symtab, strtab);
      TableIs(file, sections);
    }
  }

  lemma {:induction false} SymbolsParsedAre(file: seq<u8>, sections: seq<Section>, symbols: seq<ElfSymbol>)
    requires HasWords(file) && HasStrings(file) && NamesAre(sections) && AreSymbolsOf(file, sections, symbols)
    ensures ReadWrong(symbols)
  {
    var symtab: nat, strtab: nat :|
      IsLastNamed(sections, SYMTAB, symtab) && IsFirstNamed(sections, STRTAB, strtab)
      && symbols == SymbolsIn(file, sections, symtab, strtab);
    TablesAre(sections, symtab, strtab);
    TableIs(file, sections);
  }

  lemma {:induction false} ReadyToParse(file: seq<u8>)
    requires HasWords(file) && HasStrings(file)
    ensures SectionNamesOk(file) && NamesAre(Sections(file)) && AllSymbolNamesOk(file, Sections(file))
  {
    HeaderIs(file);
    UnnamedSectionsAre(file);
    NamedSectionsAre(file, UnnamedSections(file));
    AllNamesOk(file, Sections(file));
  }

  /** Such a file is parsed without its one symbol a: a symbol called mtab is read instead, and the null
      symbol has a size. */
  method ParseAny(file: seq<u8>) returns (elf: ElfEx)
    requires HasWords(file) && HasStrings(file)
    ensures !elf.is64Bit
    ensures ReadWrong(elf.symbols)
  {
    var reader := new Reader(file);
    elf := new ElfEx();
    ReadyToParse(file);
    elf.Parse(reader);
    SymbolsParsedAre(file, elf.sections, elf.symbols);
  }

  method ParseObjectFile() returns (elf: ElfEx)
    ensures SymbolAt32(ObjectFile(), SYMBOLS_AT + SYM_SIZE_32).nameOffset == 17
    ensures HasString(ObjectFile(), STRINGS_AT + 17) && StringAt(ObjectFile(), STRINGS_AT + 17) == NAME_A
    ensures ReadWrong(elf.symbols)
  {
    var file := ObjectFile();
    FileHasWords();
    StringsAre(file);
    TheSymbolIsA(file);
    elf := ParseAny(file);
  }
}
