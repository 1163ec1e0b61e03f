/** The headers, sections and symbols of a little-endian ELF file, by position
    (Components/ElfProcessor/ELF.h). */
module ElfRecords {
  import opened Symbols
  import opened Bytes

  type u16 = x: int | 0 <= x < 0x1_0000

  datatype ElfHeader = ElfHeader(
    kind: u16, machine: u16, version: u32, entry: u64, phoff: u64, shoff: u64, flags: u32, ehsize: u16,
    phentsize: u16, phnum: u16, shentsize: u16, shnum: u16, shstrndx: u16)

  datatype ProgramHeader = ProgramHeader(
    kind: u32, offset: u64, vaddr: u64, paddr: u64, filesz: u64, memsz: u64, flags: u32, align: u64)

  datatype Section = Section(
    nameOffset: u32, kind: u32, flags: u64, addr: u64, offset: u64, size: u64, link: u32, info: u32,
    addralign: u64, entsize: u64, name: Str)

  datatype ElfSymbol = ElfSymbol(
    nameOffset: u32, info: u8, other: u8, shndx: u16, value: u64, size: u64, name: Str)

  // System V gABI, chapters 4 and 5: the sizes of the records in files of either class.

  function HeaderSize(is64: bool): nat {
    if is64 then 64 else 52
  }

  function ProgramHeaderSize(is64: bool): nat {
    if is64 then 56 else 32
  }

  function SectionSize(is64: bool): nat {
    if is64 then 64 else 40
  }

  function SymbolSize(is64: bool): nat {
    if is64 then 24 else 16
  }

  /** The size of the records that are read as symbols, whatever the class. */
  const SYM_SIZE := 24
  const ELFCLASS64: u8 := 2

  const SYMTAB: Str := [0x2e, 0x73, 0x79, 0x6d, 0x74, 0x61, 0x62]
  const STRTAB: Str := [0x2e, 0x73, 0x74, 0x72, 0x74, 0x61, 0x62]

  // ---------------------------------------------------------------- records from their bytes

  function U16At(b: seq<u8>, at: nat): u16
    requires at + 2 <= |b|
  {
    WordBounds(b[at..at + 2]);
    FromLittleEndian(b[at..at + 2])
  }

  function U32At(b: seq<u8>, at: nat): u32
    requires at + 4 <= |b|
  {
    WordBounds(b[at..at + 4]);
    FromLittleEndian(b[at..at + 4])
  }

  function U64At(b: seq<u8>, at: nat): u64
    requires at + 8 <= |b|
  {
    WordBounds(b[at..at + 8]);
    FromLittleEndian(b[at..at + 8])
  }

  lemma WordBounds(b: seq<u8>)
    ensures |b| == 2 ==> FromLittleEndian(b) < 0x1_0000
    ensures |b| == 4 ==> FromLittleEndian(b) < 0x1_0000_0000
    ensures |b| == 8 ==> FromLittleEndian(b) < 0x1_0000_0000_0000_0000
  {
    PowersOf256();
    FromLittleEndianBound(b);
  }

  function HeaderFrom(b: seq<u8>, is64: bool): ElfHeader
    requires |b| == HeaderSize(is64)
  {
    if is64 then
      ElfHeader(U16At(b, 16), U16At(b, 18), U32At(b, 20), U64At(b, 24), U64At(b, 32), U64At(b, 40), U32At(b, 48),
                U16At(b, 52), U16At(b, 54), U16At(b, 56), U16At(b, 58), U16At(b, 60), U16At(b, 62))
    else
      ElfHeader(U16At(b, 16), U16At(b, 18), U32At(b, 20), U32At(b, 24), U32At(b, 28), U32At(b, 32), U32At(b, 36),
                U16At(b, 40), U16At(b, 42), U16At(b, 44), U16At(b, 46), U16At(b, 48), U16At(b, 50))
  }

  function ProgramHeaderFrom(b: seq<u8>, is64: bool): ProgramHeader
    requires |b| == ProgramHeaderSize(is64)
  {
    if is64 then
      ProgramHeader(U32At(b, 0), U64At(b, 8), U64At(b, 16), U64At(b, 24), U64At(b, 32), U64At(b, 40), U32At(b, 4),
                    U64At(b, 48))
    else
      ProgramHeader(U32At(b, 0), U32At(b, 4), U32At(b, 8), U32At(b, 12), U32At(b, 16), U32At(b, 20), U32At(b, 24),
                    U32At(b, 28))
  }

  function SectionFrom(b: seq<u8>, is64: bool): Section
    requires |b| == SectionSize(is64)
  {
    if is64 then
      Section(U32At(b, 0), U32At(b, 4), U64At(b, 8), U64At(b, 16), U64At(b, 24), U64At(b, 32), U32At(b, 40),
              U32At(b, 44), U64At(b, 48), U64At(b, 56), [])
    else
      Section(U32At(b, 0), U32At(b, 4), U32At(b, 8), U32At(b, 12), U32At(b, 16), U32At(b, 20), U32At(b, 24),
              U32At(b, 28), U32At(b, 32), U32At(b, 36), [])
  }

  /** The layout of a 64-bit file's symbols. */
  function SymbolFrom(b: seq<u8>): ElfSymbol
    requires |b| == SYM_SIZE
  {
    ElfSymbol(U32At(b, 0), b[4], b[5], U16At(b, 6), U64At(b, 8), U64At(b, 16), [])
  }

  const NO_HEADER := ElfHeader(0, 0, 0, 0, 0, 0, 0, 0, 0, 0, 0, 0, 0)
  const NO_PROGRAM_HEADER := ProgramHeader(0, 0, 0, 0, 0, 0, 0, 0)
  const NO_SECTION := Section(0, 0, 0, 0, 0, 0, 0, 0, 0, 0, [])
  const NO_SYMBOL := ElfSymbol(0, 0, 0, 0, 0, 0, [])

  // ---------------------------------------------------------------- the file, by position

  // A record that is not wholly inside the file reads as zeros.

  /** Byte 4 tells the class; every class but one is read as 32-bit. */
  predicate Is64(file: seq<u8>) {
    |file| > 4 && file[4] == ELFCLASS64
  }

  function Header(file: seq<u8>): ElfHeader {
    var size := HeaderSize(Is64(file));
    if size <= |file| then HeaderFrom(file[0..size], Is64(file)) else NO_HEADER
  }

  function ProgramHeaderAt(file: seq<u8>, at: nat): ProgramHeader {
    var size := ProgramHeaderSize(Is64(file));
    if at + size <= |file| then ProgramHeaderFrom(file[at..at + size], Is64(file)) else NO_PROGRAM_HEADER
  }

  function SectionAt(file: seq<u8>, at: nat): Section {
    var size := SectionSize(Is64(file));
    if at + size <= |file| then SectionFrom(file[at..at + size], Is64(file)) else NO_SECTION
  }

  function SymbolAt(file: seq<u8>, at: nat): ElfSymbol {
    if at + SYM_SIZE <= |file| then SymbolFrom(file[at..at + SYM_SIZE]) else NO_SYMBOL
  }

  /** The first NUL at or after `at` comes after `length` bytes. */
  predicate NulAfter(file: seq<u8>, at: nat, length: nat) {
    at + length < |file| && file[at + length] == 0 && forall k :: at <= k < at + length ==> file[k] != 0
  }

  /** There is a NUL-terminated string at this offset. */
  ghost predicate HasString(file: seq<u8>, at: nat) {
    exists length: nat :: NulAfter(file, at, length)
  }

  ghost function StringAt(file: seq<u8>, at: nat): Str
    requires HasString(file, at)
  {
    var length: nat :| NulAfter(file, at, length);
    file[at..at + length]
  }

  lemma NoEarlierNul(file: seq<u8>, at: nat, length: nat, other: nat)
    requires NulAfter(file, at, length) && NulAfter(file, at, other)
    ensures length <= other
  {}

  lemma OneNul(file: seq<u8>, at: nat, length: nat)
    requires NulAfter(file, at, length)
    ensures forall other: nat :: NulAfter(file, at, other) ==> other == length
  {
    forall other: nat | NulAfter(file, at, other)
      ensures other == length
    {
      NoEarlierNul(file, at, length, other);
      NoEarlierNul(file, at, other, length);
    }
  }

  lemma StringIsUpToNul(file: seq<u8>, at: nat)
    requires HasString(file, at)
    ensures at < |file| && UpToNul(file[at..]) == Some(StringAt(file, at))
  {
    var length: nat :| NulAfter(file, at, length);
    OneNul(file, at, length);
    var s := file[at..at + length];
    assert file[at..] == s + [0] + file[at + length + 1..];
    UpToNulOfString(s, file[at + length + 1..]);
  }

  function UnnamedSection(file: seq<u8>, i: nat): Section {
    SectionAt(file, Header(file).shoff + SectionSize(Is64(file)) * i)
  }

  function UnnamedSections(file: seq<u8>): seq<Section> {
    seq(Header(file).shnum, i requires 0 <= i < Header(file).shnum => UnnamedSection(file, i))
  }

  /** Every section's name can be read from the section string table, which is section ndx. */
  ghost predicate NamesOk(file: seq<u8>, ndx: nat, unnamed: seq<Section>) {
    || ndx == 0 || unnamed == []
    || (ndx < |unnamed|
        && forall i :: 0 <= i < |unnamed| ==> HasString(file, unnamed[ndx].offset + unnamed[i].nameOffset))
  }

  function WithName(s: Section, name: Str): Section {
    s.(name := name)
  }

  ghost function NamedSection(file: seq<u8>, ndx: nat, unnamed: seq<Section>, i: nat): Section
    requires NamesOk(file, ndx, unnamed) && i < |unnamed|
  {
    WithName(unnamed[i], if ndx == 0 then [] else StringAt(file, unnamed[ndx].offset + unnamed[i].nameOffset))
  }

  /** The sections with the names their headers point to. Index 0 means that there are no names. */
  ghost function Named(file: seq<u8>, ndx: nat, unnamed: seq<Section>): seq<Section>
    requires NamesOk(file, ndx, unnamed)
  {
    seq(|unnamed|, i requires 0 <= i < |unnamed| => NamedSection(file, ndx, unnamed, i))
  }

  ghost predicate SectionNamesOk(file: seq<u8>) {
    NamesOk(file, Header(file).shstrndx, UnnamedSections(file))
  }

  ghost function Sections(file: seq<u8>): seq<Section>
    requires SectionNamesOk(file)
  {
    Named(file, Header(file).shstrndx, UnnamedSections(file))
  }

  /** i is the last section with the name, or |sections| if there is none. */
  predicate IsLastNamed(sections: seq<Section>, name: Str, i: nat) {
    && i <= |sections|
    && (i < |sections| ==> sections[i].name == name)
    && (if i < |sections| then forall k :: i < k < |sections| ==> sections[k].name != name
        else forall k :: 0 <= k < |sections| ==> sections[k].name != name)
  }

  /** i is the first section with the name, or |sections| if there is none. */
  predicate IsFirstNamed(sections: seq<Section>, name: Str, i: nat) {
    && i <= |sections|
    && (i < |sections| ==> sections[i].name == name)
    && (forall k :: 0 <= k < i ==> sections[k].name != name)
  }

  function SymbolCount(file: seq<u8>, size: nat): nat {
    size / SymbolSize(Is64(file))
  }

  /** As many symbols as a table of this size has in a file of the class, but each read as a 64-bit
      file's record: of a 32-bit file these are not its symbols. */
  function UnnamedSymbols(file: seq<u8>, offset: nat, size: nat): seq<ElfSymbol> {
    seq(SymbolCount(file, size), i requires 0 <= i < SymbolCount(file, size) =>
      SymbolAt(file, offset + SYM_SIZE * i))
  }

  // ---------------------------------------------------------------- names of symbols

  ghost predicate SymbolNamesOk(file: seq<u8>, symbols: seq<ElfSymbol>, strtab: nat) {
    forall i :: 0 <= i < |symbols| && symbols[i].nameOffset != 0 ==> HasString(file, strtab + symbols[i].nameOffset)
  }

  function WithSymbolName(s: ElfSymbol, name: Str): ElfSymbol {
    s.(name := name)
  }

  /** A symbol with its name from the string table at strtab. Offset 0 means no name. */
  ghost function NamedSymbol(file: seq<u8>, symbol: ElfSymbol, strtab: nat): ElfSymbol
    requires symbol.nameOffset != 0 ==> HasString(file, strtab + symbol.nameOffset)
  {
    if symbol.nameOffset == 0 then symbol
    else WithSymbolName(symbol, StringAt(file, strtab + symbol.nameOffset))
  }

  ghost function NamedSymbols(file: seq<u8>, symbols: seq<ElfSymbol>, strtab: nat): seq<ElfSymbol>
    requires SymbolNamesOk(file, symbols, strtab)
  {
    seq(|symbols|, i requires 0 <= i < |symbols| => NamedSymbol(file, symbols[i], strtab))
  }

  /** symbols are those read from the file: as many as the last .symtab has, named from the first
      .strtab if there is one. */
  ghost predicate AreSymbolsOf(file: seq<u8>, sections: seq<Section>, symbols: seq<ElfSymbol>) {
    exists symtab: nat, strtab: nat ::
      IsLastNamed(sections, SYMTAB, symtab) && IsFirstNamed(sections, STRTAB, strtab)
      && symbols == SymbolsIn(file, sections, symtab, strtab)
  }

  ghost function SymbolsIn(file: seq<u8>, sections: seq<Section>, symtab: nat, strtab: nat): seq<ElfSymbol> {
    if symtab >= |sections| then []
    else SymbolTable(file, sections, sections[symtab].offset, sections[symtab].size, strtab)
  }

  /** The symbols of the table at this offset, with names if there are any. */
  ghost function SymbolTable(
      file: seq<u8>, sections: seq<Section>, offset: nat, size: nat, strtab: nat): seq<ElfSymbol>
  {
    var unnamed := UnnamedSymbols(file, offset, size);
    if strtab < |sections| && SymbolNamesOk(file, unnamed, sections[strtab].offset)
    then NamedSymbols(file, unnamed, sections[strtab].offset)
    else unnamed
  }

  /** Every symbol's name can be read. */
  ghost predicate AllSymbolNamesOk(file: seq<u8>, sections: seq<Section>) {
    forall symtab: nat, strtab: nat ::
      symtab < |sections| && strtab < |sections|
      && IsLastNamed(sections, SYMTAB, symtab) && IsFirstNamed(sections, STRTAB, strtab)
      ==> SymbolNamesOk(file, UnnamedSymbols(file, sections[symtab].offset, sections[symtab].size),
                        sections[strtab].offset)
  }

  // ---------------------------------------------------------------- said of the file's bytes

  predicate HeaderShown(file: seq<u8>, h: ElfHeader) {
    if |file| < (if Is64(file) then 64 else 52) then h == ElfHeader(0, 0, 0, 0, 0, 0, 0, 0, 0, 0, 0, 0, 0)
    else PlacesShown(file, h) && CountsShown(file, h)
  }

  predicate PlacesShown(file: seq<u8>, h: ElfHeader)
    requires |file| >= if Is64(file) then 64 else 52
  {
    && h.kind == Int16(file, 16) && h.machine == Int16(file, 18) && h.version == Int32(file, 20)
    && if Is64(file) then
         && h.entry == Int64(file, 24) && h.phoff == Int64(file, 32) && h.shoff == Int64(file, 40)
         && h.flags == Int32(file, 48)
       else
         && h.entry == Int32(file, 24) && h.phoff == Int32(file, 28) && h.shoff == Int32(file, 32)
         && h.flags == Int32(file, 36)
  }

  predicate CountsShown(file: seq<u8>, h: ElfHeader)
    requires |file| >= if Is64(file) then 64 else 52
  {
    if Is64(file) then
      && h.ehsize == Int16(file, 52) && h.phentsize == Int16(file, 54) && h.phnum == Int16(file, 56)
      && h.shentsize == Int16(file, 58) && h.shnum == Int16(file, 60) && h.shstrndx == Int16(file, 62)
    else
      && h.ehsize == Int16(file, 40) && h.phentsize == Int16(file, 42) && h.phnum == Int16(file, 44)
      && h.shentsize == Int16(file, 46) && h.shnum == Int16(file, 48) && h.shstrndx == Int16(file, 50)
  }

  predicate ProgramHeaderShown(file: seq<u8>, at: nat, p: ProgramHeader) {
    if at + (if Is64(file) then 56 else 32) > |file| then p == ProgramHeader(0, 0, 0, 0, 0, 0, 0, 0)
    else if Is64(file) then
      && p.kind == Int32(file, at) && p.flags == Int32(file, at + 4) && p.offset == Int64(file, at + 8)
      && p.vaddr == Int64(file, at + 16) && p.paddr == Int64(file, at + 24) && p.filesz == Int64(file, at + 32)
      && p.memsz == Int64(file, at + 40) && p.align == Int64(file, at + 48)
    else
      && p.kind == Int32(file, at) && p.offset == Int32(file, at + 4) && p.vaddr == Int32(file, at + 8)
      && p.paddr == Int32(file, at + 12) && p.filesz == Int32(file, at + 16) && p.memsz == Int32(file, at + 20)
      && p.flags == Int32(file, at + 24) && p.align == Int32(file, at + 28)
  }

  /** All of a section but its name. */
  predicate SectionShown(file: seq<u8>, at: nat, s: Section) {
    if at + (if Is64(file) then 64 else 40) > |file| then s == Section(0, 0, 0, 0, 0, 0, 0, 0, 0, 0, s.name)
    else if Is64(file) then
      && s.nameOffset == Int32(file, at) && s.kind == Int32(file, at + 4) && s.flags == Int64(file, at + 8)
      && s.addr == Int64(file, at + 16) && s.offset == Int64(file, at + 24) && s.size == Int64(file, at + 32)
      && s.link == Int32(file, at + 40) && s.info == Int32(file, at + 44) && s.addralign == Int64(file, at + 48)
      && s.entsize == Int64(file, at + 56)
    else
      && s.nameOffset == Int32(file, at) && s.kind == Int32(file, at + 4) && s.flags == Int32(file, at + 8)
      && s.addr == Int32(file, at + 12) && s.offset == Int32(file, at + 16) && s.size == Int32(file, at + 20)
      && s.link == Int32(file, at + 24) && s.info == Int32(file, at + 28) && s.addralign == Int32(file, at + 32)
      && s.entsize == Int32(file, at + 36)
  }

  /** All of a symbol but its name; the layout is that of 64-bit files. */
  predicate SymbolShown(file: seq<u8>, at: nat, s: ElfSymbol) {
    if at + 24 > |file| then s == ElfSymbol(0, 0, 0, 0, 0, 0, s.name)
    else
      && s.nameOffset == Int32(file, at) && s.info == file[at + 4] && s.other == file[at + 5]
      && s.shndx == Int16(file, at + 6) && s.value == Int64(file, at + 8) && s.size == Int64(file, at + 16)
  }

  lemma {:induction false} Word16(file: seq<u8>, at: nat, size: nat, k: nat)
    requires at + size <= |file| && k + 2 <= size
    ensures U16At(file[at..at + size], k) == Int16(file, at + k)
  {
    Inside(file, at, size, k, 2);
    TwoBytes(file[at + k..at + k + 2]);
  }

  lemma {:induction false} Word32(file: seq<u8>, at: nat, size: nat, k: nat)
    requires at + size <= |file| && k + 4 <= size
    ensures U32At(file[at..at + size], k) == Int32(file, at + k)
  {
    Inside(file, at, size, k, 4);
    FirstFour(file[at + k..at + k + 4]);
  }

  lemma {:induction false} Word64(file: seq<u8>, at: nat, size: nat, k: nat)
    requires at + size <= |file| && k + 8 <= size
    ensures U64At(file[at..at + size], k) == Int64(file, at + k)
  {
    var b := file[at + k..at + k + 8];
    Inside(file, at, size, k, 8);
    FirstFour(b);
    FirstFour(b[4..]);
  }

  lemma {:induction false} HeaderIsShown(file: seq<u8>)
    ensures HeaderShown(file, Header(file))
  {
    if Is64(file) && |file| >= 64 {
      Places64(file);
      Counts64(file);
    } else if !Is64(file) && |file| >= 52 {
      Places32(file);
      Counts32(file);
    }
  }

  lemma {:induction false} Places64(file: seq<u8>)
    requires Is64(file) && |file| >= 64
    ensures PlacesShown(file, Header(file))
  {
    Word16(file, 0, 64, 16);
    Word16(file, 0, 64, 18);
    Word32(file, 0, 64, 20);
    Word64(file, 0, 64, 24);
    Word64(file, 0, 64, 32);
    Word64(file, 0, 64, 40);
    Word32(file, 0, 64, 48);
  }

  lemma {:induction false} Counts64(file: seq<u8>)
    requires Is64(file) && |file| >= 64
    ensures CountsShown(file, Header(file))
  {
    Word16(file, 0, 64, 52);
    Word16(file, 0, 64, 54);
    Word16(file, 0, 64, 56);
    Word16(file, 0, 64, 58);
    Word16(file, 0, 64, 60);
    Word16(file, 0, 64, 62);
  }

  lemma {:induction false} Places32(file: seq<u8>)
    requires !Is64(file) && |file| >= 52
    ensures PlacesShown(file, Header(file))
  {
    Word16(file, 0, 52, 16);
    Word16(file, 0, 52, 18);
    Word32(file, 0, 52, 20);
    Word32(file, 0, 52, 24);
    Word32(file, 0, 52, 28);
    Word32(file, 0, 52, 32);
    Word32(file, 0, 52, 36);
  }

  lemma {:induction false} Counts32(file: seq<u8>)
    requires !Is64(file) && |file| >= 52
    ensures CountsShown(file, Header(file))
  {
    Word16(file, 0, 52, 40);
    Word16(file, 0, 52, 42);
    Word16(file, 0, 52, 44);
    Word16(file, 0, 52, 46);
    Word16(file, 0, 52, 48);
    Word16(file, 0, 52, 50);
  }

  lemma {:induction false} ProgramHeaderIsShown(file: seq<u8>, at: nat)
    ensures ProgramHeaderShown(file, at, ProgramHeaderAt(file, at))
  {
    if Is64(file) && at + 56 <= |file| {
      Word32(file, at, 56, 0);
      Word32(file, at, 56, 4);
      Word64(file, at, 56, 8);
      Word64(file, at, 56, 16);
      Word64(file, at, 56, 24);
      Word64(file, at, 56, 32);
      Word64(file, at, 56, 40);
      Word64(file, at, 56, 48);
    } else if !Is64(file) && at + 32 <= |file| {
      Word32(file, at, 32, 0);
      Word32(file, at, 32, 4);
      Word32(file, at, 32, 8);
      Word32(file, at, 32, 12);
      Word32(file, at, 32, 16);
      Word32(file, at, 32, 20);
      Word32(file, at, 32, 24);
      Word32(file, at, 32, 28);
    }
  }

  lemma {:induction false} SectionIsShown(file: seq<u8>, at: nat)
    ensures SectionShown(file, at, SectionAt(file, at)) && SectionAt(file, at).name == []
  {
    if Is64(file) && at + 64 <= |file| {
      Section64(file, at);
    } else if !Is64(file) && at + 40 <= |file| {
      Section32(file, at);
    }
  }

  lemma {:induction false} Section64(file: seq<u8>, at: nat)
    requires Is64(file) && at + 64 <= |file|
    ensures SectionShown(file, at, SectionAt(file, at))
  {
    Word32(file, at, 64, 0);
    Word32(file, at, 64, 4);
    Word64(file, at, 64, 8);
    Word64(file, at, 64, 16);
    Word64(file, at, 64, 24);
    Word64(file, at, 64, 32);
    Word32(file, at, 64, 40);
    Word32(file, at, 64, 44);
    Word64(file, at, 64, 48);
    Word64(file, at, 64, 56);
  }

  lemma {:induction false} Section32(file: seq<u8>, at: nat)
    requires !Is64(file) && at + 40 <= |file|
    ensures SectionShown(file, at, SectionAt(file, at))
  {
    Word32(file, at, 40, 0);
    Word32(file, at, 40, 4);
    Word32(file, at, 40, 8);
    Word32(file, at, 40, 12);
    Word32(file, at, 40, 16);
    Word32(file, at, 40, 20);
    Word32(file, at, 40, 24);
    Word32(file, at, 40, 28);
    Word32(file, at, 40, 32);
    Word32(file, at, 40, 36);
  }

  lemma {:induction false} SymbolIsShown(file: seq<u8>, at: nat)
    ensures SymbolShown(file, at, SymbolAt(file, at)) && SymbolAt(file, at).name == []
  {
    if at + 24 <= |file| {
      Word32(file, at, 24, 0);
      Word16(file, at, 24, 6);
      Word64(file, at, 24, 8);
      Word64(file, at, 24, 16);
    }
  }

  // ---------------------------------------------------------------- said of tables and names

  /** The records lie behind one another, each of this size. */
  ghost predicate Spaced<T>(
      shown: (seq<u8>, nat, T) -> bool, file: seq<u8>, start: nat, size: nat, records: seq<T>)
  {
    forall i :: 0 <= i < |records| ==> shown(file, start + size * i, records[i])
  }

  /** The bytes from `at` up to the first NUL. */
  ghost predicate CStringAt(file: seq<u8>, at: nat, s: Str) {
    TextAt(file, at, s) && NulFree(s)
  }

  /** The names are those in section ndx, or there are none if ndx is 0. */
  ghost predicate NamesShown(file: seq<u8>, ndx: nat, sections: seq<Section>) {
    forall i :: 0 <= i < |sections| ==>
      if ndx == 0 then sections[i].name == []
      else ndx < |sections| && CStringAt(file, sections[ndx].offset + sections[i].nameOffset, sections[i].name)
  }

  /** symbols are the 24-byte records of the table in this section, as many as a table of its size has in a
      file of the class, each with its name from the string table if there is one. */
  ghost predicate TableShown(
      file: seq<u8>, sections: seq<Section>, symtab: nat, strtab: nat, symbols: seq<ElfSymbol>)
    requires symtab < |sections|
  {
    && |symbols| == sections[symtab].size / (if Is64(file) then 24 else 16)
    && Spaced(SymbolShown, file, sections[symtab].offset, 24, symbols)
    && SymbolNamesShown(file, sections, strtab, symbols)
  }

  ghost predicate SymbolNamesShown(file: seq<u8>, sections: seq<Section>, strtab: nat, symbols: seq<ElfSymbol>) {
    forall i :: 0 <= i < |symbols| ==> SymbolNameShown(file, sections, strtab, symbols[i])
  }

  ghost predicate SymbolNameShown(file: seq<u8>, sections: seq<Section>, strtab: nat, symbol: ElfSymbol) {
    if strtab < |sections| && symbol.nameOffset != 0
    then CStringAt(file, sections[strtab].offset + symbol.nameOffset, symbol.name)
    else symbol.name == []
  }

  /** symbols come from the last section of the one name and the first of the other. */
  ghost predicate SymbolsShown(file: seq<u8>, sections: seq<Section>, symbols: seq<ElfSymbol>) {
    exists symtab: nat, strtab: nat ::
      && IsLastNamed(sections, Ascii(".symtab"), symtab) && IsFirstNamed(sections, Ascii(".strtab"), strtab)
      && if symtab == |sections| then symbols == [] else TableShown(file, sections, symtab, strtab, symbols)
  }

  function Ascii(s: string): Str {
    seq(|s|, i requires 0 <= i < |s| => s[i] as int % 0x80)
  }

  lemma NamesInAscii()
    ensures SYMTAB == Ascii(".symtab") && STRTAB == Ascii(".strtab")
  {}

  lemma {:induction false} StringIsThere(file: seq<u8>, at: nat)
    requires HasString(file, at)
    ensures CStringAt(file, at, StringAt(file, at))
  {
    var length: nat :| NulAfter(file, at, length);
    OneNul(file, at, length);
  }

  lemma {:induction false} SectionsAreShown(file: seq<u8>, size: nat)
    requires size == if Is64(file) then 64 else 40
    ensures Spaced(SectionShown, file, Header(file).shoff, size, UnnamedSections(file))
  {
    var shown, sections := SectionShown, UnnamedSections(file);
    forall i | 0 <= i < |sections|
      ensures shown(file, Header(file).shoff + size * i, sections[i])
    {
      SectionIsShown(file, Header(file).shoff + size * i);
    }
  }

  /** Naming a section leaves the rest of it. */
  lemma {:induction false} RenamedIsShown(file: seq<u8>, at: nat, s: Section, name: Str)
    requires SectionShown(file, at, s)
    ensures SectionShown(file, at, s.(name := name))
  {}

  lemma {:induction false} NamedAreShown(file: seq<u8>, ndx: nat, start: nat, size: nat, unnamed: seq<Section>)
    requires NamesOk(file, ndx, unnamed) && Spaced(SectionShown, file, start, size, unnamed)
    ensures Spaced(SectionShown, file, start, size, Named(file, ndx, unnamed))
  {
    var shown, named := SectionShown, Named(file, ndx, unnamed);
    forall i | 0 <= i < |named|
      ensures shown(file, start + size * i, named[i])
    {
      assert shown(file, start + size * i, unnamed[i]);
      RenamedIsShown(file, start + size * i, unnamed[i], named[i].name);
      assert named[i] == unnamed[i].(name := named[i].name);
    }
  }

  lemma {:induction false} NamesAreShown(file: seq<u8>, ndx: nat, unnamed: seq<Section>)
    requires NamesOk(file, ndx, unnamed)
    ensures NamesShown(file, ndx, Named(file, ndx, unnamed))
  {
    var named := Named(file, ndx, unnamed);
    forall i | 0 <= i < |named| && ndx != 0
      ensures ndx < |named| && CStringAt(file, named[ndx].offset + named[i].nameOffset, named[i].name)
    {
      StringIsThere(file, unnamed[ndx].offset + unnamed[i].nameOffset);
    }
  }

  lemma {:induction false} RenamedSymbolIsShown(file: seq<u8>, at: nat, s: ElfSymbol, name: Str)
    requires SymbolShown(file, at, s)
    ensures SymbolShown(file, at, s.(name := name))
  {}

  lemma {:induction false} NamedSymbolIsShown(file: seq<u8>, at: nat, read: ElfSymbol, strtab: nat)
    requires read == SymbolAt(file, at)
    requires read.nameOffset != 0 ==> HasString(file, strtab + read.nameOffset)
    ensures SymbolShown(file, at, NamedSymbol(file, read, strtab))
  {
    SymbolIsShown(file, at);
    if read.nameOffset != 0 {
      RenamedSymbolIsShown(file, at, read, StringAt(file, strtab + read.nameOffset));
    }
  }

  lemma {:induction false} SymbolIsNamed(file: seq<u8>, sections: seq<Section>, strtab: nat, read: ElfSymbol)
    requires read.name == [] && strtab < |sections|
    requires read.nameOffset != 0 ==> HasString(file, sections[strtab].offset + read.nameOffset)
    ensures SymbolNameShown(file, sections, strtab, NamedSymbol(file, read, sections[strtab].offset))
  {
    if read.nameOffset != 0 {
      StringIsThere(file, sections[strtab].offset + read.nameOffset);
    }
  }

  lemma {:induction false} NamedSymbolsAreShown(file: seq<u8>, at: nat, read: seq<ElfSymbol>, strtab: nat)
    requires forall i :: 0 <= i < |read| ==> read[i] == SymbolAt(file, at + 24 * i)
    requires SymbolNamesOk(file, read, strtab)
    ensures Spaced(SymbolShown, file, at, 24, NamedSymbols(file, read, strtab))
  {
    var shown, symbols := SymbolShown, NamedSymbols(file, read, strtab);
    forall i | 0 <= i < |symbols|
      ensures shown(file, at + 24 * i, symbols[i])
    {
      NamedSymbolIsShown(file, at + 24 * i, read[i], strtab);
    }
  }

  lemma {:induction false} SymbolsAreNamed(
      file: seq<u8>, at: nat, read: seq<ElfSymbol>, sections: seq<Section>, strtab: nat)
    requires forall i :: 0 <= i < |read| ==> read[i] == SymbolAt(file, at + 24 * i)
    requires strtab < |sections| && SymbolNamesOk(file, read, sections[strtab].offset)
    ensures SymbolNamesShown(file, sections, strtab, NamedSymbols(file, read, sections[strtab].offset))
  {
    var symbols := NamedSymbols(file, read, sections[strtab].offset);
    forall i | 0 <= i < |symbols|
      ensures SymbolNameShown(file, sections, strtab, symbols[i])
    {
      SymbolIsShown(file, at + 24 * i);
      SymbolIsNamed(file, sections, strtab, read[i]);
    }
  }

  lemma {:induction false} UnnamedSymbolsAreShown(
      file: seq<u8>, at: nat, size: nat, sections: seq<Section>, strtab: nat)
    requires strtab >= |sections|
    ensures Spaced(SymbolShown, file, at, 24, UnnamedSymbols(file, at, size))
    ensures SymbolNamesShown(file, sections, strtab, UnnamedSymbols(file, at, size))
  {
    var shown, read := SymbolShown, UnnamedSymbols(file, at, size);
    forall i | 0 <= i < |read|
      ensures shown(file, at + 24 * i, read[i]) && read[i].name == []
    {
      SymbolIsShown(file, at + 24 * i);
    }
  }

  lemma {:induction false} TableIsShown(file: seq<u8>, sections: seq<Section>, symtab: nat, strtab: nat)
    requires symtab < |sections|
    requires strtab < |sections| ==> SymbolNamesOk(
               file, UnnamedSymbols(file, sections[symtab].offset, sections[symtab].size), sections[strtab].offset)
    ensures TableShown(file, sections, symtab, strtab, SymbolsIn(file, sections, symtab, strtab))
  {
    if strtab < |sections| {
      var at := sections[symtab].offset;
      NamedSymbolsAreShown(
        file, at, UnnamedSymbols(file, at, sections[symtab].size), sections[strtab].offset);
      SymbolsAreNamed(file, at, UnnamedSymbols(file, at, sections[symtab].size), sections, strtab);
    } else {
      UnnamedSymbolsAreShown(file, sections[symtab].offset, sections[symtab].size, sections, strtab);
    }
  }

  lemma {:induction false} SymbolsAreShown(file: seq<u8>, sections: seq<Section>, symbols: seq<ElfSymbol>)
    requires AreSymbolsOf(file, sections, symbols) && AllSymbolNamesOk(file, sections)
    ensures SymbolsShown(file, sections, symbols)
  {
    NamesInAscii();
    var symtab: nat, strtab: nat :|
      IsLastNamed(sections, SYMTAB, symtab) && IsFirstNamed(sections, STRTAB, strtab)
      && symbols == SymbolsIn(file, sections, symtab, strtab);
    if symtab < |sections| {
      TableIsShown(file, sections, symtab, strtab);
    }
  }
}
