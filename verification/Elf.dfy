/** Reading the headers, sections and symbols of a little-endian ELF file
    (Components/ElfProcessor/ElfInterface.cpp). */
module Elf {
  import opened Seqs
  import opened Symbols
  import opened ReaderBuffer
  import opened ElfRecords

  // ---------------------------------------------------------------- the cursor-based reader

  class ElfEx {
    var is64Bit: bool
    var elfHeader: ElfHeader
    var programHeader: ProgramHeader
    var sections: seq<Section>
    var symbols: seq<ElfSymbol>

    constructor ()
      ensures sections == [] && symbols == [] && elfHeader == NO_HEADER && programHeader == NO_PROGRAM_HEADER
    {
      is64Bit, elfHeader, programHeader, sections, symbols := false, NO_HEADER, NO_PROGRAM_HEADER, [], [];
    }

    method ReadFileClass(reader: Reader)
      modifies this`is64Bit, reader
      ensures reader.position == 0
      ensures is64Bit == Is64(reader.data)
      ensures is64Bit <==> |reader.data| > 4 && reader.data[4] == 2
    {
      reader.position := 4;
      var fileClass := 0;
      var bytes := reader.ReadImpl(1);
      if bytes.Some? {
        fileClass := bytes.value[0];
      }
      reader.position := 0;
      is64Bit := fileClass == ELFCLASS64;
    }

    /** Reads the file header and the first program header that it points to. */
    method ReadElfProgramHeader(reader: Reader)
      requires reader.position == 0 && is64Bit == Is64(reader.data)
      modifies this`elfHeader, this`programHeader, reader
      ensures elfHeader == Header(reader.data)
      ensures programHeader == ProgramHeaderAt(reader.data, Header(reader.data).phoff)
      ensures HeaderShown(reader.data, elfHeader)
      ensures ProgramHeaderShown(reader.data, elfHeader.phoff, programHeader)
    {
      HeaderIsShown(reader.data);
      ProgramHeaderIsShown(reader.data, Header(reader.data).phoff);
      elfHeader := NO_HEADER;
      var bytes := reader.ReadImpl(HeaderSize(is64Bit));
      if bytes.Some? {
        elfHeader := HeaderFrom(bytes.value, is64Bit);
      }
      reader.position := elfHeader.phoff;
      programHeader := ReadProgramHeader(reader);
    }

    method ReadProgramHeader(reader: Reader) returns (programHeader: ProgramHeader)
      requires is64Bit == Is64(reader.data)
      modifies reader
      ensures programHeader == ProgramHeaderAt(reader.data, old(reader.position))
    {
      programHeader := NO_PROGRAM_HEADER;
      ghost var at := reader.position;
      var bytes := reader.ReadImpl(ProgramHeaderSize(is64Bit));
      if bytes.Some? {
        assert bytes.value == reader.data[at..at + ProgramHeaderSize(is64Bit)];
        programHeader := ProgramHeaderFrom(bytes.value, is64Bit);
      }
    }

    /** Reads the headers one after the other; a read that fails leaves the cursor where it is, so
        all later ones fail too. */
    method ReadSectionHeaders(reader: Reader)
      requires elfHeader == Header(reader.data) && is64Bit == Is64(reader.data)
      modifies this`sections, reader
      ensures sections == UnnamedSections(reader.data)
      ensures |sections| == elfHeader.shnum
      ensures Spaced(SectionShown, reader.data, elfHeader.shoff, if is64Bit then 64 else 40, sections)
    {
      SectionsAreShown(reader.data, if is64Bit then 64 else 40);
      sections := [];
      reader.position := elfHeader.shoff;
      ghost var expected := UnnamedSections(reader.data);
      for i := 0 to elfHeader.shnum
        invariant sections == expected[..i]
        invariant CursorAt(reader.data, elfHeader.shoff, SectionSize(is64Bit), i, reader.position)
      {
        NextSection(reader.data, i, reader.position);
        TakeOneMore(expected, i);
        var section := ReadSection(reader);
        sections := sections + [section];
      }
    }

    method ReadSection(reader: Reader) returns (section: Section)
      requires is64Bit == Is64(reader.data)
      modifies reader
      ensures section == SectionAt(reader.data, old(reader.position))
      ensures reader.position == NextPosition(reader.data, old(reader.position), SectionSize(is64Bit))
    {
      section := NO_SECTION;
      ghost var at := reader.position;
      var bytes := reader.ReadImpl(SectionSize(is64Bit));
      if bytes.Some? {
        assert bytes.value == reader.data[at..at + SectionSize(is64Bit)];
        section := SectionFrom(bytes.value, is64Bit);
      }
    }

    method ReadSymbol(reader: Reader) returns (symbol: ElfSymbol)
      modifies reader
      ensures symbol == SymbolAt(reader.data, old(reader.position))
      ensures reader.position == NextPosition(reader.data, old(reader.position), SYM_SIZE)
    {
      symbol := NO_SYMBOL;
      ghost var at := reader.position;
      var bytes := reader.ReadImpl(SYM_SIZE);
      if bytes.Some? {
        assert bytes.value == reader.data[at..at + SYM_SIZE];
        symbol := SymbolFrom(bytes.value);
      }
    }

    /** The name of a section, or nothing if there is no string section. The cursor is put back. */
    method GetSectionName(reader: Reader, section: Section) returns (name: Str)
      requires elfHeader.shstrndx != 0 ==>
                 elfHeader.shstrndx < |sections|
                 && HasString(reader.data, sections[elfHeader.shstrndx].offset + section.nameOffset)
      modifies reader
      ensures reader.position == old(reader.position)
      ensures name == if elfHeader.shstrndx == 0 then []
                      else StringAt(reader.data, sections[elfHeader.shstrndx].offset + section.nameOffset)
    {
      if elfHeader.shstrndx == 0 {
        return [];
      }
      var oldPosition := reader.position;
      reader.position := sections[elfHeader.shstrndx].offset + section.nameOffset;
      StringIsUpToNul(reader.data, reader.position);
      name := reader.ReadString();
      reader.position := oldPosition;
    }

    /** Names the sections and finds the last symbol table. */
    method NameSections(reader: Reader, ghost unnamed: seq<Section>, ghost named: seq<Section>)
        returns (symtabOffset: u64, symtabSize: u64, ghost symtab: nat)
      requires |named| == |unnamed| && sections == unnamed
      requires forall i :: 0 <= i < |unnamed| ==> NameOk(reader.data, elfHeader.shstrndx, unnamed, named, i)
      modifies this`sections, reader
      ensures sections == named
      ensures IsLastNamed(sections, SYMTAB, symtab)
      ensures (symtabOffset, symtabSize)
           == if symtab < |sections| then (sections[symtab].offset, sections[symtab].size) else (0, 0)
    {
      symtabOffset, symtabSize := 0, 0;
      symtab := |sections|;
      for i := 0 to |sections|
        invariant sections == named[..i] + unnamed[i..]
        invariant LastNamedUpTo(named, SYMTAB, i, symtab)
        invariant (symtabOffset, symtabSize)
               == if symtab < |named| then (named[symtab].offset, named[symtab].size) else (0, 0)
      {
        NextNamed(named, SYMTAB, i, symtab);
        var section := NameNext(reader, unnamed, named, i);
        if section.name == SYMTAB {
          symtabOffset, symtabSize := section.offset, section.size;
          symtab := i;
        }
      }
      ReplaceAll(named, unnamed);
    }

    method NameNext(reader: Reader, ghost unnamed: seq<Section>, ghost named: seq<Section>, i: nat)
        returns (section: Section)
      requires i < |unnamed| == |named|
      requires NameOk(reader.data, elfHeader.shstrndx, unnamed, named, i)
      requires sections == named[..i] + unnamed[i..]
      modifies this`sections, reader
      ensures section == named[i]
      ensures sections == named[..i + 1] + unnamed[i + 1..]
    {
      ReplaceNext(named, unnamed, i);
      StringSectionStays(elfHeader.shstrndx, unnamed, named, i, sections);
      var name := GetSectionName(reader, sections[i]);
      section := WithName(sections[i], name);
      sections := sections[i := section];
    }

    /** Reads the symbol table of the last .symtab and names the symbols from the first .strtab. */
    method ReadSymbols(reader: Reader)
      requires is64Bit == Is64(reader.data)
      requires NamesOk(reader.data, elfHeader.shstrndx, sections)
      requires AllSymbolNamesOk(reader.data, Named(reader.data, elfHeader.shstrndx, sections))
      modifies this`sections, this`symbols, reader
      ensures sections == Named(reader.data, elfHeader.shstrndx, old(sections))
      ensures AreSymbolsOf(reader.data, sections, symbols)
    {
      symbols := [];
      var symtabOffset, symtabSize;
      ghost var symtab;
      NamedAreOk(reader.data, elfHeader.shstrndx, sections);
      symtabOffset, symtabSize, symtab :=
        NameSections(reader, sections, Named(reader.data, elfHeader.shstrndx, sections));
      ReadNamedSymbols(reader, symtabOffset, symtabSize, symtab);
    }

    method ReadNamedSymbols(reader: Reader, symtabOffset: u64, symtabSize: u64, ghost symtab: nat)
      requires is64Bit == Is64(reader.data) && symbols == []
      requires AllSymbolNamesOk(reader.data, sections) && IsLastNamed(sections, SYMTAB, symtab)
      requires (symtabOffset, symtabSize)
            == if symtab < |sections| then (sections[symtab].offset, sections[symtab].size) else (0, 0)
      modifies this`symbols, reader
      ensures AreSymbolsOf(reader.data, sections, symbols)
    {
      var strtab := FindStrtab();
      SymbolsFound(reader.data, sections, symtab, strtab, symtabOffset, symtabSize);
      if symtabSize == 0 {
        return;
      }
      ReadSymbolTable(reader, symtabOffset, symtabSize, strtab);
    }

    method ReadSymbolTable(reader: Reader, symtabOffset: u64, symtabSize: u64, strtab: nat)
      requires is64Bit == Is64(reader.data)
      requires strtab < |sections| ==>
                 SymbolNamesOk(reader.data, UnnamedSymbols(reader.data, symtabOffset, symtabSize),
                               sections[strtab].offset)
      modifies this`symbols, reader
      ensures symbols == SymbolTable(reader.data, sections, symtabOffset, symtabSize, strtab)
    {
      ReadUnnamedSymbols(reader, symtabOffset, symtabSize);
      if strtab < |sections| {
        NameSymbols(reader, sections[strtab].offset);
      }
    }

    method FindStrtab() returns (strtab: nat)
      ensures IsFirstNamed(sections, STRTAB, strtab)
    {
      strtab := 0;
      while strtab < |sections| && sections[strtab].name != STRTAB
        invariant strtab <= |sections|
        invariant forall k :: 0 <= k < strtab ==> sections[k].name != STRTAB
      {
        strtab := strtab + 1;
      }
    }

    method ReadUnnamedSymbols(reader: Reader, symtabOffset: u64, symtabSize: u64)
      requires is64Bit == Is64(reader.data)
      modifies this`symbols, reader
      ensures symbols == UnnamedSymbols(reader.data, symtabOffset, symtabSize)
    {
      symbols := [];
      reader.position := symtabOffset;
      var typeSize := if is64Bit then SymbolSize(true) else SymbolSize(false);
      var count := symtabSize / typeSize;
      for i := 0 to count
        invariant |symbols| == i
        invariant forall k :: 0 <= k < i ==> symbols[k] == SymbolAt(reader.data, symtabOffset + SYM_SIZE * k)
        invariant CursorAt(reader.data, symtabOffset, SYM_SIZE, i, reader.position)
      {
        var symbol := ReadSymbol(reader);
        symbols := symbols + [symbol];
      }
    }

    method NameSymbols(reader: Reader, strtab: u64)
      requires SymbolNamesOk(reader.data, symbols, strtab)
      modifies this`symbols, reader
      ensures symbols == NamedSymbols(reader.data, old(symbols), strtab)
    {
      ghost var unnamed, named := symbols, NamedSymbols(reader.data, symbols, strtab);
      for i := 0 to |symbols|
        invariant |symbols| == |named|
        invariant symbols == named[..i] + unnamed[i..]
      {
        ReplaceNext(named, unnamed, i);
        var symbol := GetNamed(reader, symbols[i], strtab);
        symbols := symbols[i := symbol];
      }
      ReplaceAll(named, unnamed);
    }

    /** A symbol with its name, read at strtab plus its name offset unless that offset is 0. */
    method GetNamed(reader: Reader, symbol: ElfSymbol, strtab: u64) returns (named: ElfSymbol)
      requires symbol.nameOffset != 0 ==> HasString(reader.data, strtab + symbol.nameOffset)
      modifies reader
      ensures named == NamedSymbol(reader.data, symbol, strtab)
    {
      named := symbol;
      if symbol.nameOffset != 0 {
        reader.position := strtab + symbol.nameOffset;
        StringIsUpToNul(reader.data, reader.position);
        var name := reader.ReadString();
        named := WithSymbolName(symbol, name);
      }
    }

    /** Everything Parse does with a file it could load. */
    method Parse(reader: Reader)
      requires SectionNamesOk(reader.data) && AllSymbolNamesOk(reader.data, Sections(reader.data))
      modifies this, reader
      ensures is64Bit <==> |reader.data| > 4 && reader.data[4] == 2
      ensures elfHeader == Header(reader.data) && HeaderShown(reader.data, elfHeader)
      ensures ProgramHeaderShown(reader.data, elfHeader.phoff, programHeader)
      ensures sections == Sections(reader.data) && |sections| == elfHeader.shnum
      ensures Spaced(SectionShown, reader.data, elfHeader.shoff, if is64Bit then 64 else 40, sections)
      ensures NamesShown(reader.data, elfHeader.shstrndx, sections)
      ensures AreSymbolsOf(reader.data, sections, symbols) && SymbolsShown(reader.data, sections, symbols)
    {
      ReadFileClass(reader);
      ReadElfProgramHeader(reader);
      ReadSectionHeaders(reader);
      NamedAreShown(
        reader.data, elfHeader.shstrndx, elfHeader.shoff, if is64Bit then 64 else 40, sections);
      NamesAreShown(reader.data, elfHeader.shstrndx, sections);
      ReadSymbols(reader);
      SymbolsAreShown(reader.data, sections, symbols);
    }
  }

  /** What NameSections knows after i sections. */
  ghost predicate LastNamedUpTo(sections: seq<Section>, name: Str, n: nat, i: nat)
    requires n <= |sections|
  {
    && (i < n || i == |sections|)
    && (i < n ==> sections[i].name == name)
    && forall k :: 0 <= k < n && (i == |sections| || i < k) ==> sections[k].name != name
  }

  /** The cursor after i reads of `size` bytes from start, of which those past the end failed. */
  ghost predicate CursorAt(file: seq<u8>, start: nat, size: nat, i: nat, position: nat) {
    position == start + size * i || (position <= start + size * i && position + size > |file|)
  }

  function NextPosition(file: seq<u8>, position: nat, size: nat): nat {
    if position + size <= |file| then position + size else position
  }

  lemma NextCursor(file: seq<u8>, start: nat, size: nat, i: nat, position: nat)
    requires CursorAt(file, start, size, i, position)
    ensures position == start + size * i || (position + size > |file| && start + size * i + size > |file|)
    ensures CursorAt(file, start, size, i + 1, NextPosition(file, position, size))
  {
    assert size * (i + 1) == size * i + size;
  }

  lemma SameSection(file: seq<u8>, at: nat, at': nat)
    requires at == at' || (at + SectionSize(Is64(file)) > |file| && at' + SectionSize(Is64(file)) > |file|)
    ensures SectionAt(file, at) == SectionAt(file, at')
  {}

  lemma NextSection(file: seq<u8>, i: nat, position: nat)
    requires i < Header(file).shnum && CursorAt(file, Header(file).shoff, SectionSize(Is64(file)), i, position)
    ensures SectionAt(file, position) == UnnamedSections(file)[i]
    ensures CursorAt(file, Header(file).shoff, SectionSize(Is64(file)), i + 1,
                     NextPosition(file, position, SectionSize(Is64(file))))
  {
    NextCursor(file, Header(file).shoff, SectionSize(Is64(file)), i, position);
    SameSection(file, position, Header(file).shoff + SectionSize(Is64(file)) * i);
  }

  /** Name i can be read, named[i] has it, and naming does not move the string section. */
  ghost predicate NameOk(file: seq<u8>, ndx: nat, unnamed: seq<Section>, named: seq<Section>, i: nat)
    requires i < |unnamed| == |named|
  {
    if ndx == 0 then named[i] == WithName(unnamed[i], [])
    else
      && ndx < |unnamed| && named[ndx].offset == unnamed[ndx].offset
      && HasString(file, unnamed[ndx].offset + unnamed[i].nameOffset)
      && named[i] == WithName(unnamed[i], StringAt(file, unnamed[ndx].offset + unnamed[i].nameOffset))
  }

  lemma NamedAreOk(file: seq<u8>, ndx: nat, unnamed: seq<Section>)
    requires NamesOk(file, ndx, unnamed)
    ensures forall i :: 0 <= i < |unnamed| ==> NameOk(file, ndx, unnamed, Named(file, ndx, unnamed), i)
  {}

  lemma StringSectionStays(ndx: nat, unnamed: seq<Section>, named: seq<Section>, i: nat, sections: seq<Section>)
    requires i <= |unnamed| == |named| && sections == named[..i] + unnamed[i..]
    ensures |sections| == |unnamed|
    ensures ndx < |unnamed| && named[ndx].offset == unnamed[ndx].offset ==> sections[ndx].offset == unnamed[ndx].offset
  {}

  lemma NextNamed(sections: seq<Section>, name: Str, n: nat, i: nat)
    requires n < |sections| && LastNamedUpTo(sections, name, n, i)
    ensures LastNamedUpTo(sections, name, n + 1, if sections[n].name == name then n else i)
  {}

  lemma ReplaceAll<T>(named: seq<T>, unnamed: seq<T>)
    requires |named| == |unnamed|
    ensures named[..|named|] + unnamed[|named|..] == named
  {}

  lemma SymbolsFound(
      file: seq<u8>, sections: seq<Section>, symtab: nat, strtab: nat, symtabOffset: nat, symtabSize: nat)
    requires AllSymbolNamesOk(file, sections)
    requires IsLastNamed(sections, SYMTAB, symtab) && IsFirstNamed(sections, STRTAB, strtab)
    requires (symtabOffset, symtabSize)
          == if symtab < |sections| then (sections[symtab].offset, sections[symtab].size) else (0, 0)
    ensures strtab < |sections| ==>
              SymbolNamesOk(file, UnnamedSymbols(file, symtabOffset, symtabSize), sections[strtab].offset)
    ensures AreSymbolsOf(file, sections, if symtabSize == 0 then []
                                         else SymbolTable(file, sections, symtabOffset, symtabSize, strtab))
  {
    NoSymbolsInNothing(file, sections, symtabOffset, strtab);
    assert symtabSize == 0 ==> SymbolsIn(file, sections, symtab, strtab) == [];
  }

  lemma {:induction false} NoSymbolsInNothing(file: seq<u8>, sections: seq<Section>, offset: nat, strtab: nat)
    ensures UnnamedSymbols(file, offset, 0) == []
    ensures SymbolTable(file, sections, offset, 0, strtab) == []
  {
    assert SymbolCount(file, 0) == 0;
  }

  lemma ReplaceNext<T>(named: seq<T>, unnamed: seq<T>, i: nat)
    requires |named| == |unnamed| && i < |named|
    ensures (named[..i] + unnamed[i..])[i] == unnamed[i]
    ensures (named[..i] + unnamed[i..])[i := named[i]] == named[..i + 1] + unnamed[i + 1..]
    ensures named[..0] + unnamed[0..] == unnamed
  {}
}
