# UniversalSymbols, verified

A Dafny model of UniversalSymbols, which imports type and function symbols from debug
information into one table, merges duplicate types and writes the table to a file, of the
small RECore library under it, and of two parts of the benchmark library it vendors.

| files | what they model |
|---|---|
| `Symbols`, `TypeHashes`, `Purge`, `PurgedRecords`, `PurgeOrder`, `PurgeExamples`, `MeaningDepth`, `Usym` | the symbol records with their comparison and hash, the merging of types that hash alike, and the check of all type ids |
| `AnonymousUnions`, `DiaGraph`, `DiaFunctions`, `ImportedRecords`, `DiaImporter`, `SearchDepth`, `PdbImport` | the recursive search over the type graph of a PDB file that fills the table |
| `Bytes`, `BinaryFormat`, `Layout`, `Writer`, `Reader`, `SymbolReader`, `BinarySerializer`, `Serialize`, `Conversion` | the growable output buffer, the input cursor, the file layout and its decoding, and the way from a PDB file to the bytes of a symbol file |
| `Barrier`, `ThreadManager` | the benchmark threads' barrier and their completion, as protocols of any number of threads |
| `RETree`, `QuickSort`, `ArgsProduct`, `Ranges`, `ElfRecords`, `Elf`, `Elf32Symbols`, `Elf32Example` | the search tree, the in-place sort, the enumeration of benchmark arguments, and the reading of ELF files |
| `Sets`, `Seqs` | small facts about sets and sequences |

The main results, hardest first:

- **Merging types.** Types refer to one another by id, in cycles, so what an id means is its
  unfolding to every depth. A purge preserves the meaning of every id *if and only if* types of
  equal hash mean the same before it, for any iteration order of the unordered map; unfolding as
  deep as the table has types decides that. That equal hashes imply `operator==` suffices; it does
  not always hold, because the hash leaves out the typedef source (two typedefs of one name and
  length are merged). Without any hypothesis one type per hash survives, rewriting leaves no
  chains, every record keeps all but its type ids, all ids verify after the purge if they did before, a
  second purge changes nothing *if and only if* no two survivors of different hash hash alike once
  rewritten, and the iteration order does not matter *if and only if* types of one hash are alike but for
  references to types of one hash.
- **The import.** The search is a recursion over a cyclic graph with placeholder entries and one
  call, on typedefs, that is not guarded by a look into the table. Some depth of calls is enough
  for it *if and only if* no reachable typedef leads back to itself; the keys are then exactly the
  ids reachable from what the file lists; every record shows, member by member, what the graph says of
  its symbol, also for types met while still under construction; no two pointers get one name; and all
  ids verify.
- **The barrier.** For any number of threads, any interleaving, spurious wakeups and threads that leave
  early: the threads keep in step phase by phase, a phase ends only once every thread not removed has
  entered it, exactly one call of `wait` per phase returns true, no wakeup is lost, waiting takes no
  more than two steps per thread that get anywhere, and the main thread returns after a bounded number
  of such steps.
- **The file.** Reading a file back gives what was written, whatever follows it, *if and only if* no name
  contains a NUL; the reads and the writes are proved against that. Every integer, string and enumeration
  is at its place in the file, by the weights of its bytes and the index in its declaration. A whole
  conversion verifies its ids and writes a file that decodes to the purged table and the one byte that
  `WriteToFile` adds.
- **The rest.** The tree implements a first-write-wins map; the sort succeeds without reading past its array *if
  and only if* something past the sorted part is greater than all of it; argument products have one row for each choice
  of one element per list and sparse ranges are exact; the buffer's copying is amortised; the ELF reader gives
  every field from its byte range, of headers, sections and their names in files of both classes, and of
  symbols in 64-bit ones.

## Where the code falls short of what one would expect

Each of these is a lemma or a method below at inputs where it happens, beside the exact condition under which it does not.

- `PurgeCanChangeMeaning`, `PurgePreservesMeaningIff`: merging by hash alone can change what a typedef means.
- `PurgeCanChangeKind`, `PurgeKeepsKindsIff`: neither the comparison nor the hash looks at the kind, so a struct may come to stand for a class.
- `SecondPurgeCanMergeMore`, `SecondPurgeIsIdentityIff`: rewriting can make survivors equal, so one purge need not be the last.
- `OrderCanMatter`, `PurgeIsOrderIndependentIff`: which of two meanings is left can depend on the order in which an unordered map is iterated.
- `FailedFieldJoinsUnions`, `IdsTellRunsIff`: with a field that could not be created between them, two anonymous unions can get one id.
- `SelfTypedefNeverEnds`, `FileImportEndsIff`: if a typedef leads back to itself, no depth of calls is enough for an import.
- `NulInNameIsLost`, `RoundTripIff`: strings are written whole but read up to the first NUL. An import never produces such a name (`PurgedImportDecodes`).
- `FullBuffer`, `Writer.WriteToFile`: one byte more than was written goes into the file, and if the buffer is full that byte lies past its end.
- `SerializeTwice`, `ReadAfterTwoIff`: the serializer's buffer is never emptied, so a second file holds both tables and reads as the first.
- `SortFullArray`, `ZerosStopIff`, `QuickSort`: the upward scan has no bound; without a greater element past the sorted part it leaves the array, so it does on every full one.
- `SortTooMany`, `SortedCount`: the size is passed on as an int, so 2^31 elements are not sorted at all.
- `RangesOfNothing`, `ArgsProduct`: with no list at all the carry loop indexes an empty vector.
- `ParseObjectFile`, `Symbols32RightIff`: the symbols of a 32-bit file are read with the layout of a 64-bit one's, which is right only for tables that hold next to nothing.

## Model

| member | source | states |
|---|---|---|
| Symbols.ComputeTypeHash | Components/UniversalSymbolsFormat/USYM.h:149-155 | the loop over the fields computes the XOR of the hashes of length, field count, all field type ids and name, which depends on each of them as the six rows below say |
| TypeHashes.OneFieldDecides | Components/UniversalSymbolsFormat/USYM.h:152-153 | replacing one field, at any position, leaves the hash if and only if the library hashes the two fields' type ids alike |
| TypeHashes.LengthDecides | Components/UniversalSymbolsFormat/USYM.h:151 | replacing the length leaves the hash if and only if the library hashes the two lengths alike |
| TypeHashes.FieldCountDecides | Components/UniversalSymbolsFormat/USYM.h:151 | so does replacing the field count |
| TypeHashes.NameDecides | Components/UniversalSymbolsFormat/USYM.h:154 | so does replacing the name |
| TypeHashes.HashOfParts | Components/UniversalSymbolsFormat/USYM.h:149-155 | a type without fields hashes to length, field count and name XORed, and one more field anywhere XORs in the hash of its type id |
| TypeHashes.HashIgnores | Components/UniversalSymbolsFormat/USYM.h:146-156 | kind, ids, typedef source and the rest of the fields do not matter to the hash |
| Symbols.EqualTypesHashEqual | Components/UniversalSymbolsFormat/USYM.h:61-69 | types that `operator==` calls equal hash equal, whatever the library hashes are |
| PurgedRecords.SameTypeIff | Components/UniversalSymbolsFormat/USYM.h:42-69 | two types compare equal if and only if their records are equal but for kind and own ids |
| Purge.RepresentativeOfType | Components/UniversalSymbolsFormat/USYM.cpp:47-59 | a type's stand-in is a type of its hash, is its own stand-in, and is shared by the whole hash class |
| Purge.NextInOrder | Components/UniversalSymbolsFormat/USYM.cpp:49-58 | an id gives way exactly if an earlier one in the iteration has its hash, and then to the first such |
| TypeHashes.MergedIff | Components/UniversalSymbolsFormat/USYM.cpp:47-59 | two types get one stand-in if and only if they hash alike |
| TypeHashes.FieldTypeKeepsApart | Components/UniversalSymbolsFormat/USYM.cpp:47-59 | so two types that agree in what is hashed but for the type of one field are merged if and only if the library hashes those two type ids alike |
| PurgedRecords.StandsInIff | Components/UniversalSymbolsFormat/USYM.cpp:47-59 | the stand-in is the first type of the hash in the iteration; an id that names no type stands for itself |
| PurgedRecords.PurgeIsShown | Components/UniversalSymbolsFormat/USYM.cpp:42-93 | a purge leaves exactly the types that stand in for themselves and all functions, each with its record unchanged but for the type ids, each of which is that of its stand-in |
| Purge.RewritingHasNoChains | Components/UniversalSymbolsFormat/USYM.cpp:53 | whatever an id is rewritten to is neither rewritten nor erased itself |
| Purge.OneSurvivorPerHash | Components/UniversalSymbolsFormat/USYM.cpp:89-92 | of the types of one hash exactly one survives |
| Purge.SurvivorCount | Components/UniversalSymbolsFormat/USYM.cpp:89-92 | as many types survive as there were different hashes |
| Purge.SecondPurgeIsIdentityIff | Components/UniversalSymbolsFormat/USYM.cpp:42-93 | a second purge changes nothing if and only if no two surviving types that hash differently before the first hash alike once every id in them is replaced by its stand-in |
| Purge.SecondPurgeIsIdentityIffAnyTypes | Components/UniversalSymbolsFormat/USYM.cpp:42-93 | if equal hashes imply `operator==`, the same for any two types, erased or not |
| PurgeExamples.ErasedTypesDoNotMatter | Components/UniversalSymbolsFormat/USYM.cpp:89-92 | without that hypothesis it is not the same: an erased type hashes like a survivor once rewritten, and the second purge changes nothing |
| PurgeExamples.SecondPurgeCanMergeMore | Components/UniversalSymbolsFormat/USYM.cpp:61-73 | two structs that differ in which of two equal ints they hold are merged by the second purge and not by the first, for all orders and all hashes that tell them apart |
| PurgeExamples.PlainHashTellsApart | Components/UniversalSymbolsFormat/USYM.h:146-156 | such hashes exist |
| Purge.ClosedAfterPurge | Components/UniversalSymbolsFormat/USYM.cpp:61-92 | all ids verify after a purge if and only if those of the survivors and functions did before; so a table that verified still does |
| Purge.MeaningSurvives | Components/UniversalSymbolsFormat/USYM.cpp:61-73 | if equal hashes mean equal meaning, an id's stand-in unfolds after the purge, to any depth, as the id did before |
| Purge.PurgePreservesMeaningIff | Components/UniversalSymbolsFormat/USYM.cpp:42-93 | the purge preserves every id's meaning if and only if types of equal hash meant the same before it |
| MeaningDepth.SameMeaningIff | Components/UniversalSymbolsFormat/USYM.h:42-69 | two types mean the same to every depth if and only if they agree down to as many levels as there are types |
| MeaningDepth.SameMeaningIsLargest | Components/UniversalSymbolsFormat/USYM.h:42-69 | two ids mean the same if and only if some relation holds of them under which related types agree in all that `operator==` compares, but refer to related ids: no depth in it |
| MeaningDepth.PurgePreservesMeaningIffToDepth | Components/UniversalSymbolsFormat/USYM.cpp:42-93 | so the condition for a purge to preserve every meaning can be evaluated on the table before it |
| Purge.PurgePreservesMeaningOfTypes | Components/UniversalSymbolsFormat/USYM.h:61-69 | if equal hashes imply `operator==`, the meaning of every id is preserved |
| Purge.PurgePreservesMeaningOfFunctions | Components/UniversalSymbolsFormat/USYM.cpp:75-87 | so is the meaning of what every function returns and takes, and nothing else of it changes |
| PurgeExamples.PurgeCanChangeMeaning | Components/UniversalSymbolsFormat/USYM.h:149-155 | two typedefs of one name and length but different sources are merged for all library hashes and orders, which changes a meaning |
| Purge.PurgeKeepsKindsIff | Components/UniversalSymbolsFormat/USYM.h:61-69 | every id keeps its kind if and only if types of equal hash are of one kind |
| PurgeExamples.PurgeCanChangeKind | Components/UniversalSymbolsFormat/USYM.h:61-69 | a struct and a class of one name, length and field type are merged for all library hashes and orders, and one changes its kind |
| PurgeOrder.PurgeIsOrderIndependentIff | Components/UniversalSymbolsFormat/USYM.cpp:47-92 | the type tables from any two iteration orders are isomorphic by sending each survivor to the other order's survivor if and only if types of one hash agree in all that `operator==` compares, but for references to types of one hash |
| PurgeOrder.PurgeIsOrderIndependent | Components/UniversalSymbolsFormat/USYM.cpp:47-92 | so they are, functions included, if equal hashes imply `operator==` |
| PurgeExamples.OrderCanMatter | Components/UniversalSymbolsFormat/USYM.h:149-155 | they are not for two typedefs of one name and length whose sources hash differently |
| UsymTable.Usym.CollectDuplicates | Components/UniversalSymbolsFormat/USYM.cpp:44-59 | the first pass finds every id that gives way, with its stand-in |
| UsymTable.Usym.RewriteTypeSymbol | Components/UniversalSymbolsFormat/USYM.cpp:63-72 | the typedef source and all field types of a type are rewritten and nothing else |
| UsymTable.Usym.RewriteFunctionSymbol | Components/UniversalSymbolsFormat/USYM.cpp:77-86 | the return and argument types of a function are rewritten and nothing else |
| UsymTable.Usym.RewriteTypeSymbols | Components/UniversalSymbolsFormat/USYM.cpp:61-73 | every type is rewritten, none added or dropped |
| UsymTable.Usym.RewriteFunctionSymbols | Components/UniversalSymbolsFormat/USYM.cpp:75-87 | every function is rewritten, none added or dropped |
| UsymTable.Usym.PurgeDuplicateTypes | Components/UniversalSymbolsFormat/USYM.cpp:42-93 | the whole purge leaves exactly the first type of every hash in the iteration and all functions, and in each record changes just the type ids, to those of their stand-ins |
| UsymTable.Usym.VerifyTypeIds | Components/UniversalSymbolsFormat/USYM.cpp:120-161 | returns true if and only if every type id mentioned anywhere is 0 or a key |
| PurgedRecords.ClosedIff | Components/UniversalSymbolsFormat/USYM.cpp:120-161 | that is, all ids in typedef sources, fields, return types and arguments are keys or 0 |
| PurgedRecords.DanglingSourceIsFound | Components/UniversalSymbolsFormat/USYM.cpp:120-161 | a typedef whose source is not in the table does not verify |
| AnonymousUnions.SetAnonymousUnionData | Components/DiaProcessor/DiaInterface.cpp:193-224 | the loop marks the fields as the marking below and changes nothing else |
| AnonymousUnions.MarkedMeansRuns | Components/DiaProcessor/DiaInterface.cpp:199-223 | with all fields created, a field is flagged if and only if a neighbour has its offset, its union id counts the runs of equal offsets before it, flagged fields share the id if and only if they share the run, and nothing else of a field changes |
| AnonymousUnions.SharedUnionId | Components/DiaProcessor/DiaInterface.cpp:205-222 | in general two flagged fields share a union id if and only if no compared neighbours between them differ in offset |
| AnonymousUnions.IdsTellRunsIff | Components/DiaProcessor/DiaInterface.cpp:199-223 | whichever fields failed: all flagged fields share an id exactly when they share a run, if and only if flagged fields with a failed one between them also have compared neighbours of different offsets between them |
| AnonymousUnions.FailedFieldJoinsUnions | Components/DiaProcessor/DiaInterface.cpp:205-210 | with an empty field between them two unions at different offsets share an id |
| DiaGraph.ReachableIsLeast | Components/DiaProcessor/DiaInterface.cpp:176-178 | the ids reachable through field and typedef edges are the least set with the roots that is closed under the edges |
| DiaGraph.TypedefRecursionEndsIff | Components/DiaProcessor/DiaInterface.cpp:391-395 | following typedefs without looking into the table ends from every type if and only if no typedef leads back to itself |
| DiaGraph.AcyclicHasRank | Components/DiaProcessor/DiaInterface.cpp:391-395 | then the types can be numbered so that the number falls along every typedef |
| SearchDepth.ImportEndsIff | Components/DiaProcessor/DiaInterface.cpp:483-662 | an import ends at some depth of calls if and only if no reachable typedef leads back to itself |
| SearchDepth.FileImportEndsIff | Components/DiaProcessor/DiaInterface.cpp:692-722 | the import of a file ends if and only if it meets what CreateUsymFromFile below asks for: no typedef reachable from its listed types and functions leads back to itself |
| SearchDepth.SelfTypedefNeverEnds | Components/DiaProcessor/DiaInterface.cpp:372-409 | no depth of calls is enough for a file with one typedef, of itself |
| SearchDepth.SearchFindsReachable | Components/DiaProcessor/DiaInterface.cpp:176-178 | the search so bounded enters, if it ends, exactly the keys that the import does |
| DiaGraph.PointerNameInjective | Components/DiaProcessor/DiaInterface.cpp:142-147 | different counter values give different pointer names |
| DiaGraph.CompleteMemberRecord | Components/DiaProcessor/DiaInterface.cpp:226-261 | if all it refers to is supported, a class or enum has exactly the record, fields and union data that the graph determines |
| ImportedRecords.RecordIsShown | Components/DiaProcessor/DiaInterface.cpp:263-409 | what is stored for a symbol, one clause per tag: a base type, array or pointer has its id, name, kind and length; a class or enum, by its udt kind, a field for every member with that member's id, name, offset and type id; a typedef its target's length and id; and the record is empty exactly if a getter it needs failed |
| ImportedRecords.MarkedAreFlagged | Components/DiaProcessor/DiaInterface.cpp:193-224 | a field is flagged if and only if a neighbour that was created has its offset, whichever fields failed; its union id counts the groups before it if none did |
| ImportedRecords.PointerIsNamed | Components/DiaProcessor/DiaInterface.cpp:142-147 | the n-th pointer is called pUnk and decimal digits whose value is n |
| ImportedRecords.AllMembersAreThere | Components/DiaProcessor/DiaInterface.cpp:226-261 | if all it refers to is supported, field i of a class or enum shows member i, for every member that has a type |
| DiaFunctions.FunctionsAreSeparate | Components/DiaProcessor/DiaInterface.cpp:518-659 | if no function comes twice, each has the record made from it alone, with the return type, arguments, convention and address that it shows |
| DiaFunctions.FilledIsShown | Components/DiaProcessor/DiaInterface.cpp:518-659 | reading a function sets id and name, and each of return type, argument count, convention and address that the getters give, and adds `this`, if any, and then the arguments behind the leading stubs in order, if the count is above 0 |
| DiaFunctions.SkippedAreLeading | Components/DiaProcessor/DiaInterface.cpp:596-606 | dropped are the leading base types without a type, and no more |
| DiaFunctions.FunctionRefsFromOk | Components/DiaProcessor/DiaInterface.cpp:535-619 | function records refer only to 0 and to types the functions brought in |
| DiaImporter.ConsistentIsClosed | Components/DiaProcessor/DiaInterface.cpp:447-478 | between any two steps of the search every id stored in a type record is 0 or a key, whatever is under construction |
| DiaImporter.NewPointerName | Components/DiaProcessor/DiaInterface.cpp:142-147 | a generated name is in no record when it is handed out |
| DiaImporter.Importer.CreateFieldSymbol | Components/DiaProcessor/DiaInterface.cpp:151-191 | makes the field of the member, whose parts ImportedRecords.RecordIsShown gives, or none if its type is missing or could not be created; the type is in the table either way |
| DiaImporter.Importer.CreateMembersForSymbol | Components/DiaProcessor/DiaInterface.cpp:226-261 | one field per member in order, empty ones for failures, all member types entered, union data set except in unions and enums |
| DiaImporter.Importer.CreateUdtSymbol | Components/DiaProcessor/DiaInterface.cpp:287-328 | succeeds exactly if the getters do, with the record of the class and all its member types entered |
| DiaImporter.Importer.CreateEnumSymbol | Components/DiaProcessor/DiaInterface.cpp:330-350 | the same for an enum |
| DiaImporter.Importer.CreatePointerTypeSymbol | Components/DiaProcessor/DiaInterface.cpp:352-370 | a pointer gets the next generated name; the counter advances even if the length is missing |
| DiaImporter.Importer.CreateTypedefSymbol | Components/DiaProcessor/DiaInterface.cpp:372-409 | the target is entered, and the record has its id and length; 0 and no source for a function type |
| DiaImporter.Importer.CreateTypeSymbol | Components/DiaProcessor/DiaInterface.cpp:431-481 | terminates on cyclic graphs; on return the id has its final record and everything it refers to is in the table, even if it is still under construction further up; true exactly if supported |
| DiaImporter.Importer.BuildTypeList | Components/DiaProcessor/DiaInterface.cpp:483-503 | all listed types are entered and the table stays consistent |
| DiaImporter.Importer.BuildArguments | Components/DiaProcessor/DiaInterface.cpp:562-622 | the argument types are `this`, if any, and the listed ones without leading stubs, each entered |
| DiaImporter.Importer.BuildFunction | Components/DiaProcessor/DiaInterface.cpp:518-659 | fills one function's record with what the function shows and enters all types it mentions |
| DiaImporter.Importer.BuildFunctionList | Components/DiaProcessor/DiaInterface.cpp:505-662 | does so for every function in turn |
| PdbImport.KeysAreReachable | Components/DiaProcessor/DiaInterface.cpp:704-710 | once nothing is under construction the keys are exactly the reachable ids |
| PdbImport.CreateUsymFromFile | Components/DiaProcessor/DiaInterface.cpp:692-722 | after an import the keys are the ids reachable from the listed types and the functions, all listed types among them; every record shows what the graph says of its symbol, by tag and udt kind and member by member; every function, if none comes twice, shows its getters; pointer names differ, and every id stored is 0 or a key |
| PdbImport.ImportIsComplete | Components/DiaProcessor/DiaInterface.cpp:447-478 | if everything reachable is supported, no placeholder is left, every record is determined by the graph but for pointer names, and every member with a type has its field, with its id, name, offset and type id |
| PdbImport.VerifyBeforeAndAfterPurge | Tests/UniversalSymbolsFormat_Tests/USYMTest.cpp:20-29 | the ids verify after every import and again after the purge, which the test suite checks on one file |
| Bytes.LittleEndianRoundTrip | Libraries/RECore/Writer.h:19-24 | an integer that fits its width is read back from its object representation |
| Bytes.FirstFour | Libraries/RECore/Reader.h:15-19 | the first four bytes have the weights 1, 2^8, 2^16 and 2^24, and the rest starts at 2^32 |
| Bytes.UpToNulOfString | Libraries/RECore/Reader.cpp:44-49 | a string without NUL is read back from its terminated bytes, whatever follows |
| Bytes.TakeBack | Components/UniversalSymbolsFormat/Serializers/BinarySerializer.cpp:38-48 | a counted list is read back if each element is |
| BinaryFormat.TakeHeaderBack | Components/UniversalSymbolsFormat/Serializers/BinarySerializer.cpp:16-23 | the header is read back and the rest of the bytes left |
| BinaryFormat.TakeFieldBack | Components/UniversalSymbolsFormat/Serializers/BinarySerializer.cpp:42-47 | so is a field with a name without NUL |
| BinaryFormat.TakeTypeBack | Components/UniversalSymbolsFormat/Serializers/BinarySerializer.cpp:32-50 | so is a type with its fields |
| BinaryFormat.TakeFunctionBack | Components/UniversalSymbolsFormat/Serializers/BinarySerializer.cpp:63-76 | so is a function with its arguments |
| BinaryFormat.TakenContentsAreNulFree | Libraries/RECore/Reader.cpp:44-49 | whatever bytes are read, no name contains a NUL |
| BinaryFormat.RoundTripIff | Components/UniversalSymbolsFormat/Serializers/BinarySerializer.cpp:16-80 | reading what was written for a table, with any bytes after it, gives that table and those bytes if and only if no name contains a NUL |
| BinaryFormat.NulInNameIsLost | Libraries/RECore/Writer.cpp:67-70 | a name with a NUL in it is not read back |
| BinaryFormat.UniquelyDecodable | Components/UniversalSymbolsFormat/Serializers/BinarySerializer.cpp:16-80 | two sequences of symbols with NUL-free names and the same bytes are equal, also if other bytes follow either |
| Layout.CodesAreIndices | Components/UniversalSymbolsFormat/USYM.h:10-105 | the byte of an enumeration is the value's index in the declaration, and 0xff for the unknown one |
| Layout.HeaderHere | Components/UniversalSymbolsFormat/Serializers/BinarySerializer.cpp:16-23 | magic in bytes 0 to 3, least significant first, format in byte 4 and architecture in byte 5 |
| Layout.FieldHere | Components/UniversalSymbolsFormat/Serializers/BinarySerializer.cpp:42-47 | id, name and NUL, type id, offset in eight bytes, 0 or 1, and union id, each behind the one before |
| Layout.TypeHere | Components/UniversalSymbolsFormat/Serializers/BinarySerializer.cpp:32-50 | id, name and NUL, the kind's index, length, field count and number of fields in eight bytes each, the fields behind one another, and the typedef source |
| Layout.FunctionHere | Components/UniversalSymbolsFormat/Serializers/BinarySerializer.cpp:63-76 | id, name and NUL, return type, argument count, number of arguments in eight bytes, the arguments in four bytes each, the convention's index and the address in eight bytes |
| Layout.EncodingIsLaidOut | Components/UniversalSymbolsFormat/Serializers/BinarySerializer.cpp:16-80 | the header, the number of types and the types in iteration order, the number of functions and the functions, each record right behind the one before |
| WriterBuffer.GrowthCoversCopy | Libraries/RECore/Writer.cpp:47-57 | a reallocation adds at least a twentieth of what it copies |
| WriterBuffer.GrownSizeInBytes | Libraries/RECore/Writer.cpp:47-57 | in whole numbers the new size is a tenth more, rounded down, or double for fewer than ten bytes, but at least what is needed |
| WriterBuffer.GrowthIsAmortised | Libraries/RECore/Writer.cpp:43-65 | over any run of writes at most 20 times the growth is copied, and the buffer is never larger than it started or twice the position |
| WriterBuffer.Writer.constructor | Libraries/RECore/Writer.cpp:7-12 | an empty buffer of 1024 bytes |
| WriterBuffer.Writer.WithSize | Libraries/RECore/Writer.cpp:14-21 | an empty buffer of the size asked for, at least 1 |
| WriterBuffer.Writer.Resize | Libraries/RECore/Buffer.cpp:27-34 | what was written survives a move to a buffer of any larger size |
| WriterBuffer.Writer.WriteImpl | Libraries/RECore/Writer.cpp:43-65 | exactly the given bytes are appended, growing by the rule if they do not fit |
| WriterBuffer.Writer.WriteString | Libraries/RECore/Writer.cpp:67-70 | the string and a terminator are appended |
| WriterBuffer.Writer.WriteAll | Libraries/RECore/Writer.cpp:43-65 | any run of writes appends the concatenation of its parts |
| WriterBuffer.Writer.WriteToFile | Libraries/RECore/Writer.cpp:23-41 | the file gets what was written and one byte more, unless the buffer is full and that byte lies past it |
| WriterBuffer.FullBuffer | Libraries/RECore/Writer.cpp:23-41 | after four bytes into a buffer of four the byte to write after them lies past it |
| ReaderBuffer.Reader.ReadImpl | Libraries/RECore/Reader.cpp:31-42 | gives the next bytes and moves on unless peeking; gives nothing and stays if they are not there |
| ReaderBuffer.Reader.ReadU8 | Libraries/RECore/Reader.h:15-19 | reads a byte as the decoding takes one |
| ReaderBuffer.Reader.ReadU32 | Libraries/RECore/Reader.h:15-19 | reads a 4-byte integer as the decoding takes one |
| ReaderBuffer.Reader.ReadU64 | Libraries/RECore/Reader.h:15-19 | reads an 8-byte integer as the decoding takes one |
| ReaderBuffer.Reader.ReadString | Libraries/RECore/Reader.cpp:44-49 | reads a terminated string as the decoding takes one |
| ReaderBuffer.Reader.ReadStringOfLength | Libraries/RECore/Reader.cpp:51-57 | reads exactly the given number of bytes, NULs included |
| SymbolReader.ReadContents | Components/UniversalSymbolsFormat/Serializers/BinarySerializer.cpp:16-80 | reading header, types and functions from the cursor, field by field in the order they are written, takes what the decoding takes |
| SymbolReader.ReadBack | Components/UniversalSymbolsFormat/Serializers/BinarySerializer.cpp:16-80 | so it gives back what was written and stops right after it |
| BinarySerialization.AppendTypeIsPut | Components/UniversalSymbolsFormat/Serializers/BinarySerializer.cpp:32-50 | writing a type field by field appends its encoding |
| BinarySerialization.AppendFunctionIsPut | Components/UniversalSymbolsFormat/Serializers/BinarySerializer.cpp:63-76 | writing a function field by field appends its encoding |
| BinarySerialization.BinarySerializer.SerializeHeader | Components/UniversalSymbolsFormat/Serializers/BinarySerializer.cpp:16-23 | appends the encoding of the header: its three values are at their places behind what was there |
| BinarySerialization.BinarySerializer.SerializeTypeSymbols | Components/UniversalSymbolsFormat/Serializers/BinarySerializer.cpp:25-54 | appends the count and the encoding of every type in iteration order: each value of each record is at its place, the kind as its index in the declaration |
| BinarySerialization.BinarySerializer.SerializeFunctionSymbols | Components/UniversalSymbolsFormat/Serializers/BinarySerializer.cpp:56-80 | appends the count and the encoding of every function in iteration order, each value at its place |
| BinarySerialization.BinarySerializer.SerializeAll | Components/UniversalSymbolsFormat/Serializers/ISerializer.cpp:13-20 | the three parts together append the encoding of the whole table, laid out part behind part |
| Serialize.SerializeUsym | Components/UniversalSymbolsFormat/USYM.cpp:25-40 | purges, verifies the purged table, and writes the encoding of that table, laid out value by value behind the given header, and one byte to the file; without a serializer nothing changes |
| Serialize.ReadAfterTwoIff | Components/UniversalSymbolsFormat/USYM.cpp:25-40 | of two tables in one buffer reading gives the first, so it gives the second if and only if that is the same |
| Serialize.SerializeTwice | Components/UniversalSymbolsFormat/Serializers/ISerializer.cpp:5-26 | after a second Serialize with one serializer the file holds both tables and reads as the first |
| Conversion.PurgedImportDecodes | Components/UniversalSymbolsFormat/USYM.cpp:34-39 | the bytes of a purged import decode to it, whatever follows them, since imported names hold no NUL and all counts fit, even if functions come more than once |
| Conversion.Convert | Components/UniversalSymbolsFormat/USYM.cpp:25-40 | an import followed by Serialize passes the check of the ids and writes a file that decodes to the purged import and one byte; it does write one if that opens and the contents are smaller than the initial buffer |
| Barrier.BarrierState.EnterBarrier | Vendor/benchmark/src/mutex.h:132-150 | the critical section up to the wait takes the protocol's entering step: the thread waits if and only if it is not the last to enter, and if it is the phase number goes up and the count to 0 |
| Barrier.BarrierState.Recheck | Vendor/benchmark/src/mutex.h:138-149 | a waiter's test and what follows it take the protocol's waking step: false if the phase is over, the end of the phase if the counts are equal, else back to sleep |
| Barrier.BarrierState.RemoveThread | Vendor/benchmark/src/mutex.h:114-118 | removing a thread takes the protocol's removing step and notifies exactly if someone has entered |
| Barrier.EntryCheckHolds | Vendor/benchmark/src/mutex.h:133 | the check on entry passes for every thread outside |
| Barrier.CanHappenIff | Vendor/benchmark/src/mutex.h:104-150 | in every reachable state a thread outside can enter and can be removed, whatever the others do, a waiter can be woken and goes on once awake, the thread that ended a phase can notify, and nothing else can happen to a thread |
| Barrier.EveryoneWaits | Vendor/benchmark/src/mutex.h:140 | when all have entered, every thread not removed is a waiter of the phase in progress |
| Barrier.StepKeepsInv | Vendor/benchmark/src/mutex.h:104-150 | every step of every thread keeps the protocol's invariant |
| Barrier.RunKeepsInv | Vendor/benchmark/src/mutex.h:104-150 | so does every run from the start |
| Barrier.BarrierIsSafe | Vendor/benchmark/src/mutex.h:123-135 | in every reachable state `entered_` counts the waiters of the phase, `running_threads_` the threads not removed, no waiter is more than one phase behind, and the entry check passes |
| Barrier.FirstTestFails | Vendor/benchmark/src/mutex.h:136-144 | a thread that has to wait finds the predicate false on its first test, in every reachable state, so it does go to sleep |
| Barrier.PhaseEndsTogether | Vendor/benchmark/src/mutex.h:146-149 | a phase ends only when every thread not yet removed has entered it |
| Barrier.BarrierMakesProgress | Vendor/benchmark/src/mutex.h:110-118 | whenever all remaining threads are in `wait`, one has a notification to make or is awake and will not go back to sleep |
| Barrier.AdvancingCountsDown | Vendor/benchmark/src/mutex.h:104-150 | every step that gets somewhere lowers the number of steps the waiters have to go |
| Barrier.WaitingEnds | Vendor/benchmark/src/mutex.h:104-150 | in any run in which nobody enters, with spurious wakeups and removals in between, at most two steps per thread get somewhere |
| Barrier.OneWinnerPerPhase | Vendor/benchmark/src/mutex.h:129-131 | exactly one call of `wait` per ended phase returns true or is about to |
| Barrier.ThreadsKeepInStep | Vendor/benchmark/src/mutex.h:104-112 | a thread outside has had one answer for every phase so far, so its i-th call is about phase i |
| ThreadManager.RunKeepsInv | Vendor/benchmark/src/thread_manager.h:21-37 | every run of barrier, completing threads and main thread keeps the invariant |
| ThreadManager.CanHappenIff | Vendor/benchmark/src/thread_manager.h:25-31 | in every reachable state a running thread outside the barrier can enter it and can leave for good, one that has left can count down, the one that signals can take the mutex if nobody holds it, and then notifies; in no other order |
| ThreadManager.MainCanIff | Vendor/benchmark/src/thread_manager.h:33-37 | the main thread takes the mutex if nobody holds it, tests, and sleeps unless it returns |
| ThreadManager.MainCannotSleepForever | Vendor/benchmark/src/thread_manager.h:25-37 | once every thread is through, the main thread neither sleeps nor is about to, although the count goes down without the mutex |
| ThreadManager.MainReturnsLast | Vendor/benchmark/src/thread_manager.h:33-37 | `WaitForAllThreads` returns only after every thread has left the barrier and counted down |
| ThreadManager.AtMostOneSignals | Vendor/benchmark/src/thread_manager.h:27-30 | at most one thread finds the count at 0 |
| ThreadManager.NoDeadlock | Vendor/benchmark/src/thread_manager.h:21-37 | while the main thread waits and no thread runs outside the barrier, some step is possible that is neither a spurious wakeup nor a waiter of the barrier going back to sleep |
| ThreadManager.AdvancingCountsDown | Vendor/benchmark/src/thread_manager.h:21-37 | each such step lowers a measure, also the one by which the main thread goes to sleep |
| ThreadManager.WaitForAllThreadsEnds | Vendor/benchmark/src/thread_manager.h:33-37 | once the main thread waits, any run makes at most ten such steps per thread and four more, three more for each spurious wakeup of the main thread and two for each call of `wait`; and where no more is possible and no thread runs outside the barrier, the main thread has returned |
| SearchTree.FindEntry | Libraries/RECore/RETree.h:51-69 | finds the node where the search for the key ends if it has the key, else nothing |
| SearchTree.FindPlacement | Libraries/RECore/RETree.h:71-89 | finds the node where the search ends unless it has the key |
| SearchTree.EndOfSearchIsRight | Libraries/RECore/RETree.h:51-69 | the search ends in the tree, and at the key's node if there is one |
| SearchTree.InsertedNodes | Libraries/RECore/RETree.h:39-45 | hanging a leaf where the search ends adds just that node and keeps the whole tree ordered |
| SearchTree.InsertedContents | Libraries/RECore/RETree.h:39-45 | it adds just the new key to the map |
| SearchTree.InsertedLinks | Libraries/RECore/RETree.h:42-45 | it changes one link, that of the node found, wherever in the tree that is |
| SearchTree.FirstInsertWins | Libraries/RECore/RETree.h:26-46 | after any run of inserts the keys are those there were and those inserted, each with the value it had or else its first |
| SearchTree.RETree.Get | Libraries/RECore/RETree.h:14-24 | `operator[]` looks the key up in the map |
| SearchTree.RETree.Insert | Libraries/RECore/RETree.h:26-46 | a new key is added with its value, a repeated one changes nothing |
| SearchTree.RETree.InsertAll | Libraries/RECore/RETree.h:26-46 | a run of inserts on a tree leads to the map that the rule for one insert gives |
| SearchTree.RETree.GetAfterInserts | Libraries/RECore/RETree.h:14-24 | after it `operator[]` finds exactly the keys there were and those inserted, each with the value it had or else the first it was inserted with |
| QuickSorting.ScanUp | Libraries/RECore/REArray.h:68-71 | stops at the next greater element, or reports that there is none in the array |
| QuickSorting.ScanDown | Libraries/RECore/REArray.h:73-76 | stops at the next element not greater, at the pivot at the latest |
| QuickSorting.Partition | Libraries/RECore/REArray.h:60-85 | rearranges the range around its first element and nothing else; fails only if nothing past the range could stop the scan |
| QuickSorting.QuickSortRange | Libraries/RECore/REArray.h:92-103 | sorts a range in place if and only if it is empty or an element past it exceeds all of it |
| QuickSorting.SortedCount | Libraries/RECore/REArray.h:87-92 | passed on as an int, the size is that of all elements if and only if there are fewer than 2^31 |
| QuickSorting.QuickSort | Libraries/RECore/REArray.h:87-90 | so many elements become a sorted permutation and the others are untouched, if and only if one of those exceeds all of these or there are none to sort |
| QuickSorting.SortFullArray | Libraries/RECore/REArray.h:87-90 | sorting a full array of fewer than 2^31 elements always fails, unless it is empty |
| QuickSorting.SortTooMany | Libraries/RECore/REArray.h:87-90 | sorting 2^31 elements changes nothing |
| QuickSorting.ZerosStopIff | Libraries/RECore/REArray.h:15-21 | if what is past the elements is zeros, as at first, the scan is stopped if and only if all elements are negative |
| ArgsProduct.NextDigit | Vendor/benchmark/src/benchmark_register.cc:293-296 | counting up by one changes a mixed-radix digit exactly as the carry loop does |
| ArgsProduct.EveryChoiceOnce | Vendor/benchmark/src/benchmark_register.cc:284-297 | row numbers and choices of one element per list are in one-to-one correspondence |
| ArgsProduct.RowsAreProduct | Vendor/benchmark/src/benchmark_register.cc:279-297 | every row has the elements of the choice that its number stands for, and every choice of one index per list has exactly one row |
| ArgsProduct.IndicesReturnToZero | Vendor/benchmark/src/benchmark_register.cc:293-296 | after the last row all indices are 0 again |
| ArgsProduct.Advance | Vendor/benchmark/src/benchmark_register.cc:293-296 | the carry loop turns the digits of i into those of i + 1 and stays in bounds, if and only if there is a list |
| ArgsProduct.Benchmark.ArgsProduct | Vendor/benchmark/src/benchmark_register.cc:274-300 | appends one row for each choice of an index per list and no other: row i has the elements at i over the product of the lengths before, modulo the list's length; no index is out of bounds if and only if there is a list |
| ArgsProduct.Benchmark.Ranges | Vendor/benchmark/src/benchmark_register.cc:260-272 | appends the product, one row for each choice, of lists that hold exactly what AddRange makes of each pair of bounds, under the same condition |
| ArgsProduct.RangesOfNothing | Vendor/benchmark/src/benchmark_register.cc:260-272 | with no bounds it appends the empty row and then fails |
| Ranges.ListsUnique | Vendor/benchmark/src/benchmark_register.h:59-104 | an increasing list is determined by its members, so the contracts below determine what is appended |
| Ranges.Vector.NegateFrom | Vendor/benchmark/src/benchmark_register.h:55 | negates the suffix in place |
| Ranges.Vector.ReverseFrom | Vendor/benchmark/src/benchmark_register.h:56 | reverses the suffix in place |
| Ranges.AddPowers | Vendor/benchmark/src/benchmark_register.h:15-37 | appends exactly the powers in the interval, increasing, with every intermediate result representable |
| Ranges.AddNegatedPowers | Vendor/benchmark/src/benchmark_register.h:39-57 | appends exactly the negated powers in the interval, increasing |
| Ranges.AddRange | Vendor/benchmark/src/benchmark_register.h:59-104 | appends exactly lo, hi and, strictly between, 0 and plus and minus the powers, increasing, for all bounds of the type and without overflow |
| Ranges.RangeEnds | Vendor/benchmark/src/benchmark_register.h:67-103 | what is appended starts at lo and ends at hi |
| Ranges.SmallRangeByTwo | Vendor/benchmark/src/benchmark_register.h:59-104 | from -3 to 8 by 2 what is appended is -3, -2, -1, 0, 1, 2, 4, 8 |
| ElfRecords.StringIsUpToNul | Libraries/RECore/Reader.cpp:44-49 | what the cursor reads as a string is what lies before the first NUL by position |
| ElfRecords.HeaderIsShown | Components/ElfProcessor/ELF.h:31-65 | every field of the file header is the little-endian value of its byte range, for files of either class, or 0 if the file is too short |
| ElfRecords.ProgramHeaderIsShown | Components/ElfProcessor/ELF.h:67-89 | so is every field of a program header |
| ElfRecords.SectionIsShown | Components/ElfProcessor/ELF.h:91-117 | so is every field of a section header |
| ElfRecords.SymbolIsShown | Components/ElfProcessor/ELF.h:163-174 | so is every field of a symbol in the layout of 64-bit files |
| Elf.ElfEx.ReadFileClass | Components/ElfProcessor/ElfInterface.cpp:162-171 | the file is 64-bit if and only if byte 4 is 2, and the cursor is reset |
| Elf.ElfEx.ReadElfProgramHeader | Components/ElfProcessor/ElfInterface.cpp:173-181 | the file header is the one at the start of the file and the program header the one it points to, field by field from their bytes in the layout of the class |
| Elf.ElfEx.ReadSectionHeaders | Components/ElfProcessor/ElfInterface.cpp:183-197 | there are as many sections as the header says, and section i is read field by field from the bytes at the table offset plus 64 i, or 40 i for 32 bits; zeros if they are not in the file |
| Elf.ElfEx.GetSectionName | Components/ElfProcessor/ElfInterface.cpp:249-264 | the string in the section string table, with the cursor put back |
| Elf.ElfEx.NameSections | Components/ElfProcessor/ElfInterface.cpp:203-214 | every section gets its name, and the last `.symtab` is found |
| Elf.ElfEx.ReadSymbols | Components/ElfProcessor/ElfInterface.cpp:199-247 | the symbols are the 24-byte records at the last `.symtab`, size / 24 of them or size / 16 for 32 bits, named from the first `.strtab` |
| Elf32Symbols.Symbols32RightIff | Components/ElfProcessor/ElfInterface.cpp:219-229 | for a 32-bit file these are its symbols if and only if the 24-byte records read, and what its 16-byte records have beyond them, are zero but for the name of the first and, if two are read, type and section of the second |
| Elf32Example.ParseObjectFile | Components/ElfProcessor/ElfInterface.cpp:147-247 | of an object file with one symbol, a, a symbol mtab is read |
| Elf.ElfEx.Parse | Components/ElfProcessor/ElfInterface.cpp:147-159 | class, headers and sections are those in the file's bytes, field by field, for files of either class; every section's name is the string at its offset in the section string table; and the symbols are the 64-bit records at the last `.symtab`, with the strings at their offsets in the first `.strtab` as names |

## Left out

- DIA itself, string conversion, logging, console programs and file dialogs: foreign interfaces. DIA appears as an immutable graph whose getters may fail one by one.
- GetBaseName, the calling-convention and architecture switches and the name lookups: settled by reading one branch; the graph carries their results.
- The JSON serializer: the work is in a JSON library that is not part of this model.
- File input and output: a flag says whether the file opens; what `WriteToFile` puts into it is in the model.
- The order in which an unordered map is iterated is a parameter, any order at all.
- The standard library's hash functions are parameters about which nothing is assumed; a hash value is an unbounded number.
- The record of the function being built refers, between two assignments, to a type that is only created next; it is stored when it is complete.
- DiaImporter.Importer.CreateTypeSymbol: requires that no typedef leads back to itself, because the recursion does not end otherwise (TypedefRecursionEndsIff).
- Conversion.Convert: takes names without NUL, as they come from C strings, and lists shorter than 2^31, as DIA counts with a LONG.
- `argumentCount == argumentTypeIds.size()`: depends on which stub parameters DIA reports.
- SearchDepth: follows which ids are created in which order; the records are those of `DiaImporter`.
- WriterBuffer.GrownSize: computes the 10% growth over the reals, where the program rounds in double precision.
- Wrap-around of sizes and positions at 2^64, of the barrier's phase counter and of the total of ArgsProduct: those numbers are unbounded.
- ThreadManager: a state machine over values, without a class, since its methods are several atomic steps of different threads; the mutex and the condition are in the steps.
- QuickSorting.QuickSort: for integers, and without the overflow of the index in a scan past element 2^31 - 1; for types that are not trivial the program returns without sorting. A read past the array is reported as a failure instead of being undefined.
- ReaderBuffer.Reader.ReadString: requires a NUL in the rest of the data, because nothing stops the search at its end.
- Big-endian ELF files: records are copied as they are, so the model is of a little-endian machine and file.
- Elf.ElfEx.Parse: requires that every name it looks up is a terminated string inside the file.
- `REArray::Add` and `Reallocate`, `REList`, the move operations of the buffer, and the rest of the vendored libraries: raw memory copies, or easy members.
