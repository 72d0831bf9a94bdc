# glgen core in Dafny

glgen reads one or more OpenGL registry headers (`glcorearb.h` and friends) and
the source files of a program. It writes a single loader header that declares
only the OpenGL functions and constants the program uses. This project models
the text pipeline at the centre of `glgen.cpp` and proves properties of it:

- **Strings** — the character classes, `GetStringHash` (start at 1; for each
  byte, multiply by `0x01000193` modulo 2^32, then xor the byte in),
  `StartsWith`, `Equal` (a prefix test), and `UpperCase` into a buffer.
- **Lexer** — `ParseToken`, `ParseArbToken` and `AdvanceToEndOfLine`. They are
  methods of a `Tokenizer` class whose cursor moves over a NUL-terminated
  buffer. Each is proved against a specification function (`NextToken`,
  `NextArbToken`, `LineEnd`).
- **Tables** — the 8192-slot linear-probing hash tables. Hash 0 marks an
  empty slot. `Table<T>` is a class over an `array` whose probe loops
  (`AddToken`, `GetToken`, `Contains`) are proved against `Insert`/`Find` on
  the slot sequence. The lemmas show:
  - that lookups find what was inserted;
  - that insertion keeps every occupied slot;
  - that a table built by guarded insertion stays reachable and duplicate-free.
- **Registry** — the indexing loop over the spliced registry text. It files
  each `GLAPI` and `#define` line under the hash of its name, with spans for
  the line, the return type, the name and the parameters. The first
  occurrence wins. A full table makes the source write through a null pointer;
  here that is the `Crashed` outcome.
- **Usage** — `ParseFile` and `IsKnownOrIgnoredToken`. They do three things:
  - offer each `gl…`/`GL_…` token of each input file to the functions or
    constants table;
  - add it when the registry holds it or the ignore list matches it;
  - otherwise warn, once per occurrence.

  The tables are seeded with `glGetIntegerv`, `GL_MAJOR_VERSION` and
  `GL_MINOR_VERSION`.
- **Sorting** — `TokenComparer` and the library sort, specified by
  `SortDesc`: a permutation ordered by descending hash.
- **Emit** — the header text: preamble, version block, base types, one line
  per discovered symbol the registry holds, loader block, init function, and
  the closing guard.
- **MultiFile** — `ReadMultiFiles`: splice the non-empty registry files,
  replacing each earlier file's last byte and its NUL with two line breaks.
- **Generate** — `GenerateOpenGLHeader` end to end. `Generated(s)` is the
  outcome for settings `s`: `Failed` (returns -1, writes nothing),
  `NullWrite`, `Overread`, or `Written(text, warnings)`.

Three source behaviours are kept on purpose rather than corrected:
- `Equal` is a prefix test.
- `StartsWith` compares only as many bytes as the shorter side has.
- Without the boilerplate the closing guard line is not written. When, in
  addition, no function line is emitted, the header ends with the
  GLDEBUGPROC typedef and its include guard stays open
  (`Emit.HeaderLeavesGuardOpen`).

File contents, whether the output file opens, the write timestamp and the
platform loader block are parameters (`Generate.Settings`).

## Model

| member | source | states |
|---|---|---|
| Strings.GetStringHash | glgen.cpp:406-416 | the loop's result is the left fold `Hash` of the span's bytes from 1; the empty span hashes to 1 |
| Strings.HashFromAppend | glgen.cpp:410-414 | hashing a concatenation continues from the hash of the first part |
| Strings.HashSnoc | glgen.cpp:410-414 | one more byte is one more multiply-xor step |
| Strings.StartsWith | glgen.cpp:476-488 | true iff the token is non-empty and agrees with the prefix on every position both have |
| Strings.AgreeFrom | glgen.cpp:479-486 | the comparison loop from index i succeeds iff every later common position agrees |
| Strings.MatchLength | glgen.cpp:497-505 | the loop stops at the first mismatch, or at the end of the token or of the value |
| Strings.Equal | glgen.cpp:491-509 | true iff the token is non-empty and a prefix of the value |
| Strings.Upper | glgen.cpp:419-424 | same length, each character ASCII-uppercased, no lower-case letter left |
| Strings.UpperCase | glgen.cpp:419-426 | the output array holds the upper-cased name followed by a NUL, and nothing after that changes |
| Lexer.SkipEnd | glgen.cpp:432-435 | the skip loop stops at the first NUL or identifier byte and passes only non-identifier bytes |
| Lexer.RunEnd | glgen.cpp:437-440 | the run loop takes the maximal run of identifier bytes |
| Lexer.LineEnd | glgen.cpp:540-543 | stops at the first NUL or line break, passing neither |
| Lexer.NextToken | glgen.cpp:451-466 | the token is a maximal identifier run after non-identifier bytes; the cursor never goes back or past the NUL; it is empty exactly at the NUL |
| Lexer.NextArbToken | glgen.cpp:429-448 | the same run, lengthened by exactly 2 when a blank and `*` follow it; no NUL inside; it advances unless at the NUL |
| Lexer.Tokenizer.constructor | glgen.cpp:749-750 | a tokenizer starts at offset 0 of the buffer |
| Lexer.Tokenizer.ParseToken | glgen.cpp:451-466 | returns NextToken from the cursor with its hash and moves the cursor to its end |
| Lexer.Tokenizer.ParseArbToken | glgen.cpp:429-448 | returns NextArbToken from the cursor and moves the cursor to its end |
| Lexer.Tokenizer.AdvanceToEndOfLine | glgen.cpp:538-544 | moves the cursor to LineEnd |
| Tables.Home | glgen.cpp:516 | the start slot `hash & 8191` is inside the table |
| Tables.Dist | glgen.cpp:523 | every slot is reached from any home within 8192 probes |
| Tables.ProbeWrap | glgen.cpp:523 | after 8192 probes the probe sequence is back at its home slot |
| Tables.ProbeNext | glgen.cpp:523 | the next probe is one slot on, modulo 8192 |
| Tables.ProbeInjective | glgen.cpp:520-525 | one probe sequence visits no slot twice |
| Tables.DistOfProbe | glgen.cpp:523 | the distance of the k-th probe from its home is k |
| Tables.FirstEmptyStep | glgen.cpp:520-525 | the insertion probe passes only occupied slots and stops at an empty one or after 8192 probes |
| Tables.FindStep | glgen.cpp:587-596 | the lookup probe passes only slots that are occupied by other hashes |
| Tables.Find | glgen.cpp:579-603 | a found slot is in range and holds the non-zero hash looked up |
| Tables.FirstEmptyFromProbe | glgen.cpp:520-525 | the loop as written (index, iteration counter) gives the FirstEmptyStep result |
| Tables.FirstEmptyLoop | glgen.cpp:514-535 | the AddToken loop from `hash & 8191` picks FirstEmpty |
| Tables.FindFromProbe | glgen.cpp:587-600 | the GetToken and Contains loops as written give the FindStep result |
| Tables.FindLoop | glgen.cpp:579-624 | GetToken's loop is Find, and Contains answers Find(...).Some? |
| Tables.ContainsZero | glgen.cpp:606-624 | Contains never reports hash 0 |
| Tables.CountOccupied | glgen.cpp:756-768 | the occupied slots number at most the table size; that the counters `FunctionCount` and `DefinesCount` bound them is part of `Usage.Admits`, kept by `Usage.OfferAdmits` |
| Tables.FirstEmptyNoneIffFull | glgen.cpp:526-533 | insertion finds no slot exactly when all 8192 slots are occupied |
| Tables.InsertWritesFirstEmpty | glgen.cpp:514-535 | insertion writes the first empty slot on the probe path, and no other slot changes |
| Tables.InsertKeeps | glgen.cpp:526-529 | an insertion overwrites no occupied slot |
| Tables.FindKept | glgen.cpp:579-603 | a lookup that succeeds gives the same slot once more slots are filled |
| Tables.FindStepEqual | glgen.cpp:587-596 | a lookup depends only on the slots on its path |
| Tables.FindAfterInsert | glgen.cpp:514-535 | after a non-zero hash is inserted into a table with room, lookup finds it |
| Tables.FindComplete | glgen.cpp:579-603 | in a reachable table, lookup succeeds iff some slot holds the hash |
| Tables.FindReaches | glgen.cpp:587-596 | every occupied slot of a reachable table is found by its own hash |
| Tables.InsertReachable | glgen.cpp:514-535 | insertion keeps every slot reachable by lookup |
| Tables.InsertDistinct | glgen.cpp:821-824 | inserting a hash the table does not hold keeps hashes distinct |
| Tables.InsertSound | glgen.cpp:821-824 | a lookup-guarded insertion keeps the table reachable and duplicate-free |
| Tables.InsertCountBound | glgen.cpp:823-824 | an insertion fills at most one slot |
| Tables.InsertCount | glgen.cpp:823-824 | inserting a non-zero hash with room fills exactly one slot |
| Tables.CountUpdate | glgen.cpp:528 | writing one slot changes the occupied count by that slot only |
| Tables.EmptySound | glgen.cpp:796-798 | a zeroed table is sound, has no occupied slot and holds nothing |
| Tables.EmptyCount | glgen.cpp:796-798 | a zeroed table has no occupied slot |
| Tables.Table.constructor | glgen.cpp:796-798 | a new table has 8192 zeroed slots |
| Tables.Table.ProbeEmpty | glgen.cpp:516-526 | the probe loop returns FirstEmpty |
| Tables.Table.AddToken | glgen.cpp:514-535 | returns the written slot, or none when the table is full; the slots become Insert of the old slots (both overloads) |
| Tables.Table.GetToken | glgen.cpp:579-603 | returns Find of the slots |
| Tables.Table.Contains | glgen.cpp:606-624 | true iff Find succeeds |
| Registry.InitRegistry | glgen.cpp:796-801 | the registry starts empty with count 0 |
| Registry.TypeEnd | glgen.cpp:811-817 | the return type ends after one token, or two when the first is `const`, without passing the NUL |
| Registry.FunctionNameAfter | glgen.cpp:818-819 | the name token lies after the GLAPI token, with no NUL in between |
| Registry.MacroNameAfter | glgen.cpp:842 | the macro name lies after `#define`, with no NUL in between |
| Registry.Complete | glgen.cpp:825-836 | a record's line starts at its first token and ends at the line break or NUL; a GLAPI record's parameters run from the name to the end of the line; a `#define` record leaves the function spans unset |
| Registry.FunctionEntry | glgen.cpp:808-837 | a GLAPI line gives a record of GLAPI shape |
| Registry.MacroEntry | glgen.cpp:839-851 | a `#define` line gives a record of macro shape starting at `#define` |
| Registry.Declare | glgen.cpp:821-851 | a step that does not crash moves the cursor past the name and keeps the table size |
| Registry.ScanStep | glgen.cpp:805-853 | each loop iteration moves the cursor forward |
| Registry.RecordInv | glgen.cpp:821-837 | filing a name the table does not hold keeps the registry invariant and every record, and adds 1 to the count |
| Registry.LineNoNul | glgen.cpp:835-836 | a span of non-NUL bytes has no NUL |
| Registry.TokenAt | glgen.cpp:807 | re-parsing from a token's start gives the same token |
| Registry.DeclareInv | glgen.cpp:821-851 | a declaration step keeps the invariant and every record (first occurrence wins) |
| Registry.ScanStepInv | glgen.cpp:805-853 | one loop iteration keeps the invariant and every record |
| Registry.ScanFromInv | glgen.cpp:805-853 | the whole loop keeps the invariant and every record |
| Registry.IndexRegistrySound | glgen.cpp:803-853 | the indexed registry is sound, and every record is well formed and filed under the hash of its name |
| Registry.EnteredDeclared | glgen.cpp:821-851 | the imperative entry step agrees with Declare |
| Registry.RefillSlot | glgen.cpp:824-836 | inserting the token, then filling in its record, equals inserting the finished record |
| Registry.FinishLine | glgen.cpp:831-836 | completes the record's spans and leaves the cursor at the end of the line |
| Registry.Enter | glgen.cpp:821-837 | the lookup-guarded insertion and record fill-in, as Entered states |
| Registry.StoreRecord | glgen.cpp:824-836 | writes the completed record into the slot AddToken returned, and nothing else |
| Registry.ParseFunctionHead | glgen.cpp:810-819 | reads the return type and the name as TypeEnd and FunctionNameAfter say |
| Registry.ParseReturnType | glgen.cpp:811-817 | the return-type span ends at TypeEnd |
| Registry.FunctionNameAfterLine | glgen.cpp:818-836 | the GLAPI record is Complete on the parsed name and return type |
| Registry.IndexFunction | glgen.cpp:808-837 | a GLAPI line is declared as Declared states (filed once, crash on a full table) |
| Registry.IndexMacro | glgen.cpp:839-851 | a `#define` line is declared as Declared states |
| Registry.IndexLine | glgen.cpp:805-853 | one iteration of the indexing loop is ScanStep |
| Registry.BuildRegistry | glgen.cpp:796-853 | the indexing loop gives IndexRegistry: the registry table and count, or the crash |
| Usage.ThirdCharOverread | glgen.cpp:754 | the token `g` just before the NUL passes StartsWith "gl", and the third-byte read falls one past the buffer |
| Usage.FunctionTokenIntended | glgen.cpp:754 | on every token but the lone `g`, the function-token test accepts exactly the tokens of at least three bytes that are `gl` and an upper-case letter; the lone `g` is not such a token |
| Usage.LoneLetterAccepted | glgen.cpp:754 | in `g(X` the lone `g` passes the function-token test although it is not a function name |
| Usage.FunctionTokenShape | glgen.cpp:754 | a function candidate is `gl` plus an upper-case letter inside a longer token; a lone `g` is accepted on the byte two places on; where that byte exists, the test is the one written |
| Usage.IsKnownOrIgnoredToken | glgen.cpp:712-737 | true iff the registry finds the hash or some ignore entry Equal-matches the token |
| Usage.Offer | glgen.cpp:756-768 | offering keeps the table size |
| Usage.OfferToken | glgen.cpp:756-768 | a held hash changes nothing; a resolved new one is inserted and counted; an unresolved one is warned about |
| Usage.CollectStep | glgen.cpp:753-769 | one loop iteration keeps both tables at 8192 slots |
| Usage.CollectFrom | glgen.cpp:751-770 | the loop keeps both tables at 8192 slots |
| Usage.CollectFile | glgen.cpp:745-779 | reading a whole file keeps both tables at 8192 slots |
| Usage.ParseFile | glgen.cpp:740-779 | succeeds iff the file reads; the tables, counts and warnings become CollectFile's |
| Usage.OfferCandidate | glgen.cpp:753-769 | one loop iteration is CollectStep |
| Usage.AddCustomToken | glgen.cpp:568-576 | inserts the hash of the string |
| Usage.EmptySlots | glgen.cpp:797-798 | a calloc'ed table: 8192 empty slots |
| Usage.SeedsFound | glgen.cpp:855-863 | each seed with a non-zero hash is found after seeding |
| Usage.Room | glgen.cpp:855-863 | a table with two free slots has room for two seeds |
| Usage.SeedsConsistent | glgen.cpp:855-863 | the seeded tables satisfy the collection invariant |
| Usage.OnlySeeds | glgen.cpp:855-863 | inserting seeds keeps only seed hashes in a table |
| Usage.OfferAdmits | glgen.cpp:756-768 | offering a candidate keeps the table invariant (only resolved candidates or seeds, no duplicates, the count bounds the occupied slots), keeps every slot, and warns only about unresolved tokens |
| Usage.CollectStepConsistent | glgen.cpp:753-769 | one iteration keeps the invariant and every slot |
| Usage.NoteUnresolved | glgen.cpp:730-734 | the warning list names only unresolved candidates |
| Usage.CollectFromConsistent | glgen.cpp:751-770 | the loop keeps the invariant and every slot |
| Usage.CollectFileConsistent | glgen.cpp:745-779 | a whole file keeps the invariant and every slot |
| Usage.CollectStepWarnings | glgen.cpp:753-769 | one token adds exactly one warning, naming it, when it is a `gl` candidate the functions table does not hold or a `GL_` candidate the constants table does not hold, and it is unresolved; otherwise the warnings are unchanged |
| Usage.HeldHash | glgen.cpp:756-768 | every hash a discovered table holds is a seed's, one the registry finds, or that of a token the ignore list resolves |
| Usage.Unresolveds | glgen.cpp:751-770 | the candidates from a position to the NUL that neither the registry nor the ignore list resolves are all unresolved candidates |
| Usage.StepWarnsExactly | glgen.cpp:753-769 | under the invariant, one token warns exactly when it is an unresolved candidate, unless its hash is shadowed by a seed or an ignored token |
| Usage.WarnStep | glgen.cpp:751-770 | one iteration keeps the invariant and the no-shadowing hypothesis for the rest of the text, and notes the token's warning if it is an unresolved candidate |
| Usage.CollectFromWarnings | glgen.cpp:751-770 | with no shadowed hash, the loop's warnings are exactly the unresolved candidates of the text, once per occurrence and in order |
| Usage.CollectFileWarnings | glgen.cpp:745-779 | with no shadowed hash, a file's warnings are exactly its unresolved candidates, in order; an unreadable file adds none |
| Usage.Resolveds | glgen.cpp:751-770 | the candidates for one table from a position to the NUL that the registry or the ignore list resolves, in order; each starts with the table's prefix and is resolved |
| Usage.StepDiscovered | glgen.cpp:753-769 | one token is offered to the functions table exactly when it is a `gl` candidate and to the constants table exactly when it is a `GL_` candidate; otherwise that table is unchanged |
| Usage.OfferDraws | glgen.cpp:756-768 | an offer changes no occupied slot, and fills a slot only with the offered token, under its own hash, when the token resolves |
| Usage.CollectStepDraws | glgen.cpp:753-769 | one iteration changes no occupied slot of either table, and fills a slot only with the token it reads, when that token is a resolved candidate for the table |
| Usage.CollectStepHolds | glgen.cpp:753-769 | after one iteration, a resolved candidate with a non-zero hash can be looked up in its table, unless that table was full |
| Usage.CollectFromDraws | glgen.cpp:751-770 | the loop changes no occupied slot, and every slot it fills holds one of the text's resolved candidates under that candidate's hash |
| Usage.CollectFromHolds | glgen.cpp:751-770 | unless the table ends up full, the loop leaves every resolved candidate of the text with a non-zero hash in its table |
| Usage.CollectFileHolds | glgen.cpp:740-779 | a file changes no occupied slot, fills slots only with its resolved candidates, and, unless the table ends up full, leaves every one of them with a non-zero hash in the table; an unreadable file changes nothing |
| Sorting.Key | glgen.cpp:631-635 | the unsigned hash is 0 only for the empty slot |
| Sorting.TokenComparerSign | glgen.cpp:626-640 | negative iff the first hash is larger, zero iff equal, antisymmetric; an empty slot never goes first |
| Sorting.TokenComparerOrder | glgen.cpp:626-640 | the order is transitive |
| Sorting.InsertDesc | glgen.cpp:871-872 | insertion adds exactly that slot: one longer, the same multiset plus it |
| Sorting.InsertFrom | glgen.cpp:871-872 | every slot after insertion is the new one or an old one |
| Sorting.SortedTail | glgen.cpp:871-872 | the tail of a sorted table is sorted |
| Sorting.PrependSorted | glgen.cpp:871-872 | a larger-or-equal hash goes in front |
| Sorting.InsertSorted | glgen.cpp:871-872 | insertion keeps a table sorted |
| Sorting.SortDesc | glgen.cpp:871-872 | the sorted table is a permutation of the table, ordered by descending hash, with the same occupied count |
| Sorting.StrictTail | glgen.cpp:871-872 | the tail of a strictly ordered table is strictly ordered |
| Sorting.PrependStrict | glgen.cpp:871-872 | a new, larger hash goes in front of a strict table |
| Sorting.InsertAvoids | glgen.cpp:871-872 | insertion brings in no hash that neither side had |
| Sorting.InsertStrict | glgen.cpp:871-872 | inserting a new or empty hash keeps the order strict |
| Sorting.SortStrict | glgen.cpp:871-872 | a table with no non-zero hash twice sorts into strictly descending hashes, then empty slots |
| Sorting.OccupiedPrefix | glgen.cpp:871-872 | after sorting, the occupied slots are exactly the first CountOccupied ones |
| Sorting.QSort | glgen.cpp:871-872 | the array becomes SortDesc of its old slots |
| Emit.Decimal | glgen.cpp:885-886 | the `%llu` rendering is non-empty and all digits |
| Emit.DecimalValue | glgen.cpp:885-886 | the digits read back as the number, with no leading zero |
| Emit.InvFits | glgen.cpp:946-1119 | every span of an indexed record lies in the registry buffer, with one byte after the line |
| Emit.MacroLineVerbatim | glgen.cpp:953 | a constant's line is its declaration verbatim plus the byte that ended it (a line break, or the NUL on the last line) |
| Emit.TypedefCarriesDeclaration | glgen.cpp:968-976 | the typedef is `typedef <return type> (APIENTRYP PFN<NAME>PROC) <rest of the line>` plus one line break, and the rest holds no line break |
| Emit.FunctionLinesName | glgen.cpp:984-1118 | the alias, pointer and init lines of a GLAPI record name the function filed under that hash |
| Emit.Emitted | glgen.cpp:946-955 | only occupied registry slots are emitted |
| Emit.Rendered | glgen.cpp:962-977 | one line per registry slot |
| Emit.LinesSnoc | glgen.cpp:962-977 | one more found slot appends its line |
| Emit.EmittedFound | glgen.cpp:946-955 | a slot is emitted iff GetToken finds it for one of the first Count discovered hashes |
| Emit.EmittedWitness | glgen.cpp:946-955 | an emitted slot is the one GetToken finds for some of the first Count discovered hashes |
| Emit.EmittedHas | glgen.cpp:946-955 | the slot GetToken finds for any of the first Count discovered hashes is emitted |
| Emit.SnocDescending | glgen.cpp:962-977 | appending a smaller hash keeps the emitted order descending |
| Emit.SnocOnce | glgen.cpp:962-977 | appending a new hash keeps each emitted slot once |
| Emit.EmittedAtLeast | glgen.cpp:962-977 | every emitted slot's hash is at least that of the next sorted token |
| Emit.EmittedDescending | glgen.cpp:962-977 | over a sorted table, sections come out in descending hash order |
| Emit.NextDescending | glgen.cpp:962-977 | one more sorted token keeps the emitted slots in descending hash order |
| Emit.AppendDescending | glgen.cpp:962-977 | the slot found for the next sorted token extends the descending order |
| Emit.EmittedOnce | glgen.cpp:962-977 | over a strictly ordered table, each registry slot comes out at most once |
| Emit.EmittedComplete | glgen.cpp:962-977 | when Count covers the occupied slots, every discovered symbol the registry holds is emitted |
| Emit.SectionLines | glgen.cpp:946-955 | a section is the lines of the emitted slots, in order |
| Emit.EmitOne | glgen.cpp:948-954 | one loop iteration appends that slot's line, if any |
| Emit.EmitSection | glgen.cpp:946-955 | the loop writes Section |
| Emit.PreambleOpens | glgen.cpp:881-886 | the preamble starts with the include guard |
| Emit.InitTailCloses | glgen.cpp:1121-1133 | the init tail ends with the closing guard |
| Emit.FixedFramed | glgen.cpp:881-1133 | the generator's fixed text frames the guard |
| Emit.HeaderOpensGuard | glgen.cpp:881-886 | every header starts with `#ifndef INCLUDE_OPENGL_GENERATED_H` |
| Emit.ClosingClosesGuard | glgen.cpp:979-1133 | the boilerplate part ends with the closing guard |
| Emit.HeaderClosesGuard | glgen.cpp:979-1133 | with boilerplate, the header ends with the closing guard |
| Emit.HeaderLeavesGuardOpen | glgen.cpp:958-979 | without boilerplate and with no function lines, the header ends with the GLDEBUGPROC typedef and never closes the guard |
| Emit.WriteHeader | glgen.cpp:874-1133 | the emission loops write Header |
| MultiFile.Add | glgen.cpp:674-706 | adding a file keeps the buffer NUL-terminated and never shorter |
| MultiFile.Splice | glgen.cpp:670-708 | the spliced buffer is empty or ends in a NUL |
| MultiFile.Present | glgen.cpp:678-694 | only opened, non-empty files contribute |
| MultiFile.Joined | glgen.cpp:685-693 | the joined text ends in a NUL |
| MultiFile.JoinedSnoc | glgen.cpp:685-693 | a later file replaces the previous last byte and NUL with two line breaks, then ends in its own NUL |
| MultiFile.SplicedJoined | glgen.cpp:670-708 | the splice is empty iff no file contributes, and is otherwise the join of the contributing files |
| MultiFile.JoinedOneNul | glgen.cpp:685-691 | the joined buffer has exactly one NUL, at its end |
| MultiFile.ReadMultiFiles | glgen.cpp:670-708 | the loop returns Spliced: none when nothing contributed |
| Generate.ReadEntire | glgen.cpp:642-668 | an empty or unopenable file reads as none; otherwise as its contents |
| Generate.CollectAll | glgen.cpp:865-869 | collection over all inputs keeps both tables at 8192 slots |
| Generate.Seeded | glgen.cpp:855-863 | the seeded counts are 1 and 2, with no warnings |
| Generate.PrefixOf | glgen.cpp:875-879 | no prefix means the empty prefix |
| Generate.CollectAllConsistent | glgen.cpp:865-869 | collection over all inputs keeps the invariant |
| Generate.SeededConsistent | glgen.cpp:855-869 | from the seeds, the collected tables and warnings satisfy the invariant, with the three seeds as the only exceptions |
| Generate.RunFails | glgen.cpp:785-794 | returns -1 exactly without inputs, an output file or registry text; crashes exactly when indexing fills the registry |
| Generate.RunReads | glgen.cpp:785-805 | a run that gets past the checks indexes the spliced registry text |
| Generate.FromDataGuarded | glgen.cpp:881-1133 | a written header opens the guard, and closes it with boilerplate |
| Generate.RunGuarded | glgen.cpp:783-1155 | every written header opens the include guard, and closes it when the boilerplate is on |
| Generate.FromDataWarnings | glgen.cpp:712-737 | each warning is a `gl`/`GL_` token that is not ignored and whose hash the registry does not hold |
| Generate.RunWarnings | glgen.cpp:732-733 | every warning of a written header names an unregistered, unignored candidate |
| Generate.CollectAllWarnings | glgen.cpp:865-869 | with no shadowed hash, the warnings over all inputs are exactly their unresolved candidates, file after file, once per occurrence |
| Generate.SeededWarnings | glgen.cpp:855-869 | from the seeded tables, with no candidate shadowed by a seed or an ignored token, the warnings are exactly the unresolved candidates of the inputs |
| Generate.RegistryOf | glgen.cpp:805-853 | indexing yields registry slots exactly when it does not crash, and then 8192 of them |
| Generate.FromDataCollects | glgen.cpp:865-1139 | a written header carries the warnings collected over the registry the text builds |
| Generate.FromDataWarningsExact | glgen.cpp:730-734 | once the registry text is read, a written header's warnings are exactly the inputs' unresolved candidates, in order, when none is shadowed |
| Generate.RunWarningsExact | glgen.cpp:730-734 | a written header warns exactly about the inputs' unresolved candidates, once per occurrence and in order, when none shares its hash with a seed or an ignored token |
| Generate.CollectAllDraws | glgen.cpp:865-869 | collection over all inputs changes no occupied slot, and every slot it fills holds a resolved candidate of the inputs under that candidate's hash |
| Generate.CollectAllHolds | glgen.cpp:865-869 | unless the table ends up full, collection over all inputs leaves every resolved candidate of theirs with a non-zero hash in its table |
| Generate.SeededSlots | glgen.cpp:855-863 | seeding occupies slots of the seeds only, and holds each seed with a non-zero hash |
| Generate.SeededHolds | glgen.cpp:855-869 | after seeding and collection, unless the table ends up full, it holds a non-zero hash exactly when that is a seed's hash or the hash of a resolved candidate of the inputs |
| Generate.FoundExactly | glgen.cpp:946-955 | over a table holding exactly the seeds and some tokens, a registry slot is looked up by a held hash exactly when a seed or one of the tokens looks it up |
| Generate.SeededEmitted | glgen.cpp:855-977 | from the seeded tables, unless the table ends up full or its count passes 8192, the sorted emission writes one line per registry slot that a seed or a resolved candidate of the inputs looks up, and no other |
| Generate.PermutedFinds | glgen.cpp:871-872 | sorting does not change which registry slots the discovered symbols find |
| Generate.DiscoveredEmitted | glgen.cpp:871-977 | after sorting, a registry slot is emitted iff some discovered symbol finds it, in descending hash order |
| Generate.SeedTables | glgen.cpp:855-863 | seeding gives Seeded |
| Generate.CollectInputs | glgen.cpp:865-869 | the input loop gives CollectAll |
| Generate.SortTables | glgen.cpp:871-872 | both tables become SortDesc of themselves |
| Generate.Emission | glgen.cpp:874-1135 | emission gives Finish |
| Generate.IndexAndEmit | glgen.cpp:796-1135 | indexing, seeding, collection, sorting and emission give FromData |
| Generate.GenerateOpenGLHeader | glgen.cpp:783-1155 | the whole function gives Generated(s) |

## Left out

- The command line, help text, timestamp comparison and `main` are not modelled. The write timestamp is the parameter `Settings.timestamp`.
- File I/O (`fopen`, `fseek`, `fread`, `fclose`) is not modelled. File contents are `Option<seq<char>>`, with `None` for a file that cannot be opened.
- The stderr messages are not modelled. The `WARNING` lines are the `warnings` list, and the `printf` summary and colour codes are dropped.
- The output file is modelled only through `Settings.outputOpens`. The source truncates it even when it returns -1; the model writes nothing in that case.
- The platform loader block (the `_WIN32`/Apple/dlopen template with its prefix substitutions) is the parameter `Settings.loader`, because it is constant text.
- The C library `qsort` is specified by `SortDesc` and written as a copy of the sorted sequence. The in-place exchanges are not modelled.
- The 512-byte `sprintf` buffers are unbounded here. A name or declaration line longer than the buffer overflows in C and is not modelled.
- The `assert(Token->Hash)` at glgen.cpp:949 is a debug check. The model does not stop on it: an empty slot simply finds nothing.
- Registry.IndexFunction: a full registry is an explicit `Crashed`/`NullWrite` outcome, not a "table not full" precondition, because the source writes through the null pointer AddToken returns.
- Usage.OfferToken: the 32-bit counters `FunctionCount` and `DefinesCount` are `nat`. The tables do not bound them: a resolved token is counted even when a full table drops it (glgen.cpp:758-759, 766-767, 560-563), and a resolved token with hash 0 is counted at every occurrence, since `Contains` never finds hash 0 (glgen.cpp:612-621). A wrap needs 2^32 counted occurrences; after one, the C emission loops would run over a small count where the model reports `Overread`.
- Usage.CollectStep: a byte read past the buffer by the third-byte test counts as not upper case.
- Generate.RunWarningsExact: exactness is proved only when no unresolved candidate shares its hash with a seed or with a prefix of an ignore-list entry. With such a collision the source may skip the warning, because the table already holds the hash; the model follows it, and `Generate.RunWarnings` still shows that every warning is unresolved.
- Generate.Seeded: the concrete hashes of the three seed names are not evaluated. The lemmas hold for any seed hashes, so the seed tables are stated as Insert of their hashes.
- Generate.SeededHolds: a resolved candidate is proved held only while its table keeps an empty slot. A full table drops a token silently (glgen.cpp:560-563), and a token with hash 0 is never held, since lookups skip hash 0 (glgen.cpp:612-621).
- Generate.SeededEmitted: the emitted sections are characterised for the collected tables, not restated for the text of a whole run; `Generate.FromData` emits exactly these sections.
- Generate.DiscoveredEmitted states order and completeness but not that each slot is emitted once. `Emit.EmittedOnce` needs a strictly ordered table, and the seeds are not proved distinct from each other.
- Usage.AddCustomToken: the uninitialised `Value` of a seed token (glgen.cpp:570-575) is modelled as the empty text. Nothing reads it.
- Spans point into the registry buffer while it is alive. `free(ArbData)` and the resulting dangling pointers are not modelled.

## Findings

| source | as written | input that shows it | evidently intended | confidence | as-written member | corrected member |
|---|---|---|---|---|---|---|
| glgen.cpp:754 | `IsUpperCase(Token.Value.Chars[2])` reads the byte two past the token start, whatever the token's length | `g(X` in an input file: StartsWith "gl" accepts the lone `g`, and the test reads the `X` of the next token; a `g` right before the NUL makes the read fall one past the buffer | a function candidate is a token of at least 3 bytes, `gl` and then an upper-case letter, and nothing outside the buffer is read | not executed | Usage.ThirdIsUpperAsWritten, Usage.ThirdCharOverread, Usage.LoneLetterAccepted | Usage.IntendedFunctionToken, Usage.FunctionTokenIntended, Usage.ThirdIsUpper |

The collection loop keeps the source's test wherever the byte it reads lies
inside the buffer, so that its tables and warnings are the program's; the
intended test is stated beside it, and `Usage.FunctionTokenIntended` shows
the two differ only on the lone `g`.
