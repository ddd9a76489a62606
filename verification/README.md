# Verified models of the build tools' algorithms

This project models, in Dafny, the parts of the repository that are algorithms over changing state, and proves
what they keep, restore and promise. There are four groups.

**The global-to-static driver, `config/gtscc.c`.** It keeps a hashed table of symbols whose entries point at
shared object records, which point at source records. It loads the table from a text data base, reads
assembler files (commenting out exports and merging object records), reads object files (counting users), sums
up, plans which objects to rebuild, rebuilds them until a target is met, and writes the data base back.

- `GtsTable`, `GtsStore`, `GtsRewrite`, `GtsReader`, `GtsForce` and `GtsRecompile` hold the program as it runs: classes
  with bucket heads, `next` chains, `recompile` links and counters that methods and map callbacks update in place.
  `EhSymTable.W()` reads the whole state off as a value, a `GtsWorld.World`, in which a pointer is a position.
- `GtsWorld`, `GtsOrder`, `GtsPasses`, `GtsUsers`, `GtsZap`, `GtsPlanning`, `GtsSchedule`, `GtsRebuild` and `GtsDatabase`
  say what each step does to that value, and every heap method is proved to do exactly that. The theorems about whole
  passes and files are proved there, and in `GtsOwn` and `GtsExports` (which lines are the source's, and what becomes of
  a name), `GtsOwners` (what an object file does to each symbol), `GtsLines` and `GtsLoading` (what lines of the data
  base are taken for, and what they do to a table), `GtsRoundTrip`, `GtsSharing`, `GtsTies` and `GtsOneSource` (which
  symbols share an object), `GtsTarget` (whether rebuilding meets the target) and `GtsOutcome` (what a rebuild comes
  to); `GtsRuns` is about any sequence of operations. `GtsSort` stands for the C library's `qsort`.

**The manifest compiler, `config/mantomak.c`.** `Manifest` says what the two scanners and the writer compute on a
text, `ManifestScan` has them as loops, `ManifestLines` tells by the characters where lines end and values start,
`ManifestAgree` relates the scanners to each other, `ManifestRoundTrip` relates them to the writer, and `ManifestFile`
is about the written file as make reads it, with its `!if` and `!endif` lines.

**Relative paths, `config/pathsub.c`.** `Paths` and `Reverse` give paths a meaning (the directory they lead to, as
the list of names from the root) and prove that the link texts that `relatepaths` and `reversepath` write into
their buffers lead to the right place.

**Two containers.** `Ring` is the circular list of `include/ds.h`; `GrowArray` is the growable array and the stack
of `include/garray.h`.

What the proofs show about the code:

- `EhSourceZapFp` compares the name of a file directive with a placeholder, "non local file", once another file has
  been named, so from then on the lines of the source itself are not recognised again unless a directive names the
  placeholder (`GtsOwn.NeverOwnAgain`). The pass knows at every line whether it is in the source if and only if no
  directive returns from another file to the source, or to the placeholder, or the source itself is called like the
  placeholder (`GtsOwn.OwnFollowsDirectives`). In C++ all later exports are then commented out and their symbols become
  inline (`GtsOwn.LaterExportsVanish`; an input is in `GtsOwn.ReturnFromHeaderIsMissed`).
- Of a symbol that the command line forces to be static, but that has no object yet, the next pass over assembler
  leaves the first export alone if it lies in the source itself or the source is not C++, because the pass looks before
  it gives the symbol an object; it comments out every later one (`GtsForce.ForcedStatic`, exactly;
  `GtsForce.FirstExportEscapes` has an input).
- The comparison of the dump does not tell objects of one source apart, so their symbols may be written in turns, and
  are then loaded into more objects than there were (`GtsTies.TiesLoseSharing` has an input). A table is sure to get
  its sharing back from any order that `qsort` may choose if and only if there are no two persisted symbols of one
  object and a flushed symbol of another object with the same source (`GtsTies.SharingOfTable`). The driver makes a new
  source record for every file it reads (config/gtscc.c:2657), and writes data bases before it rebuilds anything
  (2273, 2742), so every data base that it writes restores the sharing (`GtsRuns.DriverRestoresSharing`). Reading the
  same source record again could break this, exactly when the file exports a real global but none of the symbols of
  some object that has the source (`GtsOneSource.AssembleKeepsOne`, `GtsOneSource.OwnersExportBeforehand`,
  `GtsOneSource.RereadingBreaksIt`).
- Reaching the goal of the rebuild loop does not mean that the target is met. A report also counts exports of symbols
  that were zapped before, which were not among the globals to begin with, and rebuilds also bring symbols back. The
  target is met exactly when the reports exceed what was missing by both of these; so it is when no symbol that the
  rebuilt objects own or export was zapped before (`GtsTarget.LoopMeetsTarget`). `GtsTarget.OldZapsMissTarget` has an
  input on which the loop stops too early.
- An object file learns its source only from the records without a name that assembler and the data base make: the
  first file that defines a symbol of such a record takes over its source and all its symbols, unless another record
  has given it a different source before (`GtsOwners.FileOwners`, exactly).
- A data base that is loaded into a table with symbols changes their states only; a symbol that the command line has
  made keeps having no owner, although the data base lists it below a source (`GtsLoading.KnownLoaded`,
  `GtsLoading.ListedAgain`).
- `recompile_compare` is an order when every source has a directory. With a source that has none it is an order
  exactly when no preference list can tell two directories apart (`GtsSchedule.OrderWithoutDirectories`); the
  three records that break it are built in `GtsSchedule.DirectorylessBreaksOrder`.
- A macro line without an `=` of its own gets the values of the next line that has one
  (`ManifestAgree.MacroReadsItsLine`; an input is in `ManifestAgree.MissingEqualsBorrows`). A value that starts with `#`
  on a continued line ends the values early, and exactly then may the two scanners disagree
  (`ManifestAgree.ScannersAgree`; an input is in `ManifestAgree.CommentCutsLineShort`).
- `GuaranteeSize` reallocates to the same size when the capacity equals the size asked for. A run of additions
  still copies at most 4n pointers (`GrowArray.AddRunBound`), but an array one element short of its capacity that
  alternates between an addition and a deletion is copied whole for every addition (`GrowArray.ChurnCopiesAll`). What
  any run of additions and deletions copies is known exactly (`GrowArray.EditAll`).
- `relatepaths` writes `//` for the root, because it tests the terminator and not the last character for a slash.
  Here several slashes mean what one does.
- `reversepath` needs no assumption that the path stays below the root: `..` is harmless there.

Preconditions that the code assumes are `requires` clauses: a data base only has words for names and arguments, no
name that starts with `!`, no white space in directories, an `-o` only where `EhSourceNew` expects one, at least one and
at most 511 arguments (`GtsRoundTrip.Dumpable` and `GtsRoundTrip.Writable`; times may be negative, and the directory "."
comes back as none); macro names and values are
such as the scanner can read (`ManifestRoundTrip.GoodMacro`); the directory a link is put in is canonical, as
`getcwd` returns it (the other path may be any absolute path).

## Model

| member | source | states |
|---|---|---|
| CText.StrCmpTransitive | config/gtscc.c:2164-2171 | `strcmp` is transitive, and strictly so when one of its premises is strict |
| CText.StrCmpIsDictionary | config/gtscc.c:2164-2171 | it is negative exactly when one string is a proper prefix of the other or has the smaller character where they first differ |
| CText.DecimalRoundTrip | config/gtscc.c:834 | what `%d` writes for a time is one word, and `atoi` reads the same number back, negative times included |
| CText.AtoiReads | config/gtscc.c:725-726 | `atoi` reads a number that blanks and a sign precede, and stops at the first other character |
| CText.NumbersAreDecimal | config/gtscc.c:834 | numbers as they are written and read |
| GtsWorld.Find | config/gtscc.c:453-458 | the un-hashed list gives the latest insert of a name, and nothing only if no symbol has that name |
| GtsWorld.FindAfterInsert | config/gtscc.c:430-431 | an insert hides older entries of its own name and no others |
| GtsOrder.MaskIsRemainder | config/gtscc.c:423-425 | masking a hash with a power of two less one is the remainder, so it always picks a bucket |
| GtsOrder.WalkMeetsEachOnce | config/gtscc.c:464-483 | walking the buckets in turn, each from its head, meets every symbol exactly once, whatever the hash, and within a bucket the latest insert first |
| GtsOrder.TotalIsSum | config/gtscc.c:464-483 | a total taken over a table walk does not depend on how the symbols were hashed |
| GtsPasses.MapVisitsEachOnce | config/gtscc.c:464-483 | unless a callback returns -1 the map hands it every symbol of the table exactly once |
| GtsPasses.WalkStopped | config/gtscc.c:477-478 | after a callback has returned -1 nothing further happens |
| GtsPasses.FixupPass | config/gtscc.c:490-515 | the fix-up pass redirects exactly the symbols of the old object, in whatever order the buckets are walked |
| GtsTable.EhSymTable.constructor | config/gtscc.c:398-417 | the size is the smallest power of two that is not below the size asked for, or 16K |
| GtsTable.EhSymTable.Index | config/gtscc.c:423-425 | the bucket index is in range |
| GtsTable.EhSymTable.Insert | config/gtscc.c:419-436 | heads, chains and count stay consistent, and the table becomes what the plain list becomes |
| GtsTable.EhSymTable.Find | config/gtscc.c:438-459 | the hashed lookup gives the symbol that the plain list gives, or NULL when that has none |
| GtsTable.EhSymTable.Map | config/gtscc.c:463-483 | the state and the argument block end up as after one callback for each symbol of the walk, up to the first that returns -1 |
| GtsTable.EhSymTable.Apply | config/gtscc.c:490-499 | each callback does to one symbol what its step says, and nothing to any other |
| GtsTable.EhSymTable.ObjectFixup | config/gtscc.c:501-515 | every symbol of the old object belongs to the new one, and nothing else changes |
| GtsTable.EhSymTable.WalkIsOnce | config/gtscc.c:464-483 | in every valid table the walk lists each symbol once |
| GtsTable.EhSymTable.RecompileMappeeStep | config/gtscc.c:2059-2095 | the callback flips a state, enlists the owner and counts as the plan says |
| GtsTable.EhSymTable.SummaryMappeeStep | config/gtscc.c:1280-1306 | the callback raises exactly the counter that a symbol falls under |
| GtsUsers.EntriesCountUsers | config/gtscc.c:1006-1137 | an object file raises the table's global users by its undefined global entries and its local users by the relocations that name its defined globals, inlines left out, and makes no symbol inline or not inline |
| GtsUsers.FilesCountUsers | config/gtscc.c:2714-2720 | over a whole link line the counts are those of the files, judged by the inlines known at the start |
| GtsUsers.EntriesKeepSharing | config/gtscc.c:1043-1079 | symbols that share an object keep sharing one whatever object file is read |
| GtsUsers.EntriesKeepSources | config/gtscc.c:1047-1069 | no symbol loses or changes its source when its object is replaced by the one read |
| GtsUsers.DefinedEntriesAreOwned | config/gtscc.c:1041-1086 | every global that a file defines, inlines left out, ends up defined and owned by an object |
| GtsUsers.ObjectUsers | config/gtscc.c:2043-2049 | after the pass each object has as many users as its symbols have global users |
| GtsOwners.AllRefsCount | config/gtscc.c:1088-1111 | the relocations of a symbol are all entries of all tables that name it, each once |
| GtsOwners.NameRead | config/gtscc.c:1006-1136 | each symbol gets one global user for every entry of the file that refers to its name and one local user for every relocation naming an entry that defines it, and is defined if there is one; an unknown one is added, and inlines are left alone |
| GtsOwners.FileOwners | config/gtscc.c:1041-1086 | the file gets one new record with its name and the first source handed over to it; a symbol without an owner that it defines joins that record, all symbols of a nameless record that it meets do unless it has been given another source, and any other symbol keeps its owner; no other record changes |
| GtsOwners.RecordGivesAll | config/gtscc.c:1047-1066 | a data base record that the file meets gives it its source and all its symbols if no other source comes in, and the file can then be rebuilt if it has a name |
| GtsOwners.FilesRecords | config/gtscc.c:2713-2720 | on a link line every file gets its record, in order, and no earlier record changes |
| GtsOwners.FirstDefinerOwns | config/gtscc.c:1043-1046 | a symbol without an owner belongs to the first file of the line that defines it, and stays there if that file has a name |
| GtsReader.CountRefs | config/gtscc.c:1088-1111 | the loops count each relocation of each table that names the symbol |
| GtsReader.Claim | config/gtscc.c:1045-1079 | an undefined symbol joins the file's object; a data base object hands over its source and all its symbols unless the sources differ; any other owner stays |
| GtsReader.ProcessEntry | config/gtscc.c:1006-1136 | one entry of the file's symbol table has the effect specified for it |
| GtsReader.ProcessObject | config/gtscc.c:1004-1140 | so do all of them in order |
| GtsReader.ProcessFiles | config/gtscc.c:2713-2720 | so does a whole link line, with a new object for each file |
| GtsRecompile.CountUsersPass | config/gtscc.c:2722-2723 | the heap pass is the pass `ObjectUsers` speaks of |
| GtsRewrite.TestForFile | config/gtscc.c:1417-1440 | the scan finds the quoted name of a file directive, or that there is none |
| GtsRewrite.ZapReal | config/gtscc.c:1507-1520 | a real global joins the file's object; if it has another one, that takes over with all symbols gathered so far |
| GtsRewrite.ZapLine | config/gtscc.c:1461-1530 | one line has its specified effect on table, cursor and output |
| GtsRewrite.EhSourceZapFp | config/gtscc.c:1442-1536 | so does a whole file: the table, the text and the returned count are those of the line-by-line specification |
| GtsZap.GlobalExactly | config/gtscc.c:1404-1415 | exactly the lines that are the literal directive of the assembler's dialect and a name are global directives of that name |
| GtsZap.FileExactly | config/gtscc.c:1417-1440 | exactly the Irix lines that start with the literal directive and have a name between their first two quotes are file directives of that name |
| GtsZap.LinesKeepRest | config/gtscc.c:1480-1523 | reading assembler changes no name and no user, of an object nothing but its source, and no source |
| GtsZap.LineText | config/gtscc.c:1480-1523 | a line is commented out exactly when it exports a symbol that is inline from then on or is recorded as zapped with an object |
| GtsZap.LinesText | config/gtscc.c:1461-1535 | the output has the input's lines in order, each unchanged or commented out as it should be; the count is that of the commented exports whose symbol is not inline |
| GtsOwn.OwnRun | config/gtscc.c:1468-1473 | whether lines count as the source's own depends on the file directives only |
| GtsOwn.NeverOwnAgain | config/gtscc.c:1468-1473 | once another file has been named no line counts as the source's own, up to the first directive that names the placeholder, behind which lines do |
| GtsOwn.OwnFollowsDirectives | config/gtscc.c:1468-1473 | the pass knows at every line whether it is in the source if and only if no directive returns to the source or the placeholder from another file, or the source is called like the placeholder |
| GtsOwn.InlineForGood | config/gtscc.c:1480-1490 | a symbol that is inline stays inline to the end of the file |
| GtsOwn.LaterExportsVanish | config/gtscc.c:1468-1493 | in C++ every export behind the name of another file is commented out, and its symbol ends up inline, though a directive in between returned to the source |
| GtsExports.NameRun | config/gtscc.c:1480-1520 | what a file does to the symbol of a name, from the table before and the directives alone: its place stays, it is inline if it was or an export lies in an included C++ file, and it has an object if it had one or its first export is real |
| GtsExports.TreatedInline | config/gtscc.c:1480-1490 | an export is treated as an inline's exactly when the name was inline before, or an export up to here lies in an included C++ file |
| GtsExports.GatheredExactly | config/gtscc.c:1495-1520 | an old symbol joins the file's object as a real global exactly when its name was not inline and the name's first export does not lie in an included C++ file |
| GtsExports.GatheredNothing | config/gtscc.c:1495-1520 | no symbol does exactly when there is no such name |
| GtsOwn.ReturnFromHeaderIsMissed | config/gtscc.c:1468-1493 | a file on which that happens |
| GtsZap.ObjectsUnified | config/gtscc.c:1507-1520 | all real globals of a file end up in one object whose source is the file; an older symbol moves there exactly when it or a symbol of its object was among them; sharing is never lost |
| GtsZap.LinesUnify | config/gtscc.c:1507-1520 | that holds after every line, for the object that stands for the file so far |
| GtsStore.ParseArgs | config/gtscc.c:705-720 | the argument loop finds the blank-separated words, or fails where it would run past the line or the 511 arguments |
| GtsStore.ParseLine | config/gtscc.c:609-720 | the scanner recognises the kind of a line and its fields |
| GtsLines.SymbolLinesExactly | config/gtscc.c:609-639 | exactly the lines with blanks, a name, white space and a tag that starts with G, Z or I are symbol lines, whatever comes behind |
| GtsLines.TaggedLine | config/gtscc.c:612-739 | any other tag but F makes a line one in the old style |
| GtsLines.BareLine | config/gtscc.c:623-631 | so does the lack of a tag |
| GtsLines.OverrunLine | config/gtscc.c:612-618 | a name that reaches to the end of its line is overrun, and so is a blank line |
| GtsLines.SourceLineParsed | config/gtscc.c:688-690 | behind a tag that starts with F come the fields of a source |
| GtsLines.FieldsParsed | config/gtscc.c:690-703 | each of the three fields ends at the next white space, and the arguments follow |
| GtsLines.FieldsMissing | config/gtscc.c:690-703 | with fewer fields the line is overrun |
| GtsLines.ArgsExactly | config/gtscc.c:705-720 | up to 511 arguments are read, however they are spaced, unless more than one blank ends the line |
| GtsLines.FormatExample | config/gtscc.c:609-720 | how a source line and a symbol line are read |
| GtsLines.SourceWritten | config/gtscc.c:812-852 | how a source line is written |
| GtsStore.SplitArgs | config/gtscc.c:280-287 | "-o target" is taken out of the arguments, the last one winning |
| GtsLines.TargetSplit | config/gtscc.c:280-287 | wherever "-o target" stands it is taken out, and its target counts unless a later one does |
| GtsStore.LoadLine | config/gtscc.c:631-741 | one line has its specified effect on the table and on the object being loaded |
| GtsStore.SafeFgets | config/gtscc.c:519-544 | each call yields the next line of the text, whatever its length; a last line without a newline is lost |
| GtsStore.EhSymTableFpLoad | config/gtscc.c:582-745 | the lines of a text have their specified effect in order, and their number is returned; a line that the scanner would overrun stops the load |
| GtsLoading.KnownLoaded | config/gtscc.c:650-674 | a symbol that the table knows keeps its place, owner and users, and gets the state that the last line naming it says: G, Z, I, or zapped in the old style |
| GtsLoading.UnknownLoaded | config/gtscc.c:632-648 | a symbol that it does not know is added by the first line that lists it in the new style, belongs to the record of the source line above unless it is inline there, and gets the state that the last line naming it says |
| GtsLoading.RecordsLoaded | config/gtscc.c:722-727 | every source line makes one source and one nameless record for it, and nothing else makes or changes any |
| GtsLoading.LoadSucceeds | config/gtscc.c:582-745 | the load succeeds if and only if no line is overrun |
| GtsLoading.ListedAgain | config/gtscc.c:650-659 | a forced symbol that the data base lists as global |
| GtsStore.EhSourceFpWrite | config/gtscc.c:812-852 | the line of a source is the text that the round trip reads back |
| GtsStore.CollectVector | config/gtscc.c:864-872 | two walks size and fill the vector exactly, with every inline symbol and every defined or zapped one that has an object |
| GtsStore.SortVector | config/gtscc.c:874-875 | sorting keeps the vector's symbols and puts them in the order of `flush_compare` |
| GtsStore.CompareAgrees | config/gtscc.c:770-810 | the comparison of two pointers is the comparison of the symbols they stand for |
| GtsStore.EhSymTableFpDump | config/gtscc.c:854-901 | the dump leaves the table alone and writes the lines of a sorted vector of exactly the flushed symbols |
| GtsSharing.FlushIsPreorder | config/gtscc.c:770-810 | `flush_compare` is a consistent total preorder |
| GtsSharing.SortedMeans | config/gtscc.c:770-810 | in a sorted dump symbols without an object come first, by name, then those whose objects have no source, then the others by the address of the source |
| GtsSharing.NoNullFollowed | config/gtscc.c:881-895 | because of that order the dump never follows a NULL object |
| GtsSharing.SharingExactly | config/gtscc.c:854-901 | two symbols share an object after loading if and only if they and all symbols dumped between them did before |
| GtsSharing.SharingRestored | config/gtscc.c:854-901 | loading a dump restores which symbols share an object if and only if the order it was written in keeps the symbols of each object together |
| GtsTies.AlwaysGrouped | config/gtscc.c:770-810 | every order that `flush_compare` accepts does so if and only if the table has no two persisted symbols of one object and a flushed symbol of another object with the same source |
| GtsTies.SharingOfTable | config/gtscc.c:854-901 | so every dump of a table restores its sharing if and only if it has no such symbols |
| GtsTies.TiesLoseSharing | config/gtscc.c:798-799 | a table and a sorted dump of it that loses the sharing |
| GtsSharing.SortedIsGrouped | config/gtscc.c:770-810 | with one object for each source, sorting by `flush_compare` keeps them together |
| GtsOneSource.LoadKeepsOne | config/gtscc.c:688-727 | loading a data base keeps one object for each source |
| GtsOneSource.ReadFileKeepsOne | config/gtscc.c:1043-1079 | so does reading an object file, although it replaces objects |
| GtsOneSource.AssembleKeepsOne | config/gtscc.c:1507-1520 | reading assembler does so if and only if the file exports no real global, or one of each object that has its source already |
| GtsOneSource.OwnersExportBeforehand | config/gtscc.c:1495-1520 | whether it does can be told from the table and the file before the file is read |
| GtsOneSource.RereadingBreaksIt | config/gtscc.c:1507-1520 | a source that is read again, with other exports than before, ends up with two objects |
| GtsRoundTrip.SourceRestored | config/gtscc.c:812-852 | reading the line of a source gives back its name, directory, target, arguments and time; the directory "." comes back as none, and so does the save file |
| GtsRoundTrip.FlushedIsVector | config/gtscc.c:752-768 | a walk collects, once each, the inline symbols and the defined or zapped ones that have an object, and no other |
| GtsRoundTrip.DatabaseRoundTrip | config/gtscc.c:582-745 | loading what was dumped restores every inline symbol, and every defined or zapped one whose object has a source, with its state and that source, and adds nothing else |
| GtsRoundTrip.FileRoundTrip | config/gtscc.c:519-544 | the lines read from a file are those written to it if and only if none of them has a newline |
| GtsRoundTrip.DumpIsReread | config/gtscc.c:854-901 | so those of a dump are |
| GtsRoundTrip.TextIsLines | config/gtscc.c:519-544 | the lines read from any text are all of it up to its last newline |
| GtsForce.EhSymTableSetSymbolState | config/gtscc.c:546-580 | a forced symbol gets the effect specified, and -1 is returned exactly when it is refused |
| GtsForce.ForcedExactly | config/gtscc.c:546-580 | the symbol is in the table afterwards, in the forced state if and only if it was neither inline nor refused; nothing else changes |
| GtsForce.ForcedStatic | config/gtscc.c:1480-1520 | in the next pass an export of a symbol that was forced static is commented out if and only if the symbol had an object before, or the name was exported earlier in the file, or the export lies in an included C++ file |
| GtsForce.FirstExportEscapes | config/gtscc.c:1497-1520 | a file of which only the second export is commented out |
| GtsRuns.EventKeepsGood | config/gtscc.c:2710-2767 | loading, forcing, recording a source, reading assembler and object files, counting, planning and rebuilding keep names unique and pointers from dangling |
| GtsRuns.RunsStayGood | config/gtscc.c:419-436 | so they are in every state that any sequence of those reaches |
| GtsRuns.RunsCanBeSaved | config/gtscc.c:854-901 | so after any run the file that is dumped restores the table |
| GtsRuns.EventKeepsOne | config/gtscc.c:1507-1520 | each of those keeps one object for each source if and only if the assembler it reads, if any, exports as it should |
| GtsRuns.RunsKeepOne | config/gtscc.c:1507-1520 | so whole runs do |
| GtsRuns.RunsRestoreSharing | config/gtscc.c:854-901 | after such a run the file that is dumped restores which symbols share an object |
| GtsRuns.ReadOnceFits | config/gtscc.c:2655-2664 | a run in which every assembler file is read right after its source was recorded is such a run |
| GtsRuns.DriverRestoresSharing | config/gtscc.c:2734-2745 | so every data base that the driver writes restores the sharing |
| GtsPlanning.SummaryRun | config/gtscc.c:1308-1321 | the summary pass counts every symbol of the walk and changes none |
| GtsPlanning.SummaryIsTotal | config/gtscc.c:1280-1306 | its eight counters add up to the number of symbols met |
| GtsPlanning.SummaryCountsKinds | config/gtscc.c:1280-1306 | each counter is the number of symbols of the kind it is named after, kinds being described by state, owner and users |
| GtsPlanning.OneKind | config/gtscc.c:1284-1303 | every symbol is of exactly one of the eight kinds |
| GtsPlanning.UnzapsCounted | config/gtscc.c:2064-2076 | the pass raises an object's unzap count by the number of its symbols that get their definition back |
| GtsPlanning.PlanHalfway | config/gtscc.c:2059-2095 | half way through the pass the symbols met have their final state, the others their old one, and no object's name, source or users have changed |
| GtsPlanning.PlannedStates | config/gtscc.c:2064-2091 | the pass zaps the merely defined symbols and defines the zapped ones that are used, if their owner has a name and a source, and changes no other |
| GtsPlanning.PlanningAccount | config/gtscc.c:2191-2207 | right after a summary the pass wishes for `ndefined + nzapped_nowused` symbols, and a second summary differs exactly by those zapped and unzapped |
| GtsPlanning.ListRun | config/gtscc.c:2064-2091 | at every moment of the pass the links form an acyclic list of `recompile_count` distinct objects that ends at the dummy |
| GtsPlanning.PlannedObjects | config/gtscc.c:2201-2217 | the list holds exactly the buildable objects that own a symbol whose state the pass changed |
| GtsRecompile.GetSummary | config/gtscc.c:1308-1321 | the heap pass computes that summary and leaves the table alone |
| GtsRecompile.PlanPass | config/gtscc.c:2201-2207 | the heap pass leaves the state and the plan that the account and the list theorem speak of |
| GtsRecompile.CopyList | config/gtscc.c:2209-2217 | copying the list fills the array exactly |
| GtsRecompile.SortObjects | config/gtscc.c:2219-2222 | sorting keeps the objects and, where `recompile_compare` is an order, puts them in it |
| GtsOutcome.OrderMeans | config/gtscc.c:2114-2172 | in the order of rebuilding objects that must give symbols back come last; among equals those without a source come last, and sources that no list tells apart come by name |
| GtsRecompile.IsCpp | config/gtscc.c:1586-1595 | the search for the last dot finds whether the name ends in ".cpp" |
| GtsRecompile.RebuildObject | config/gtscc.c:1945-2041 | a rebuild reads the source's assembler again, with all that this does to the table, records how long it took, and reports the exports removed, 0 when the plain source had to be compiled, or a failure |
| GtsRebuild.CppExactly | config/gtscc.c:1672-1674 | exactly the sources whose names end in ".cpp" are C++ |
| GtsOutcome.RebuiltExactly | config/gtscc.c:1538-1881 | what a rebuild reports for each way it may go, in terms of the exports that can be counted beforehand; the table is that of reading the assembler with output, and only the source's own time changes, if the object was built |
| GtsOutcome.RebuiltInlines | config/gtscc.c:1672-1674 | rebuilding makes the exports of included files inline if and only if the source's name ends in ".cpp" |
| GtsOutcome.LinksLeft | config/gtscc.c:2279-2290 | after a number of rebuilds exactly the rebuilt objects are off the list |
| GtsRecompile.RebuildLoop | config/gtscc.c:2279-2290 | the loop rebuilds the shortest prefix whose reports add up to the target, or everything, or stops at the first failure; the state is that of those rebuilds, with the rebuilt objects off the list |
| GtsRecompile.SaveHalfway | config/gtscc.c:2261-2277 | the data base written before the rebuilds is a dump of the planned state, and leaves it alone |
| GtsRecompile.PlanRecompilation | config/gtscc.c:2200-2222 | the state is the planned one, and the list is a sorted permutation of the planned objects |
| GtsRecompile.DoRecompilation | config/gtscc.c:2174-2304 | nothing happens while the target is met; otherwise recompilation is planned, the planned state is saved, and the planned objects are rebuilt in order until the reports add up to what is missing |
| GtsTarget.TargetAccount | config/gtscc.c:2064-2091 | rebuilding takes from the target's globals the symbols that the plan zapped in the rebuilt objects, and brings back those it unzapped there |
| GtsTarget.TargetBefore | config/gtscc.c:2191-2193 | before any rebuild they are what the summary counts as used or merely defined |
| GtsTarget.ReportIsCount | config/gtscc.c:1495-1535 | what a pass reports is the number of exports, as real globals, of zapped symbols with an object, told from the table before it and the file |
| GtsTarget.ReportSplits | config/gtscc.c:1497-1501 | it splits into exports of symbols that this plan has zapped and of symbols zapped before |
| GtsTarget.ReportsAccount | config/gtscc.c:2279-2287 | when files export what the plan has zapped in their objects, the reports add up to those symbols and the exports zapped before |
| GtsTarget.LoopMeetsTarget | config/gtscc.c:2228-2290 | the target is met exactly when the reports exceed what was missing by the exports zapped before and the symbols brought back; with none of either, reaching the loop's goal means that it is |
| GtsTarget.OldZapsMissTarget | config/gtscc.c:2279-2290 | a table and a file with which the loop stops although the target is missed |
| GtsSchedule.CompareIsLexicographic | config/gtscc.c:2114-2172 | between sources with directories the comparison is the lexicographic order of needs-unzap, unpreferred match backwards, preferred match and name |
| GtsSchedule.CompareIsPreorder | config/gtscc.c:2114-2172 | there it is a consistent total preorder |
| GtsSchedule.CompareSwap | config/gtscc.c:2114-2172 | swapping its arguments always changes its sign |
| GtsSchedule.DirectorylessBreaksOrder | config/gtscc.c:2139-2161 | whenever a list can tell two directories apart, three sources, one of them without a directory, break transitivity |
| GtsSchedule.OrderWithoutDirectories | config/gtscc.c:2139-2161 | over all sources the comparison is transitive if and only if no list can tell two directories apart |
| GtsSchedule.MatchIsFirst | config/gtscc.c:2100-2112 | the match is the first preference that the directory starts with, or the largest unsigned number when there is none |
| GtsSchedule.LoopGoesOn | config/gtscc.c:2279-2290 | a round that fails is the first failure before the target, and any other leaves the target unreached so far or just reached |
| GtsSchedule.OneOutcome | config/gtscc.c:2279-2304 | the reports determine what the loop does: one shortest prefix or one first failure, never both |
| GtsSort.Qsort | config/gtscc.c:2222 | `qsort` yields the same elements, in order when the comparison is a consistent preorder |
| Manifest.FindStart | config/mantomak.c:729-759 | the search ends at a newline, at the end of the text or at a place that is at most the counted backslashes back |
| Manifest.StepBack | config/mantomak.c:747-753 | stepping back over backslashes leads to a place where a value is not empty, unless it leads past where the search began |
| Manifest.RoundAdvances | config/mantomak.c:729-804 | each round of `add_values` starts no earlier than the one before and ends beyond its start, though a value may be empty: it terminates on every text |
| ManifestLines.LineEndExactly | config/mantomak.c:840-862 | a logical line ends at its first newline whose line does not end in a backslash, white space aside |
| ManifestLines.SearchExactly | config/mantomak.c:729-759 | the search passes white space, backslashes and continued newlines, and finds a value as many places before the first other character as that line has backslashes before it |
| ManifestLines.NameUpTo | config/mantomak.c:865-891 | a name ends at white space or an equals sign |
| ManifestLines.EqualsExactly | config/mantomak.c:704-708 | values are looked for behind the first equals sign, if there is one |
| ManifestLines.ValueAndContinuation | config/mantomak.c:908-921 | a value ends at a backslash that only white space separates from the newline, and the next line's values follow |
| ManifestLines.ValueAndNewline | config/mantomak.c:735-743 | a value that ends its line is the last |
| ManifestLines.CommentEndsValues | config/mantomak.c:762-770 | a comment ends the values |
| ManifestLines.CommentIgnored | config/mantomak.c:819-830 | a line of comment before a text does not change what is extracted |
| ManifestScan.ValueLength | config/mantomak.c:893-930 | the loop measures the value that starts here |
| ManifestScan.MacroLength | config/mantomak.c:865-891 | the loop measures the name |
| ManifestScan.FindValue | config/mantomak.c:730-759 | the loop with its counted backslashes and its step back finds where the next value starts |
| ManifestScan.AddValues | config/mantomak.c:718-805 | the list gets the values of the logical line in order, and the loop ends |
| ManifestScan.FindMacro | config/mantomak.c:807-863 | blanks and comment lines are skipped, and the next logical line found |
| ManifestScan.AddMacro | config/mantomak.c:679-716 | the entry has the name before and the values behind the first '=' |
| ManifestScan.ExtractMacros | config/mantomak.c:661-677 | every logical line yields its macro, in order |
| ManifestScan.WriteValues | config/mantomak.c:613-659 | the loop that looks at a value twice when a line breaks ends and writes the specified text |
| ManifestScan.WriteMacros | config/mantomak.c:534-611 | the file is the text that the theorems of `ManifestFile` speak of, and empty only for an empty list |
| ManifestAgree.ScannersAgree | config/mantomak.c:729-804 | reading values never passes the line end that `find_macro` computes, and stops exactly there if and only if no comment is met or the comment's own line is the last of the logical line |
| ManifestAgree.MacroReadsItsLine | config/mantomak.c:704-708 | a logical line with its own '=' gets values from that line only; any other gets those of the line after it |
| ManifestAgree.MissingEqualsBorrows | config/mantomak.c:704-708 | a text whose first line has no '=' and gets the second line's value |
| ManifestAgree.CommentCutsLineShort | config/mantomak.c:763-770 | a comment on a continued line, where the two scanners stop at different newlines |
| ManifestAgree.SearchKeepsEnd | config/mantomak.c:844-860 | the search for a value sees the line end that `find_macro` sees, and stepping back crosses no newline |
| ManifestRoundTrip.ValuesRead | config/mantomak.c:613-659 | the values read back are those written, in order, each once, however the lines are wrapped |
| ManifestRoundTrip.NullExactly | config/mantomak.c:777-779 | exactly a text that starts with the seven characters of `$(NULL)`, in any case, is taken for it |
| ManifestRoundTrip.NullIsSkipped | config/mantomak.c:777-782 | a value that starts with it yields no value and hides none behind it |
| ManifestRoundTrip.LineRead | config/mantomak.c:570-587 | one written macro is read back, and the next line begins where it should |
| ManifestRoundTrip.ManifestRoundTrip | config/mantomak.c:661-677 | parsing what was written for a list of macros gives the list back |
| ManifestFile.FileSelected | config/mantomak.c:534-611 | make, following the `!if` and `!endif` lines, sees the lines of all macros in order on the macro level, without LINCS where the word size is 16 bits, and nothing on any other level |
| ManifestFile.FileRoundTrip | config/mantomak.c:534-611 | so what is extracted from the written file is the list that was written, LINCS only where it should be |
| ManifestRoundTrip.ValuesNarrow | config/mantomak.c:637-645 | a written line with two or more values has at most 73 columns before its continuation |
| ManifestRoundTrip.ValuesTight | config/mantomak.c:637-645 | a line is broken only where the next value would pass column 72, and that value follows behind four blanks |
| ManifestRoundTrip.MacroNarrow | config/mantomak.c:570-577 | so it is for the text of a macro, whose name counts towards its first line |
| Paths.GetComponent | config/pathsub.c:82-98 | the next component is a leading slash or all up to the next one, slashes behind it are skipped, and the end is reported |
| Paths.RelatePaths | config/pathsub.c:169-201 | the buffer and the returned length hold the link text, terminated |
| Paths.CommonAncestor | config/pathsub.c:177-181 | the two loops stop behind the last slash that both paths share |
| Paths.AncestorIsClosest | config/pathsub.c:177-188 | no longer ancestor is shared, and the full path is used exactly when the root is the closest |
| Paths.UpAgain | config/pathsub.c:191-194 | one "../" for each component of the remaining path leads back to the ancestor |
| Paths.CopiedLeadsThere | config/pathsub.c:195-198 | the copied components lead where the remaining path leads |
| Paths.RelatePathsIsCorrect | config/nsinstall.c:293-297 | from the directory it is put in, the link leads where the name leads from the other directory |
| Paths.LinksLook | config/pathsub.c:183-201 | how links look; the one to the root has two slashes |
| Reverse.ReversePath | config/pathsub.c:203-232 | the buffer, the current directory and success are those of the specified walk |
| Reverse.Process.Chdir | config/pathsub.c:162-167 | the current directory changes exactly when the entry exists |
| Reverse.StepUp | config/pathsub.c:215-224 | a step up with the old directory's name in front of the text keeps the place that the text names, at the root too |
| Reverse.StepDown | config/pathsub.c:225-229 | so does a step down with "../" in front |
| Reverse.ReversePathIsCorrect | config/nsinstall.c:297-301 | from every moment on the walk ends where the path leads, and the text leads from there to where it led before |
| Reverse.WalksLook | config/pathsub.c:203-232 | the texts of two walks |
| Reverse.WalkSucceeds | config/pathsub.c:162-167 | the walk succeeds if and only if every directory on the path exists |
| Ring.DSList.InitList | include/ds.h:124-129 | an initialised list is well formed and empty, whatever it was |
| Ring.DSList.ListEmpty | include/ds.h:131-132 | the test holds exactly for the empty list |
| Ring.DSList.AppendLink | include/ds.h:143-149 | `next` and `prev` stay inverse all round, and the contents gain the link at their end |
| Ring.DSList.InsertLink | include/ds.h:151-157 | the same at their front |
| Ring.DSList.RemoveLink | include/ds.h:159-165 | they lose that link and no other, and it is cleared |
| Ring.DSList.Forward | include/ds.h:134-141 | following `next` until the sentinel meets the contents in order |
| Ring.DSList.Backward | include/ds.h:137-141 | following `prev` meets them in reverse, the k-th from the end at step k |
| Ring.StillLinked | include/ds.h:161-162 | joining the neighbours of a link leaves the rest inverse all round |
| Ring.AppendedIsLinked | include/ds.h:145-148 | so does putting a link between the last and the first |
| Ring.InsertedIsLinked | include/ds.h:153-156 | so does putting one between the first and the second |
| Ring.AddedAndRemoved | include/ds.h:143-165 | removing undoes appending and inserting |
| Ring.Run | include/ds.h:124-165 | any run of the operations keeps the ring well formed and does to it what it does to a sequence |
| GrowArray.DoubledIsLeast | include/garray.h:48-54 | the new size is 16 times a power of two and no larger than needed |
| GrowArray.GuaranteedIsCapacity | include/garray.h:60-74 | growing keeps that form, never shrinks, suffices, and keeps the size when it equals the one asked for |
| GrowArray.CXP_GrowableArray.NewSize | include/garray.h:48-54 | the doubling loop computes that size |
| GrowArray.CXP_GrowableArray.GuaranteeSize | include/garray.h:60-74 | the contents survive, the capacity suffices, and exactly the old capacity is copied when it copies |
| GrowArray.CXP_GrowableArray.SetSize | include/garray.h:87-90 | elements below both sizes survive |
| GrowArray.CXP_GrowableArray.Add | include/garray.h:95-100 | the contents gain the element at their end, and its index is returned |
| GrowArray.CXP_GrowableArray.Insert | include/garray.h:102-125 | they gain it at the index, moved into range, and the index of the last element is returned |
| GrowArray.CXP_GrowableArray.Delete | include/garray.h:127-139 | they lose the element at the index, if there is one |
| GrowArray.CXP_GrowableArray.DeleteElement | include/garray.h:141-150 | they lose the first such element, if there is one |
| GrowArray.CXP_GrowableArray.Find | include/garray.h:152-161 | the index of the first such element, or -1 when there is none |
| GrowArray.AddRunExactly | include/garray.h:60-74 | how many pointers a run of additions copies, exactly |
| GrowArray.AddRunBound | include/garray.h:95-100 | at most four for each element |
| GrowArray.AddAll | include/garray.h:95-100 | so for a run on an array: it holds the elements and has copied at most four pointers for each |
| GrowArray.CapacityOfPeak | include/garray.h:48-74 | the capacity is always the least one for the greatest size so far, whatever was deleted |
| GrowArray.EditAll | include/garray.h:95-139 | after any run of additions and deletions on a new array: its elements, its capacity, and exactly the pointers copied, which are the capacity for the greatest size so far at each addition that fills or exceeds it |
| GrowArray.ChurnCopiesAll | include/garray.h:60-61 | rounds of one addition and one deletion on an array one element short of its capacity copy it whole every time |
| GrowArray.CXP_PtrStack.Push | include/garray.h:173-180 | the stack gains the element on top; the array grows only when the stack is higher than ever, and `m_iTop < m_iSize` stays true |
| GrowArray.CXP_PtrStack.Top | include/garray.h:181 | the element on top |
| GrowArray.CXP_PtrStack.Pop | include/garray.h:182 | the stack loses the element that is returned, its topmost |
| GrowArray.Run | include/garray.h:168-185 | any run on a new stack leaves what it leaves of a sequence, and copies at most four pointers for each level of its greatest height |

## Left out

- Access to ELF files, archives and object pathnames: symbol and relocation entries are data (config/gtscc.c:907-1004, 1142-1229).
- Running compilers, assemblers, linkers and archivers, and changing directories (config/gtscc.c:1538-2041): what comes of them when an object is rebuilt is given, namely the assembler text, the time, and whether and when a step failed. Save files are never made, because `save_prefix` is NULL in the code.
- Diagnostics, usage, argument parsing, and the printed summary and dump.
- `elf_hash` is any function from names to numbers; `address` in the table is any assignment of distinct addresses to source records; the counters are unbounded.
- Fixed buffer sizes, except the two arrays of `Paths` and `Reverse`; a buffer for one component is a string that grows.
- Where the data base scanner would run past the end of a line, or of its 512 argument slots, the line is an overrun and the load fails; the C program's behaviour is undefined there.
- Symbols of the old data base format that are not in the table are made but never inserted (config/gtscc.c:738-740), so the model forgets them.
- The vector that is flushed is a sequence that grows; that it ends with the size computed before is asserted.
- What `-gtsname` does: a symbol that is looked up or made, but never inserted (config/gtscc.c:2633-2635).
- The dummy that ends the recompile list is one more object record of the table, to which no symbol points.
- Save files are written but read back as none, as in the code.
- GtsRecompile.DoRecompilation: promises the order only if every source names its directory or no preference list tells directories apart, because the comparison is otherwise not an order; that `qsort` then still keeps the elements is more than the C standard promises.
- GtsSort.Qsort: the library's algorithm is not shown; only its contract matters, and an insertion sort meets it.
- The lists of macros and of values in `config/mantomak.c` are sequences, and the steps that walk them to append at their end are appends; write errors do not happen.
- `morph_macro` and the class list of `config/mantomak.c` (lines 430-531) depend on library calls whose meaning is not shown here.
- File systems with links, and `getcwd`, `stat` and `readdir` themselves: a tree of directories is given, and the root's own listing starts with "." or "..".
- POSIX leaves the meaning of exactly two leading slashes to the system; here they mean one.
- Allocation failure; the destructor and the typed wrappers of `include/garray.h`; the array and arena declarations of `include/ds.h`, which have no bodies.
- New elements between the old and the new size of an array are whatever the allocator left; here they are null, and no contract mentions them.
- The other programs under `config` and the other headers: they do input and output, or have no bodies.
