# SnapshotFS, verified

SnapshotFS turns the output of a Windows `dir /s` command, an untrusted stream of bytes,
into a validated and immutable tree of files, stores it in memory or in a SQLite artifact,
and serves it read-only through FUSE.  This project models that path in Dafny and proves
what it promises.  `dafny verify dfyconfig.toml` checks everything.

The modules follow the program:

- `Unicode`, `Decoding`, `LineByLine`: strict UTF-8 (section 3 of RFC 3629) and UTF-16
  (section 2.2 of RFC 2781), and the two chunked line splitters.  `Decoding.LineRun` is the
  run over a whole stream; the loops are proved to compute it for every chunking.  Codecs
  are arbitrary functions except in `LineByLine`, which is about UTF-8 and UTF-16.
- `Lexing`, `Grammar`, `Classification`, `WrittenLines`: the line patterns.  Each is a
  scanner and, separately, a way of writing a line; both are proved to agree.  Date, time,
  number, name and path handling follow, down to the classified line, and `WrittenLines`
  says of each class which lines read as what.
- `WindowsDirParser`, `ListingGrammar`, `ListingEntries`, `ListingFaults`, `RunningTotals`:
  the state machine over classified lines, as the loop with its mutable state and as a step
  function that the loop is proved to follow; the language of complete listings, written
  without a state machine; what such a listing yields; what the first line that breaks it
  is reported as; and what the counters mean in every run.
- `Building`, `Tree`, `PathMaps`, `Compatibility`, `Provenance`, `MemoryBuilder`,
  `SqliteBuilder`, `Ordering`, `Stores`, `ServedEntries`: `Tree.Add` is what one call of
  `add` does to a tree, also when it fails midway.  Both builders are proved to follow it,
  one over nested dictionaries of mutable nodes, the other over a flat table of rows with
  its uniqueness constraints.  `PathMaps` abstracts a tree to a map from paths, and
  `Compatibility` decides by the set of entries alone whether and what a series builds.
  `Provenance` says which entry each node speaks for, and `ServedEntries` what the stores
  then answer.
- `Forest`, `Validation`, `CliOutput`: parent chains, the checks on an opened artifact, and
  the tree printer that relies on them.
- `Artifact`, `Progress`: publication as a step relation over a directory, with any number
  of writers, every interleaving and a failure possible at every call, and with what the
  files hold; `publish` and `cleanup` as code; and what writers achieve.
- `FuseOperations`, `Reading`: lookup counts, handles, resumable directory listing, and
  reading files.
- `Diagnostics`, `ImportService`, `Pipeline`: the bounded collector, the all-or-nothing
  import with either builder, and the whole way from bytes to a published store.
- `WrittenListing`, `RoundTrip`: the purpose of it all. A file system is written as a
  listing and encoded, and what is imported from the bytes serves it.

Some results differ from what one might expect of the code:

- A stream that is only a byte-order mark yields one empty line (`MarkAloneIsOneLine`).
- The codec `utf-16` decodes a stream without a mark, and the line decoder refuses it
  (`UnmarkedIsRefused`); `LineByLineAgrees` has the exact condition.
- On the first line of a UTF-8 stream with a mark the reported byte offset leaves the
  mark's three bytes out (`MarkedOffsetIsShort`, and exactly then `OffsetLeavesOutMark`).
- `finish` can raise a plain persistence error although its artifact is published, when
  reopening it fails (`PersistenceErrorAfterPublication`); `FinishErrorTellsLess` says
  exactly when.  The errors of `publish` itself are reliable.
- A header line whose path is nothing but spaces, two or more after the words, matches,
  with a single space as its path (`SpacesForPath`); it is then refused as a section path.
- The stores agree on inodes that fit 64 bits and differ on all others
  (`AnswersDifferBeyond64`).
- The recursive count in validation does not end if inode 1 is its own ancestor
  (`RecursionEndsIff`). A table of three rows passes every earlier check and has such a
  root; that the root has no parent is checked only afterwards (`RootInCyclePasses`,
  `RootInCycleNeverEnds`).
- The tree printer is a recursion. A directory with more ancestors than the interpreter
  has stack for is built, stored and validated, and then cannot be printed
  (`DeepSectionIsNotPrinted`); `PrintsAllUnlessTooDeep` has the exact condition.
- `readdir` does not catch the store's error for a missing directory, as the other
  operations do; over a finished tree it cannot occur (`ListDirectory`).

Assumptions: `mkstemp` never returns a name twice; an entry that is fed to a builder has
one of the three forms a parser emits where a lemma says so (`ParserShaped`), which the
parser is proved to respect (`YieldsAreShaped`).

## Model

| member | source | states |
|---|---|---|
| Decoding.RunYieldsInOrder | src/snapshotfs/decoding.py:57-90 | A run over a whole stream yields, in order and numbered from the start, the decode of each piece between newlines, one carriage return removed from terminated pieces only; it stops at the first piece that is too long or does not decode, with that piece's absolute offset and number |
| Decoding.PiecesRejoin | src/snapshotfs/decoding.py:67-70 | Cutting at newlines loses nothing: joined with newlines the pieces are the stream again, and no piece holds a newline (for UTF-16: none on an even offset) |
| Decoding.IterByteLines | src/snapshotfs/decoding.py:57-90 | For every chunking, the byte loop gives exactly the run over the whole stream; before each read the buffer holds the unfinished line and nothing else, at most limit + 1 bytes |
| Decoding.DrainBytes | src/snapshotfs/decoding.py:67-79 | The inner loop empties the buffer up to its unfinished line without changing what the rest of the run will be |
| Decoding.DecodeLast | src/snapshotfs/decoding.py:84-90 | What is left at the end of input is one untouched line, or nothing |
| Decoding.FindAligned | src/snapshotfs/decoding.py:173-177 | The result is the first even offset at or after the start where the needle occurs, or -1 if there is none |
| Decoding.DrainUtf16 | src/snapshotfs/decoding.py:112-133 | As for bytes; matches on odd offsets never split, and starting at the saved search position misses no newline |
| Decoding.CheckUtf16Rest | src/snapshotfs/decoding.py:134-138 | Raises exactly when the complete units, less a final CR that may be removed, exceed the limit; otherwise at most limit + 3 bytes stay buffered |
| Decoding.IterUtf16Lines | src/snapshotfs/decoding.py:93-151 | For every chunking, including one that splits a code unit or the mark, the UTF-16 loop gives exactly the run over the whole stream in the order the mark announces; the buffer holds the unfinished line, at most limit + 3 bytes |
| Decoding.OrderFromPrefix | src/snapshotfs/decoding.py:154-170 | The first two bytes settle the byte order, or the missing-mark error, whatever follows |
| Decoding.OverLimitIsFinal | src/snapshotfs/decoding.py:80-83 | The early limit check raises only where the finished line would raise, with the same offset and number |
| Decoding.ErrorTells | src/snapshotfs/decoding.py:210-252 | The error of a run is that of the first line that is too long or does not decode: its number, its kind (too long, incomplete, invalid), and the absolute offset of the limit or of the bad byte; every line before it is within the limit and is what decoding it gives |
| LineByLine.LineByLineAgrees | src/snapshotfs/decoding.py:180-230 | For utf-8, utf-16, utf-16-le and utf-16-be: the run has no error exactly when the byte order is known, no line is too long, and the whole stream decodes. It then yields the whole text split at U+000A with one CR removed per terminated line; when only the decode fails, both fail at the same position; without a known order the run is the missing-mark error alone |
| LineByLine.UnmarkedIsRefused | src/snapshotfs/decoding.py:165-170 | The condition is needed: the bytes 41 00 decode as utf-16, and the run over them fails for want of a mark |
| LineByLine.OffsetLeavesOutMark | src/snapshotfs/decoding.py:222-230 | For utf-8 the reported offset is that of the bad byte in the stream exactly when the stream has no mark or the fault is not on its first line |
| LineByLine.MarkedOffsetIsShort | src/snapshotfs/decoding.py:222-230 | The bad byte at offset 3 of a marked stream is reported at offset 0 |
| LineByLine.MarkAloneIsOneLine | src/snapshotfs/decoding.py:84-90 | The one exception, exactly: a stream that is a byte-order mark and nothing else yields one empty line, where its text has none |
| LineByLine.StrictSplit | src/snapshotfs/decoding.py:210-230 | A strict decode may be cut before any newline or carriage return without changing its outcome |
| LineByLine.EncodedTextDecodes | src/snapshotfs/decoding.py:180-207 | Every text without lone surrogates reads back from UTF-8 with or without a mark, from both orders of UTF-16, and through the detecting codec after a mark of either order |
| Unicode.Utf8RoundTrip | src/snapshotfs/store/building.py:46-47 | Encoding a text without lone surrogates and decoding it strictly gives the text back |
| Unicode.Utf8DecodesEncodings | src/snapshotfs/decoding.py:210-219 | Bytes decode to a text exactly when they are its encoding, by section 3 of RFC 3629; so encoded surrogates, overlong forms and values beyond U+10FFFF are refused |
| Unicode.Utf8FaultTells | src/snapshotfs/decoding.py:219-230 | A failed decode counts as incomplete exactly when some further bytes would make it succeed |
| Unicode.Utf16RoundTrip | src/snapshotfs/decoding.py:195-207 | In either order, encoding a text by section 2.1 of RFC 2781 and decoding it strictly gives the text back |
| Unicode.Utf16DecodesEncodings | src/snapshotfs/decoding.py:195-207 | Units decode to a text exactly when they are its encoding: which character a surrogate pair is, and that a lone one is none |
| Unicode.Utf8Split | src/snapshotfs/decoding.py:180-192 | Strict UTF-8 decoding may be cut before any byte below 0x80 |
| Unicode.Utf16Split | src/snapshotfs/decoding.py:195-207 | Strict UTF-16 decoding may be cut on an even offset before any unit that is not a low surrogate |
| Lexing.ParseIntegerIs | src/snapshotfs/parser/windows_dir/grammar.py:108-114 | A number is digits, in groups of three if there is a comma, at most 4300 of them; its value is that of the digits |
| Lexing.IntegerRoundTrip | src/snapshotfs/parser/windows_dir/grammar.py:108-114 | Every number reads back from its decimal form and from its form with thousands separators, unless it is overlong |
| Lexing.StripIs | src/snapshotfs/parser/windows_dir/parser.py:107 | A line strips to a given text exactly when it is that text between spaces |
| Grammar.EntryHasOneReading | src/snapshotfs/parser/windows_dir/grammar.py:13-18 | The entry scanner finds exactly the decompositions that the pattern allows, so a line has at most one; the name is everything after the single space or the ten spaces, leading spaces included |
| Grammar.SummaryHasOneReading | src/snapshotfs/parser/windows_dir/grammar.py:19-20 | The same for both summary patterns |
| Grammar.HeaderPathIsPreferred | src/snapshotfs/parser/windows_dir/grammar.py:12 | Among all ways to read a header the path is that of the longest gap and then the shortest path, as greedy and lazy matching choose; a line with any reading has a path |
| Grammar.PreferredReading | src/snapshotfs/parser/windows_dir/grammar.py:32-34 | Conversely every header path comes from a reading of the line |
| Grammar.SpacesForPath | src/snapshotfs/parser/windows_dir/grammar.py:12 | A header with nothing but spaces after its words has the last of them for a path if there are two or more, and is no header otherwise |
| Grammar.ClassesDisjoint | src/snapshotfs/parser/windows_dir/parser.py:66-213 | Skipped, header, total, file summary, directory summary, File Not Found and entry lines are pairwise disjoint |
| Grammar.EntrySignature | src/snapshotfs/parser/windows_dir/grammar.py:51-52 | Every entry line resembles an entry, so one outside a section is reported as malformed |
| Classification.ClassifiedByOwnPattern | src/snapshotfs/parser/windows_dir/parser.py:66-213 | A line lands in a class exactly when it matches that class's own pattern, so the order of the tests does not matter; what each class then carries is said by the members of `WrittenLines` |
| Classification.TimeRoundTrip | src/snapshotfs/parser/windows_dir/grammar.py:129-167 | Every valid time reads back in every date format, on a 24-hour and on a 12-hour clock |
| Classification.MonthsMakeYear | src/snapshotfs/parser/windows_dir/grammar.py:159-160 | The calendar that decides which dates exist is the Gregorian one: its months add up to the years, by a count of leap days that does not look at months |
| Classification.EntryRoundTrip | src/snapshotfs/parser/windows_dir/grammar.py:55-105 | A written entry, with any separator, spacing, clock and number style, classifies as that entry: name kept exactly, kind, size, local time |
| Classification.SectionPathRoundTrip | src/snapshotfs/parser/windows_dir/paths.py:6-7 | A drive letter and clean names form a mountable section path whose mounted form is the upper-case letter and those names |
| Classification.MountableIsWritten | src/snapshotfs/parser/windows_dir/grammar.py:117-126 | Every mountable section path is of that form |
| Classification.MountedPathInjective | src/snapshotfs/parser/windows_dir/paths.py:6-7 | Two mountable paths are mounted alike exactly when they differ at most in the case of the drive letter |
| WrittenLines.FileLineReads | src/snapshotfs/parser/windows_dir/grammar.py:37-39 | A line reports a count of files and a size exactly when it is a `File(s)` line whose first number reads as the count and whose second reads as the size |
| WrittenLines.DirLineReads | src/snapshotfs/parser/windows_dir/grammar.py:42-44 | A line is a directory summary with readable numbers exactly when it is a `Dir(s)` line around two of them |
| WrittenLines.SummaryRoundTrip | src/snapshotfs/parser/windows_dir/grammar.py:19-20 | Every count and size reads back from both summary lines, in order, with either style of number and any spacing |
| WrittenLines.HeaderReads | src/snapshotfs/parser/windows_dir/parser.py:71-105 | A line opens a mountable section at a path exactly when it writes the path: its drive letter in either case, its clean names, no name ending in space before the end of the line |
| WrittenLines.MarkersRead | src/snapshotfs/parser/windows_dir/parser.py:107 | A line is the footer, or says that no file was found, exactly when it is that marker between spaces |
| WrittenLines.IgnoredReads | src/snapshotfs/parser/windows_dir/parser.py:69-70 | A line is passed over exactly when it is spaces alone or one of the two volume banners |
| WrittenLines.TimeReads | src/snapshotfs/parser/windows_dir/grammar.py:129-167 | What is read is the one time that the date and the clock stand for, and nothing else is read |
| WrittenLines.EntryReads | src/snapshotfs/parser/windows_dir/grammar.py:55-105 | A line reads as a name, kind, size and time exactly when it is an entry line that writes them, its year has four digits, its hour suits its clock, the calendar has its time, and its name is no dot name and holds no NUL, slash, backslash or colon |
| WrittenLines.RefusedEntryReads | src/snapshotfs/parser/windows_dir/grammar.py:55-105 | An entry line is refused with a code exactly when it has that fault and none that is tested before it: two-digit year, hour, date, name, size |
| WindowsDirParser.Parse | src/snapshotfs/parser/windows_dir/parser.py:53-286 | The loop reports and yields exactly what the step function says for the whole series of lines, the decode error and the end of input |
| WindowsDirParser.ParserRun.TakeLine | src/snapshotfs/parser/windows_dir/parser.py:66-264 | One iteration is one step: new state, reports and entries |
| WindowsDirParser.ParserRun.TakeNoFiles | src/snapshotfs/parser/windows_dir/parser.py:290-319 | File Not Found is accepted once, in an open section without entries or summaries, and reported otherwise |
| WindowsDirParser.SectionState.Close | src/snapshotfs/parser/windows_dir/state.py:36-62 | Reports missing summaries and wrong totals, and closes the section |
| WindowsDirParser.SectionState.Begin | src/snapshotfs/parser/windows_dir/state.py:23-34 | A new section starts with every counter and flag cleared |
| ListingGrammar.AcceptsExactlyCompleteListings | src/snapshotfs/parser/windows_dir/parser.py:53-286 | No diagnostic is recorded exactly when the input decodes and its lines, skipped ones aside, are one or more sections and a footer with correct counts and sizes, as a declarative grammar writes them |
| ListingGrammar.CompleteListingYields | src/snapshotfs/parser/windows_dir/parser.py:96-105 | Such a listing yields, line after line and nothing else: for a header its directory at the header's own path and line; for a named entry its name below the path of the header above it, with its own kind, size, time, observation and line |
| ListingGrammar.ListingUnique | src/snapshotfs/parser/windows_dir/parser.py:53-286 | A complete listing consists of one series of sections only |
| ListingGrammar.RunFollows | src/snapshotfs/parser/windows_dir/parser.py:53-264 | At every line, no report so far exactly when the lines begin a complete listing, and then the variables and the output say how far it has got |
| ListingEntries.CompleteListingTells | src/snapshotfs/parser/windows_dir/parser.py:96-105 | Whatever lines are skipped in between, what a complete listing yields is exactly what its sections say: every header and every named entry is among it, and each yield is one of them |
| ListingFaults.FirstFaultIsReported | src/snapshotfs/parser/windows_dir/parser.py:66-264 | After lines that begin a complete listing, the next line is reported with exactly the codes and line numbers of a table by how far the listing has got, without the parser's variables |
| ListingFaults.EndFaultsAreReported | src/snapshotfs/parser/windows_dir/parser.py:265-286 | The same for the end of the input: what the open section lacks, at its header's line, and which parts of the listing are missing |
| ListingFaults.FaultsAreReported | src/snapshotfs/parser/windows_dir/parser.py:66-264 | One step of this, from every state that a listing without fault can reach |
| RunningTotals.TotalsCountWhatWasYielded | src/snapshotfs/parser/windows_dir/parser.py:251-256 | At every line boundary of every run, faulty or not, the totals count the files yielded so far and their bytes, and the section's counters those since its header |
| RunningTotals.YieldedInSection | src/snapshotfs/parser/windows_dir/grammar.py:98-105 | In any run, faulty or not, everything yielded since a header is what one of the lines says in that header's section: the header its directory, a named entry its name, kind, size, time and line below the section's path |
| RunningTotals.YieldsAreShaped | src/snapshotfs/parser/windows_dir/parser.py:96-105 | Every yielded entry has one of the three forms that builders take |
| Building.CheckComponents | src/snapshotfs/store/building.py:36-53 | Gives the mounted names of a valid path, or the first fault of the first faulty component |
| Building.MountedNamesInjective | src/snapshotfs/store/building.py:36-53 | Mounted names preserve and reflect equality and prefixes of paths |
| Building.MutableNode.Merge | src/snapshotfs/store/building.py:56-74 | Merges an entry into a node or raises the conflict, changing nothing then |
| Building.JoinEncodes | src/snapshotfs/store/building.py:77-84 | The joined original path encodes to the mounted names joined by slashes |
| Building.JoinInjective | src/snapshotfs/store/building.py:83 | Joining valid names by slashes is injective |
| Tree.OriginalPathsUnique | src/snapshotfs/store/memory/builder.py:41-50 | In every reachable builder state no two nodes have the same original path |
| Tree.AddKeepsTree | src/snapshotfs/store/memory/builder.py:28-57 | Every call, also one that fails midway, leaves identifiers exactly 1 to next - 1, parents that are directories with smaller identifiers, a child index that is the inverse of (parent, name), and original paths that join the names |
| Tree.PathInjective | src/snapshotfs/store/memory/builder.py:36-50 | Different nodes have different paths |
| PathMaps.AddRefines | src/snapshotfs/store/memory/builder.py:28-57 | One call acts on the map from paths to observations as a reference operation that knows neither nodes nor identifiers |
| Compatibility.BuildsIffCompatible | src/snapshotfs/store/building.py:56-74 | A series of entries builds exactly when every path is valid and the entries are pairwise compatible, and the tree then describes exactly the set of entries |
| Compatibility.SameEntriesSameTree | src/snapshotfs/store/building.py:56-84 | Order and repetition do not matter: the same set of entries builds alike, with the same kind, size, time, content and observation at every path |
| Compatibility.PermutationSameTree | src/snapshotfs/store/building.py:56-84 | In particular for every permutation |
| Provenance.BuiltIsSourced | src/snapshotfs/store/building.py:56-84 | After any series that builds, each node says in every field (kind, size, time, content, line, metadata, observation, spelling of the path) what one entry said of it: the first of its path that is no section header, or else the first header; a node without any is a mere directory |
| Provenance.AddRecords | src/snapshotfs/store/building.py:56-84 | One successful call merges the entry into the node at its path, enters bare directories above it, and leaves every other node as it was |
| Provenance.SourceUnique | src/snapshotfs/store/building.py:56-74 | A path has at most one source entry |
| Provenance.SourceExists | src/snapshotfs/store/building.py:56-74 | It has one exactly if it was observed at all |
| Provenance.ConflictTells | src/snapshotfs/store/building.py:87-112 | When an entry with a usable path is refused after a series that built, the conflict has the entry's own line and location, and names as the existing observation the source of what it contradicts: of a path above it, always as a conflict of kinds, or of its own path; a bare directory is named as synthesized |
| MemoryBuilder.InMemorySnapshotBuilder.Add | src/snapshotfs/store/memory/builder.py:28-57 | The nested dictionaries change exactly as the tree does, with the same error; no node object is shared |
| MemoryBuilder.InMemorySnapshotBuilder.EnterComponent | src/snapshotfs/store/memory/builder.py:33-54 | One path component finds or creates its node, and the kinds must agree |
| MemoryBuilder.InMemorySnapshotBuilder.Finish | src/snapshotfs/store/memory/builder.py:59-97 | Finishing never violates a node's own invariant, and keeps every node and child index: the finished node at each identifier has the record's parent, name, original path, kind, size, time, line and metadata, its content (empty for a file of size 0), and the status that follows from kind and content |
| Stores.FinishedNodeInvariant | src/snapshotfs/model/node.py:26-66 | Content and status chosen on finishing always satisfy the node invariant |
| SqliteBuilder.NodeTable.Insert | src/snapshotfs/store/sqlite/builder.py:220-239 | Inserts a row unless an identifier or (parent, name) is taken or an integer does not fit |
| SqliteBuilder.NodeTable.Update | src/snapshotfs/store/sqlite/builder.py:241-255 | Overwrites what a merge may change, in the row with that identifier only |
| SqliteBuilder.SqliteSnapshotBuilder.Add | src/snapshotfs/store/sqlite/builder.py:90-118 | The flat table follows the same tree step by step, with the same identifiers, fields and errors; it stops short exactly when an integer does not fit 64 bits, with only the last merge missing |
| SqliteBuilder.AddFits | src/snapshotfs/store/sqlite/builder.py:241-255 | An entry whose numbers fit never makes the table overflow |
| SqliteBuilder.SqliteSnapshotBuilder.AssignStatuses | src/snapshotfs/store/sqlite/builder.py:127-135 | The two set-based statements do the same to each row, in place: every column but content and status is as it was, observation included; the result is the finished table of the tree |
| Stores.SameAnswers | src/snapshotfs/store/sqlite/store.py:116-153 | Both stores answer get_node, lookup, iter_children and iter_nodes alike, for every inode that fits 64 bits and every offset of either sign |
| Stores.AnswersDifferBeyond64 | src/snapshotfs/store/sqlite/store.py:116-147 | On an inode beyond 64 bits every query differs: get_node, lookup and iter_children find no such node in memory, and in SQLite fail to bind the number |
| Stores.OffsetIsSlice | src/snapshotfs/store/sqlite/store.py:130-147 | Limit and offset of the query are the slice of the ordered children, for negative offsets too |
| Ordering.LessIs | src/snapshotfs/store/memory/store.py:48-51 | Names are ordered by the first byte in which they differ, a name before its continuations |
| ServedEntries.IterNodesGivesAll | src/snapshotfs/store/memory/store.py:53-54 | In both stores iter_nodes gives every node once, in order of identifier, and get_node the same ones |
| ServedEntries.IterChildrenGivesChildren | src/snapshotfs/store/sqlite/store.py:130-147 | In both stores iter_children gives exactly the nodes whose parent it is, each once, by ascending name |
| ServedEntries.MemoryServes | src/snapshotfs/store/memory/store.py:41-51 | After any series that builds, looking up the names of a path one after the other finds a node exactly when an entry makes the path exist; the node carries what the path's source entry said, field by field, or is a mere directory |
| ServedEntries.SqliteServes | src/snapshotfs/store/sqlite/store.py:116-128 | The same in SQLite, as long as identifiers fit 64 bits |
| ServedEntries.PublishedServes | src/snapshotfs/import_service.py:84-89 | A store that an import publishes serves every path so, and at each yielded entry's path a node of its kind and size, a file with its time and content, an explicit directory with its time |
| ServedEntries.StoredServes | src/snapshotfs/import_service.py:84-89 | The same of the rows of a stored artifact, fewer than 2^63 of them |
| Validation.Reachable | src/snapshotfs/store/sqlite/validation.py:126-139 | The recursion from inode 1 ends and produces every row whose parent chain ends at inode 1 exactly once, although nothing removes duplicates |
| Validation.CountDecides | src/snapshotfs/store/sqlite/validation.py:126-140 | Its count is the number of rows exactly when every parent chain ends at inode 1 |
| Validation.RecursionEndsIff | src/snapshotfs/store/sqlite/store.py:251-253 | Whatever the root's parent, which is checked only afterwards, the recursion ends exactly when inode 1 is not its own ancestor |
| Validation.RootInCyclePasses | src/snapshotfs/store/sqlite/store.py:235-253 | A table whose inodes 1 and 2 are each other's parents, beside one row without a parent, passes every check before the recursion |
| Validation.RootInCycleNeverEnds | src/snapshotfs/store/sqlite/validation.py:126-139 | The recursion over that table produces rows in every generation |
| Validation.RequireGraph | src/snapshotfs/store/sqlite/validation.py:116-140 | Accepts exactly the trees of directories below inode 1 |
| Validation.ContentCheckIsInvariant | src/snapshotfs/store/sqlite/validation.py:92-113 | The content query selects exactly the rows that could not be constructed as nodes |
| Validation.RequireDerivedPaths | src/snapshotfs/store/sqlite/validation.py:175-195 | Accepts exactly the tables whose stored paths are the names from the root, joined |
| Validation.ValidateRecords | src/snapshotfs/store/sqlite/validation.py:15-19 | On every table over which the recursions end, the checks in their order accept exactly the valid tables: ranges, contents, graph, names, root, derived paths |
| Validation.FinishedTableIsValid | src/snapshotfs/store/sqlite/builder.py:169-170 | Whatever calls of add have built, what finish makes of it passes validation |
| CliOutput.PrintsEveryNodeOnce | src/snapshotfs/cli_output.py:17-26 | With stack enough, every node but the root is shown exactly once at its depth |
| CliOutput.PrintedTreeReads | src/snapshotfs/cli_output.py:17-26 | Every line stands below its parent, the last line above it that is indented one step less, and siblings ascend in byte order |
| CliOutput.PrintsAllUnlessTooDeep | src/snapshotfs/cli_output.py:17-26 | With room for a number of nested visits, everything is printed exactly if that number is positive and no directory has as many ancestors; otherwise printing fails after a prefix of the lines |
| CliOutput.FinishedPrintsUnlessTooDeep | src/snapshotfs/cli_output.py:17-26 | The same for what a builder has finished, by the lengths of its directories' paths |
| CliOutput.DeepSectionIsNotPrinted | src/snapshotfs/cli_output.py:17-26 | However much stack there is, one section header can be too deep for it, although it builds and validates |
| CliOutput.ValidIsPrintable | src/snapshotfs/cli_output.py:13-26 | Every valid table without duplicate siblings meets what the traversal relies on |
| CliOutput.FinishedIsPrintable | src/snapshotfs/cli_output.py:13-26 | Whatever calls of add have built and finish has stored meets it too |
| Artifact.DestinationAlwaysComplete | src/snapshotfs/store/sqlite/artifact.py:33-66 | In every interleaving of any number of writers failing anywhere, the destination is unbound, its original file, or a file with complete content that its writer has validated and bound |
| Artifact.StepWritesUnbound | src/snapshotfs/store/sqlite/builder.py:165-171 | No step writes to the file that the destination is bound to, although link leaves it a second name |
| Artifact.OriginalKeepsContent | src/snapshotfs/store/sqlite/artifact.py:41-59 | The original file is never written |
| Artifact.StepNeverUnlinks | src/snapshotfs/store/sqlite/artifact.py:79-89 | No step unbinds the destination, and only a binding writer rebinds it, to its own artifact |
| Artifact.NoOverwriteBindsOnce | src/snapshotfs/store/sqlite/artifact.py:41-59 | If nobody overwrites, the destination is bound at most once, by at most one publish, and never replaces an original file |
| Artifact.PublishErrorsTell | src/snapshotfs/store/sqlite/artifact.py:33-76 | A destination-exists or plain persistence error of publish means this writer did not bind the destination; a publication or durability error, or a return, means it did |
| Artifact.PublishResultIsFinal | src/snapshotfs/store/sqlite/builder.py:175-200 | Later cleanup changes neither outcome |
| Artifact.FinishErrorTellsLess | src/snapshotfs/store/sqlite/builder.py:165-191 | A plain persistence error of finish means the destination was bound exactly if publish had returned and reopening failed |
| Artifact.PersistenceErrorAfterPublication | src/snapshotfs/store/sqlite/builder.py:171-188 | A concrete run in which finish raises a plain persistence error although its artifact is published |
| Progress.WellWriterFinishes | src/snapshotfs/store/sqlite/builder.py:120-191 | However the other writers interleave and fail, a writer whose own calls all go through has finished after ten of them, and its temporary name is gone. It has returned and bound the destination, or it may not overwrite, has not bound it, and raises that the destination, which is another's, exists |
| Progress.FinishAlone | src/snapshotfs/store/sqlite/builder.py:33-191 | Undisturbed and with every call going through, a writer that may overwrite or finds the destination free ends with the destination bound to its complete artifact, no temporary name left and nothing else changed; otherwise it raises that the destination exists and nothing changes at all |
| Artifact.Publish | src/snapshotfs/store/sqlite/artifact.py:33-76 | Run undisturbed from any directory, for every way its calls go: if the temporary name leads to a file and sync and installation go through, then with overwriting always, and without it exactly when the destination is free, the destination is bound to that file, every other name and file is as before, and the temporary name is gone; it returns if removal and folder sync go through, and otherwise raises the publication or durability error. In every other case nothing changes, and the error says which |
| Artifact.Cleanup | src/snapshotfs/store/sqlite/artifact.py:79-89 | Removes exactly those of the temporary name and its wal, shm and journal files whose own unlink succeeds, and never the destination |
| FuseOperations.CountsAreNet | src/snapshotfs/fuse/adapter/operations.py:63-71 | Stored lookup counts are positive, and equal accepted replies minus forgets unless the kernel forgets too much |
| FuseOperations.SnapshotOperations.Lookup | src/snapshotfs/fuse/adapter/operations.py:40-61 | Replies with the target of the lookup; only a successful reply is counted, once |
| FuseOperations.LookupFinds | src/snapshotfs/fuse/adapter/operations.py:47-58 | Over a finished tree the target is the directory itself for dot, the node at the parent's path for dot-dot, the node at the directory's path and the name otherwise, and ENOENT exactly when there is no such path |
| FuseOperations.NodeOfTells | src/snapshotfs/fuse/adapter/operations.py:210-214 | An inode is resolved to the row with that identifier, to ENOENT exactly if there is none, and to an exception exactly if it does not fit 64 bits |
| FuseOperations.SnapshotOperations.Forget | src/snapshotfs/fuse/adapter/operations.py:63-71 | Applies every positive forget to its own inode |
| FuseOperations.SnapshotOperations.Opendir | src/snapshotfs/fuse/adapter/operations.py:79-86 | A directory gets a handle that was never issued before; anything else an error and no handle |
| FuseOperations.SnapshotOperations.Open | src/snapshotfs/fuse/adapter/operations.py:112-130 | A file opened read-only gets a handle never issued before, in the table of files only |
| FuseOperations.SnapshotOperations.Read | src/snapshotfs/fuse/adapter/operations.py:132-143 | Reads the file that the handle was opened for, with the error of a bad handle, a missing node or the read policy |
| Reading.ReadIsSlice | src/snapshotfs/fuse/policy.py:13-34 | Every read of a file is the slice of what it stands for, its content or zeros of its size if missing content is simulated; without either it fails exactly when it would have to give bytes |
| Reading.ReadsWholeFile | src/snapshotfs/fuse/policy.py:13-34 | Reading from the start in pieces of any sizes, together no less than the file, gives the whole file, as long as its size says |
| Reading.FinishedStands | src/snapshotfs/fuse/policy.py:13-34 | In a finished store a file stands for the content that was observed of it, for nothing if its size is 0, and otherwise for zeros of its size if they are wanted |
| FuseOperations.SnapshotOperations.Release | src/snapshotfs/fuse/adapter/operations.py:145-147 | Drops exactly that file handle, or reports a bad one |
| FuseOperations.SnapshotOperations.Releasedir | src/snapshotfs/fuse/adapter/operations.py:104-106 | Drops exactly that directory handle, or reports a bad one |
| FuseOperations.SnapshotOperations.Readdir | src/snapshotfs/fuse/adapter/operations.py:88-102 | An open handle is answered whenever the store lists its directory, with the exception of the store otherwise; the accepted entries are a prefix of what is offered, each numbered with where to resume and counted once |
| FuseOperations.ListDirectory | src/snapshotfs/fuse/adapter/operations.py:88-102 | Calls of readdir on one handle over a finished tree, each resuming at the identifier of the last accepted entry, with any room each time: the answers are the first children in byte order, as many as there was room for, each counted once; if every call has room, as many calls as children give them all |
| FuseOperations.ListingIsSorted | src/snapshotfs/fuse/adapter/operations.py:94-96 | The children of a directory of a finished tree are listed in byte order, each once |
| FuseOperations.ResumedOfferIsSlice | src/snapshotfs/fuse/adapter/operations.py:88-102 | What a resumed call is offered is the first listing from there on |
| Diagnostics.DiagnosticCollector.Add | src/snapshotfs/diagnostics.py:56-67 | Counts every diagnostic, keeps the first ones up to the limit, and remembers any error, kept or not |
| ImportService.FindReplaced | src/snapshotfs/import_service.py:63-70 | Chooses the last warning, or the last diagnostic if there is none |
| ImportService.Join | src/snapshotfs/import_service.py:58-75 | At most 1,000 diagnostics are kept, the builder's is among them, every other one stays in place, and the number of errors kept never drops |
| ImportService.Feed | src/snapshotfs/import_service.py:49-54 | Entries are added until the first refusal, which is kept, and none after it |
| ImportService.CreateStore | src/snapshotfs/import_service.py:30-89 | With the in-memory builder, a store is published exactly when no error was ever reported, kept or not, and no entry was refused; otherwise the failure carries the retained diagnostics and the complete count |
| ImportService.RefusalTells | src/snapshotfs/import_service.py:49-75 | The diagnostic that a builder adds has the line of the first entry that is unusable or contradicts one before it, and the code of which of the two it is |
| ImportService.FeedTable | src/snapshotfs/import_service.py:49-54 | The same loop over the SQLite builder, which a number beyond 64 bits ends with an exception |
| ImportService.CreateArtifact | src/snapshotfs/import_service.py:30-89 | With the SQLite builder, and lines that fit 64 bits, an artifact is stored exactly when moreover every size fits 64 bits; its rows are the finished table of the entries' tree and pass validation |
| ImportService.BuiltSizesFit | src/snapshotfs/import_service.py:49-54 | Entries that build a tree without overflow have sizes that fit |
| Pipeline.PublishesExactlyImportable | src/snapshotfs/import_service.py:76-78 | An import succeeds exactly when the stream decodes, its lines form a complete listing, every name fits 255 bytes of UTF-8, and no two entries contradict each other |
| Pipeline.ImportStream | src/snapshotfs/import_service.py:47-84 | The same from bytes, for every chunking; the published store is that of the tree of the yielded entries, without diagnostics, so the theorems of `ServedEntries` and `RoundTrip` are about it |
| Pipeline.ImportableAsText | src/snapshotfs/decoding.py:180-230 | For the Unicode codecs a stream is importable exactly when its byte order is known, no line is too long, it decodes as a whole, and the lines of its text are importable |
| Pipeline.YieldsAreClean | src/snapshotfs/parser/windows_dir/parser.py:75-105 | No yielded path holds an empty or dot component, NUL or a slash |
| Pipeline.CleanPathIsValid | src/snapshotfs/store/building.py:36-53 | So a name too long, or without UTF-8 form, is the only path fault left for a builder to find |
| WrittenListing.ListingReads | src/snapshotfs/parser/windows_dir/parser.py:53-286 | Any directories, written as a listing with any separator, clock, number style and spacing, read as exactly the complete listing of those directories |
| RoundTrip.WrittenIsImportable | src/snapshotfs/parser/windows_dir/parser.py:53-286 | Every such listing of a file system whose names fit is importable |
| RoundTrip.WrittenIsServed | src/snapshotfs/import_service.py:30-89 | What is published from it serves each file and directory listed at its own path, with its size and its time |
| RoundTrip.EncodedListingIsServed | src/snapshotfs/import_service.py:30-89 | The same from the bytes of the listing, for every Unicode encoding, with or without carriage returns |

## Left out

- The command line, its registry and completion, `doctor`, logging and process-managed mounts.
- SQLite itself: PRAGMAs, the text of the schema, storage classes, transactions, foreign keys; a table is a series of rows with the stated queries.
- Encoding of metadata and of timestamps as JSON and ISO text, and freezing of metadata: both are opaque values with equality. A stored timestamp with a fixed offset compared with a zone-aware one in a repeated hour is therefore not modelled.
- Time zones: whether a local time exists and what it becomes is a parameter of `Classification.Source`.
- Single-byte code pages: their codec is an arbitrary function of the bytes.
- Digits beyond ASCII: `\d` matches the ten ASCII digits only, while spaces are all those of `str.isspace`.
- Lookup of an encoding by name and the error for an unsupported one: a run starts with its encoding given.
- Generators: what a consumer sees of a run is its yielded lines or entries and its final error, and the import takes the parser's entries as one series. A failure of the underlying stream or of the entry consumer halfway is not modelled.
- In-place deletion from a byte array: the buffer is a sequence that the loops reassign.
- Texts of messages and the excerpt of the input line appended to them: a diagnostic is its severity, code and line number.
- Source lines and sizes are natural numbers in memory; a SQLite builder refuses those beyond 64 bits, and identifiers of nodes are taken to stay below.
- Negative integers in the columns of an artifact: ids, parents, sizes and lines of rows are natural numbers, so of the range checks those against zero remain.
- Diagnostics rows, snapshot rows and their checks in an artifact.
- Node kinds other than files and directories, remote content, and content references beyond the node invariant.
- Attributes, extended attributes, cache flags of opened files and the constant answers of the read-only mixin.
- Locks of the SQLite store; platforms whose directories cannot be synced, where that step counts as always succeeding.
- ImportService.CreateArtifact: takes publication of the validated artifact to go well; how it fails is what `Artifact` is about.
- Artifact.Publish: runs without other writers; the interleavings are covered by the step relation.
- CliOutput.PrintsAllUnlessTooDeep: counts nested calls of the printer's own recursion; how many an interpreter allows, and the diagnostics printed after the tree, are not modelled.
