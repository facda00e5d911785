# Verified models of nova-nix

nova-nix evaluates and builds Nix derivations in Haskell over a C99 data layer.
This project models the parts of it whose correctness spans many functions or
many processes, and proves what those parts promise. `dafny verify
dfyconfig.toml` checks all of it.

## What is modelled

**Realising a graph from its root.** `Realisation` follows `Realise.hs` branch
by branch: the walk over derivations, the walk over cache-declared references
inside it, the retry after inputs, and every way either stops. What the caches,
the builder and other processes do comes from `Outside`, whose answers are
arbitrary functions of everything that happened before, so a theorem about
every `Outside` is about every behaviour of the world. A run keeps a trace of
its queries, fetches, builds and reports. A batch that arrived is registered
only if every reference it declares is valid or in the batch, as the store
database requires; refused, it has failed. `FetchOrder` and `ReferenceCycles`
say when references are fetched first, and `RealiseReports` that what a run
reports is what happened. `GraphConstruction` and
`TopologicalSort` are the graph it runs over and the cycle test in front of it;
`BuildDriver` puts the three together.

**Output locks.** `OutputLocks` is a state machine in which any number of
processes build and substitute, one effect at a time: take locks in order, read
validity under them, clear, write, register or fail, remove, release. What is
registered has been written. `LockSafety` proves its invariant and that a
registered path is never touched, `LockOutcomes` how a build ends and what a
registration leaves valid, and `LockDeadlock` when processes can wait for ever. `OutputOrder` is the order outputs are registered in.

**The C data layer.** `SymbolTable` and `AttrSets` are classes over arrays with
the source's own loops. The allocator's answers are parameters, so that each
refusal has its exact cause. The symbol hash is an
arbitrary function of the bytes. A slot index is masked as in C (`BitAnd`), and
masking is proved to be the remainder. What the arrays hold is described by
`Probing` and `AttrEntries`.

**Writers, readers and transcoders.** `ATerm` (`.drv` files), `Json` and
`Utf16`, each with the reader and the writer of the source and proofs that they
invert each other. Writers put their bytes in front of a given tail, as byte
builders do. `ATermFormat` and `JsonFormat` state the formats by their literal
bytes and characters, apart from both, and `Utf8.OneIsLaidOut` the table of
RFC 3629. `JsonGrammar` says which texts are JSON at all. Bulk copies and scans (`Escaping`) are proved equal to going one
byte or character at a time. A JSON document may have space around its
structural characters, of which the program writes none. Store-path text is an
abstract spelling that a parse inverts. A `Text` is a sequence of Unicode
scalar values, which Dafny's `char` is. Shifts and masks whose operands share
no bits are written as division, remainder and addition.

**Configuration and push.** `ConfigIncludes` and `ConfigSettings` expand and fold
configuration files, `ConfigByName` states the settings by their literal names
and spellings, `PathCollapse` is the collapse of the path an include
points at. `PushClosure` orders a closure and `PushRemote` uploads it, request by
request, each of which may fail: how they go is a parameter.

A `StorePath` is its place in the order the program derives for store paths
(hash, then name).

## Results that are conditional on the code as it is

- `topoSort` documents `TopoCycle` as carrying the paths involved in the cycle;
  the code returns the prefix that did sort. The model follows the code, and
  `CycleAnswerIsExact` proves that the list is exactly the nodes that reach no cycle.
- References are fetched first exactly where no cycle of declared references is
  reached from the batch, its own members drawn together. `SubstituteInOrder` is
  one half, for every behaviour of the caches; `OrderIsExact` has both halves where
  nothing else is in the way; `MutualFails` is the smallest run. The store stays
  closed either way (`SubstituteKeepsClosed`), since a batch fetched too early is
  refused, and so only a batch that meets no cycle can complete.
- A path is asked about and fetched at most once exactly where the list of outputs
  repeats none (`AsksOnceExactly`); a `.drv` may name one path for two outputs, and
  `RepeatAsksTwice` shows it.
- Processes can wait for ever exactly where some job lists a path twice
  (`DeadlockExactly`): the second lock on it is then waited for by its own holder.
- A push keeps the cache closed at every moment exactly where nothing pushed is on
  a cycle but a path's reference to itself (`ClosedMomentsExactly`).
- A rendered JSON value parses back to itself exactly when every integer is in
  the range the reader keeps and every float is finite and named by its own
  digits (`Trip.RoundTrips`). Outside that, `DocumentReads` says what comes back.
- `fromATerm` reads a written derivation back exactly when every output name is
  a valid store name (`ReadsWritten`), and any document in the format exactly when
  its names and paths are ones and nothing follows it (`DocumentReads`).
- A build that is not planned, for want of an input or of a scratch name, touches
  nothing, so what an interrupted run left stays; one that fails later removes it
  (`BuildEnds`).
- A source's own name counts as read from the source itself while its includes
  are followed, since the code refuses an include of any name on its chain
  (`Seen`).

## Model

| member | source | states |
|---|---|---|
| ClosureSafety.AttemptAsks | src/Nix/Realise.hs:110-175 | substituting a closure ends for any finite universe of paths, cyclic references included, and queries and fetches each path at most once per attempt, or as often as the list names it |
| ClosureSafety.RepeatAsksTwice | src/Nix/Realise.hs:110-128 | a list that names one path twice has it queried twice |
| ClosureSafety.AsksOnceExactly | src/Nix/Realise.hs:110-175 | no path is queried or fetched twice, whatever the caches and the store hold, exactly when the list repeats none |
| ClosureSafety.SubstituteKeepsClosed | src/Nix/Store/DB.hs:236-266 | whatever the caches declare, the store stays closed under references at every step of an attempt, however it ends, and completion leaves the whole batch valid |
| FetchOrder.SubstituteInOrder | src/Nix/Realise.hs:110-175 | where no cycle of declared references is reached from the batch, every fetch is issued with each reference outside its own batch valid |
| ReferenceCycles.CompleteMeetsNoCycle | src/Nix/Builder.hs:1673-1711 | from an empty store only a batch that reaches no cycle is ever substituted, since the fetch that closes one is refused its registration |
| ReferenceCycles.OrderIsExact | src/Nix/Realise.hs:110-175 | with everything offered and delivered to an empty store, fetches come after references, and the attempt completes, exactly when no cycle is reached from the batch |
| ReferenceCycles.MutualFails | src/Nix/Realise.hs:113-117 | two paths that declare each other: the visited set ends the walk, one is fetched before its reference is valid, and is refused |
| RealiseSafety.RealiseBuildsInputsFirst | src/Nix/Realise.hs:241-323 | in every run over an acyclic graph a node is built only when every output of every direct dependency is valid, and success leaves every root output valid |
| RealiseClosed.RealiseKeepsClosed | src/Nix/Realise.hs:241-323 | a whole run, failed ones included, keeps the store closed under references at every step, whatever the caches declare |
| RealiseClosed.RealiseInOrder | src/Nix/Realise.hs:241-323 | a whole run fetches only after references where no derivation the root reaches has outputs that lead to a cycle of them |
| RealiseClosed.RealiseOrderIsExact | src/Nix/Realise.hs:241-323 | with everything on offer and nothing valid, a run fetches only after references exactly when its root's outputs lead to no cycle |
| OfflineRealise.OfflineBuildsExactly | src/Nix/Realise.hs:241-323 | with no cache and no shared output path, a successful run builds exactly the derivations reached through unfinished ones, each once, each after those it depends on |
| RealiseOutcomes.EndsAtFirstFatal | src/Nix/Realise.hs:246-323 | a run succeeds exactly when no query or build fails in it, nor a fetch without fallback; otherwise it ends at the first such effect, does nothing after, and reports that one: a failed fetch by the derivation whose attempted substitution it ended |
| RealiseReports.ReportsAreTrue | src/Nix/Realise.hs:254-292 | in every run each report is one visited derivation's, in turn: already valid exactly when its outputs, at least one, were valid when visited and nothing was done for it, built exactly when the last thing done was its own successful build, substituted exactly when an attempt on its outputs had just completed; a successful run reports every derivation it visited once |
| RealiseCached.SuppliedNeedsNoInputs | src/Nix/Realise.hs:236-270 | a derivation the caches supply whole, with no cycle of references, is substituted: nothing is built and no input derivation is visited |
| RealiseCached.HolesFilledByInputs | src/Nix/Realise.hs:275-292 | in every run over an acyclic graph, a derivation whose closure the caches supply, with no cycle of references, but for what its own inputs make is never built, since its substitution is retried after them |
| GraphConstruction.BuildDepGraphIsReachable | src/Nix/DependencyGraph.hs:71-106 | the graph holds exactly the derivations the root reaches, cycles included, each as it reads, and fails exactly when one of them cannot be read |
| TopologicalSort.ReverseAdjCounts | src/Nix/DependencyGraph.hs:132-138 | a node is listed under a dependency exactly as often as it names it |
| TopologicalSort.DecrementExact | src/Nix/DependencyGraph.hs:167-176 | each count falls by the times its node is listed, and what reaches zero is exactly what is queued, once each |
| TopologicalSort.KahnLoopSorts | src/Nix/DependencyGraph.hs:144-164 | from any state the loop can be in, it ends with all nodes in dependency order, or with a cycle and a start in order |
| TopologicalSort.TopoSortDecidesCycles | src/Nix/DependencyGraph.hs:114-125 | the sort succeeds exactly when the graph has no cycle, and then lists every node once, after all it depends on |
| TopologicalSort.CycleAnswerIsExact | src/Nix/DependencyGraph.hs:150-156 | the cycle answer lists, once each and after what they depend on, exactly the nodes that reach no cycle |
| BuildDriver.BuildWithDepsIsSound | src/Nix/Builder.hs:1595-1620 | over any `.drv` files and caches, nothing is built before all its inputs; a cycle among reached derivations, and nothing else, is refused before anything happens; success leaves every root output valid |
| BuildDriver.BuildWithDepsAnswers | src/Nix/Builder.hs:1595-1620 | over readable files without a reached cycle, a run answers the root's first output, or that it has none, exactly when no effect was fatal, and otherwise the failure of the one that was, the last |
| LockSafety.LockOrderHolds | src/Nix/Builder.hs:363-364 | the lock order lists a job's paths in ascending order, each as often as the job does |
| LockSafety.WorkingApart | src/Nix/Builder.hs:430-448 | two processes never have a path in common to clear, write or register, stand-in paths included |
| LockSafety.StepKeepsInv | src/Nix/Builder.hs:346-435 | every step of every process keeps the protocol's invariant, and valid paths stay so and keep their trees |
| LockSafety.TouchIsSafe | src/Nix/Builder.hs:519-622 | a step clears or writes only trees of paths that are not valid and that no other process works on |
| LockSafety.RegisteredIsUntouched | src/Nix/Builder.hs:346-435 | in every interleaving a path once valid is never cleared or written again, and its tree is the work of exactly one process |
| LockOutcomes.RegisteredStaysValid | src/Nix/Builder.hs:1697-1711 | in every interleaving a registration, a build's or a substitution's, leaves every path of its job valid, then and ever after |
| LockOutcomes.BuildEnds | src/Nix/Builder.hs:346-622 | in every interleaving a build that comes to release its locks has found all its outputs valid; or was not planned and touched nothing; or registered those not valid, so that all are, and removed the stand-ins; or registered nothing and removed whatever its builder may have written |
| LockDeadlock.NeverDeadlocked | src/Nix/Builder.hs:335-354 | in every reachable state with an unfinished process, building or substituting, some process can step, if no job lists a path twice |
| LockDeadlock.SelfWaitIsForEver | src/Nix/Store/Lock.hs:147-157 | a process that waits for a lock it holds itself does so for ever, whatever the others do |
| LockDeadlock.DeadlockExactly | src/Nix/Builder.hs:346-364 | processes at some jobs can come to where an unfinished one is left and none can step exactly when one of the jobs lists a path twice |
| OutputOrder.OrderByReferencesIsExact | src/Nix/Builder.hs:1489-1510 | an order exists exactly when references, but for a node's own, have no cycle; it lists every node once after what it references; otherwise the pair reported is a real reference closing a real cycle |
| Probing.MaskIsRemainder | cbits/nn_symbol.c:214-215 | masking a hash by a power of two less one is its remainder |
| Probing.EmptyExists | cbits/nn_symbol.c:232-235 | a table under its load limit has an empty slot for a probe to stop at |
| Probing.AbsentAtEmpty | cbits/nn_symbol.c:217-230 | a probe that reaches an empty slot has proved its text absent |
| Probing.CommitKeeps | cbits/nn_symbol.c:248-261 | putting a new symbol where its probe stopped keeps every symbol findable |
| SymbolTable.SymbolsNameTexts | cbits/nn_symbol.c:194-276 | over any interns with arbitrary refusals, two symbols are equal exactly when their texts are, and each names its original bytes from then on |
| SymbolTable.EveryIdIsGiven | cbits/nn_symbol.c:248-249 | the IDs given out are exactly 1 up to the number of distinct texts |
| SymbolTable.Symbols.Init | cbits/nn_symbol.c:145-179 | any capacity hint gives an empty valid table of at least that capacity, up to a clamp, and less than twice it past the default |
| SymbolTable.Symbols.ArenaReserve | cbits/nn_symbol.c:81-95 | the arena has the room asked for, every text still in it; or is left alone, exactly when it had not and is refused more |
| SymbolTable.Symbols.EntriesReserve | cbits/nn_symbol.c:99-111 | there is room for one more entry, the entries kept; or nothing changes, exactly when they are full and at the 32-bit ceiling or refused memory |
| SymbolTable.Symbols.SlotsGrow | cbits/nn_symbol.c:117-141 | the slots are rebuilt at double capacity with every symbol findable; or left alone, exactly at the 32-bit ceiling or without memory |
| SymbolTable.Symbols.Rehash | cbits/nn_symbol.c:126-134 | moving each slot in use by its stored hash gives a table of the same symbols |
| SymbolTable.Symbols.Probe | cbits/nn_symbol.c:214-230 | a probe ends with the text's symbol, or at the empty slot that proves it absent |
| SymbolTable.Symbols.Intern | cbits/nn_symbol.c:194-264 | an intern returns the text's symbol, the next one if it is new; it refuses a new text exactly without a table, past a 32-bit ceiling or for want of memory it has to ask for, and then changes no symbol |
| SymbolTable.Symbols.Text | cbits/nn_symbol.c:266-270 | a symbol's text is the bytes interned, and anything else has none |
| SymbolTable.Symbols.Length | cbits/nn_symbol.c:272-276 | a symbol's length is that of the bytes interned |
| AttrEntries.InsertIsUpdate | cbits/nn_attrset.c:177-185 | inserting an entry updates the map the entries stand for |
| AttrEntries.StableSortSound | cbits/nn_attrset.c:204-221 | the insertion sort orders by key and keeps each key's last entry |
| AttrEntries.TaggedSortAgrees | cbits/nn_attrset.c:247-265 | sorting by key and insertion index in any way gives what the insertion sort gives |
| AttrEntries.DedupSound | cbits/nn_attrset.c:268-287 | dropping all but the last of equal keys leaves keys strictly ascending and finds the same entries |
| AttrEntries.FrozenIsMap | cbits/nn_attrset.c:187-290 | freezing gives strictly ascending keys that stand for the map the inserts built |
| AttrEntries.UnionIsOverride | cbits/nn_attrset.c:342-386 | the merge of two frozen lists is frozen and is map override, right over left |
| AttrEntries.RemovalIsRestriction | cbits/nn_attrset.c:388-416 | removing keys keeps the order and is map restriction |
| AttrEntries.StrictUnique | cbits/nn_attrset.c:187-290 | a frozen list is the only one that stands for its map |
| AttrSets.AttrSet.New | cbits/nn_attrset.c:144-165 | an empty set of the capacity asked for, or the default, exactly when memory is granted |
| AttrSets.AttrSet.Grow | cbits/nn_attrset.c:99-121 | growth doubles the capacity up to the ceiling and keeps every entry while the positions move up in the shared block; it is refused exactly at the ceiling or when either allocation is, and keeps them then too |
| AttrSets.AttrSet.Insert | cbits/nn_attrset.c:177-185 | an insert appends one entry; or changes none, exactly when the set is full and cannot grow |
| AttrSets.AttrSet.InsertionSort | cbits/nn_attrset.c:204-221 | the in-place loop is the stable sort |
| AttrSets.AttrSet.TaggedSortInPlace | cbits/nn_attrset.c:223-265 | tagging, `qsort` and stripping are the same stable sort, or nothing exactly without memory for the tags |
| AttrSets.AttrSet.DedupInPlace | cbits/nn_attrset.c:268-287 | the in-place pass keeps exactly the last entry of each run of equal keys |
| AttrSets.AttrSet.Freeze | cbits/nn_attrset.c:187-290 | whichever sort runs, freezing leaves the sorted, deduplicated entries, standing for the same map |
| AttrSets.AttrSet.Index | cbits/nn_attrset.c:125-140 | the binary search finds a key's index, or proves the key absent |
| AttrSets.AttrSet.Lookup | cbits/nn_attrset.c:294-299 | a lookup gives the value last inserted under the key, or nothing |
| AttrSets.AttrSet.Position | cbits/nn_attrset.c:324-328 | the position at an index is the one inserted with that value |
| AttrSets.AttrSet.NextMerged | cbits/nn_attrset.c:359-374 | one step of the merge-join takes the next entry of the merge, the second set's on a shared key |
| AttrSets.AttrSet.Union | cbits/nn_attrset.c:342-386 | the union is right-biased map override, frozen, refused exactly when its first allocations are or it has more keys than a set can hold, however growth would be answered |
| AttrSets.AttrSet.RemoveKeys | cbits/nn_attrset.c:388-416 | the result is map restriction, frozen, refused exactly when its first allocations are, however growth would be answered |
| Utf8.OneIsLaidOut | src/Nix/Parser.hs:211-219 | a scalar value's bytes are those of the table in section 3 of RFC 3629, its bits in sixes after each byte's marker |
| Utf8.DecodesEncoded | src/Nix/Parser.hs:211-219 | decoding by section 3 of RFC 3629 undoes the encoding of every text |
| Utf8.EncodesDecoded | src/Nix/Derivation.hs:421-426 | strict decoding accepts nothing but a text's own encoding |
| Utf16.NextReadsEncoded | src/Nix/Parser.hs:174-208 | the units section 2.2 of RFC 2781 writes for a scalar value are read back as it, in either byte order |
| Utf16.ReadsWellFormed | src/Nix/Parser.hs:171-197 | a body is read exactly when it is well-formed UTF-16, and as the UTF-8 of the same scalar values |
| Utf16.ReadsTheSameText | src/Nix/Parser.hs:171-197 | what is read decodes to the scalar values the body spells |
| Utf16.FaultAfterLongestPart | src/Nix/Parser.hs:174-197 | a fault is reported after the UTF-8 of the longest well-formed start, as odd exactly when one byte is left |
| Utf16.MarkDecides | src/Nix/Parser.hs:151-163 | a file is read by the mark it starts with, and byte for byte without one |
| Utf16.SpellingsAgree | src/Nix/Parser.hs:151-163 | a text reads the same under each byte order mark |
| TextOrder.AtMostTextMeans | src/Nix/Derivation.hs:252-255 | texts are compared by the first code point in which they differ, a start of a text coming before it |
| TextOrder.SortByIsStable | src/Nix/Derivation.hs:252-255 | sorting by name orders the list and keeps items of one name in order |
| TextOrder.FromPairs | src/Nix/Derivation.hs:562-565 | a map is rebuilt from its ascending list whatever a repeated key would do |
| ATerm.TextToPlatform | src/Nix/Derivation.hs:153-162 | a platform's text survives being parsed |
| ATermFormat.PlatformsByName | src/Nix/Derivation.hs:140-162 | the seven platforms are written and read under their literal names, and any other name is a platform of that name |
| ATermFormat.EscapeIsForm | src/Nix/Derivation.hs:343-358 | copying clean runs in bulk writes each byte's literal form: five are escaped, any other stands for itself |
| ATermFormat.WritesDocument | src/Nix/Derivation.hs:209-341 | a derivation's bytes, for its file and for hashing, are the format's literal delimiters around its parts in the documented order, sorted as documented |
| ATermRoundTrip.ContentIsCollect | src/Nix/Derivation.hs:431-450 | taking clean runs in bulk reads as going byte by byte does |
| ATermRoundTrip.TokensRead | src/Nix/Derivation.hs:411-450 | any bytes in quotes, each bare or after a backslash, are read as what they stand for: three letters as the control characters they name, any other byte as itself |
| ATermRoundTrip.StringsAreTokens | src/Nix/Derivation.hs:411-450 | nothing else is read as a string |
| ATermRoundTrip.StringReads | src/Nix/Derivation.hs:411-450 | any bytes in their literal form are read back whole |
| ATermRoundTrip.ListReads | src/Nix/Derivation.hs:453-473 | a written list is read item by item exactly when every item is acceptable |
| ATermRoundTrip.OutputReads | src/Nix/Derivation.hs:480-495 | an output in the format is read, as the four texts it holds, exactly when its name is a store name and its path a store path |
| ATermRoundTrip.DocumentReads | src/Nix/Derivation.hs:540-576 | any document in the format, in whatever order it lists things, is read as the derivation it says, exactly when its names are allowed, its paths are paths and nothing follows it |
| ATermRoundTrip.InputsJoin | src/Nix/Derivation.hs:564 | an input listed more than once has the names of all its listings, later ones first |
| ATermRoundTrip.LastStays | src/Nix/Derivation.hs:565 | the last value given for a variable is its value |
| ATermRoundTrip.ReadsWritten | src/Nix/Derivation.hs:540-576 | reading a written derivation gives it with outputs and sources sorted, output names sorted and each once and the platform canonical, exactly when every output name is allowed |
| ATermRoundTrip.BytesDetermine | src/Nix/Derivation.hs:209-249 | two derivations have the same bytes exactly when they have the same canonical form |
| ModuloForm.MergedMeans | src/Nix/Derivation.hs:277-283 | merging substituted inputs keeps every hash with all outputs wanted under it |
| ModuloForm.FormDetermines | src/Nix/Derivation.hs:225-283 | the modulo form determines a derivation but for output paths and inputs, and the merged inputs; and depends on nothing else |
| ModuloForm.FormIgnores | src/Nix/Derivation.hs:213-223 | neither output paths nor the order or repetition of substituted inputs changes the modulo form |
| JsonNumbers.ValueShown | src/Nix/Json.hs:88 | an integer's decimal digits have its value and no leading zero |
| JsonNumbers.LayoutDenotes | src/Nix/Json.hs:143-161 | all four layouts denote the digits times ten to the point less the length, in float grammar, never an integer's |
| JsonNumbers.LayoutIsShortest | src/Nix/Json.hs:143-181 | the point stays plain exactly at positions -3 to 15, no digit more than that takes is written, and an exponent has two digits or the fewest it needs |
| JsonNumbers.LayoutIsParts | src/Nix/Json.hs:143-181 | a layout is its integral, fraction and exponent parts put together |
| JsonNumbers.ScanReads | src/Nix/Json.hs:372-414 | a number is scanned whole, into its parts, whatever delimits it |
| JsonNumbers.DoubleIsLexeme | src/Nix/Json.hs:131-139 | a finite float, negative and zero included, is written as one float |
| JsonFormat.EscapeIsForm | src/Nix/Json.hs:105-120 | copying clean runs in bulk writes each character's literal form: seven escapes of two characters, the other controls as `\u00` and two hex digits, any other character as itself |
| JsonFormat.EscapesRead | src/Nix/Json.hs:314-326 | the eight escapes of two characters, the slash's included, are read as what they stand for, and no other but `\u` |
| JsonFormat.LeadingZeroRefused | src/Nix/Json.hs:396-399 | no digit may follow a leading zero, in a document, an array or an object |
| JsonFormat.RenderIsForm | src/Nix/Json.hs:82-98 | a rendered value is the literal words, brackets, commas and colons around its strings and numbers, members in the order of their names |
| JsonStrings.StringIsChars | src/Nix/Json.hs:295-308 | taking clean runs in bulk reads as going character by character does |
| JsonStrings.UnicodeEscapeReads | src/Nix/Json.hs:314-361 | every scalar value is read from its `\u` escape, in either case of hex, as a surrogate pair past U+FFFF |
| JsonStrings.SurrogateReads | src/Nix/Json.hs:329-338 | an escape that names a surrogate is read exactly when it is a high one and an escape of a low one follows, and then as the one scalar value the pair encodes |
| JsonStrings.StringReads | src/Nix/Json.hs:295-308 | any string, escaped and closed, is read back |
| JsonRoundTrip.Trip.ValueReads | src/Nix/Json.hs:238-289 | every value's text is read back, with what follows it left over, as the value it comes back as |
| JsonRoundTrip.Trip.DocumentReads | src/Nix/Json.hs:82-98 | a document is UTF-8, and reading it gives its value back with every string rewritten, whatever the rewrite, and however it is spaced or marked |
| JsonRoundTrip.Trip.BackIsSelf | src/Nix/Json.hs:380-394 | a value comes back as itself exactly when its numbers fit |
| JsonRoundTrip.Trip.RoundTrips | src/Nix/Json.hs:205-218 | parsing a rendered document, spaced or not, gives the value back exactly when every integer is in range and every float finite and named by its own digits |
| JsonGrammar.ReadsExactlyJson | src/Nix/Json.hs:205-414 | a text is read as a value exactly when it is a JSON document that spells it, by RFC 8259: perhaps a byte order mark, the four space characters between tokens, strings of bare, escaped and coded characters, numbers without a leading zero and within the reader's range, no comma too many or too few, and the last of a repeated name |
| ConfigIncludes.OneTree | src/Nix/Config.hs:332-345 | there is only one way to follow a file's includes |
| ConfigIncludes.NeverBeneathItself | src/Nix/Config.hs:338-341 | no file is expanded beneath itself |
| ConfigIncludes.ExpandsAsTree | src/Nix/Config.hs:318-345 | expansion ends, succeeds exactly when the includes can be followed to a finite tree, and gives each include's expansion in its place |
| ConfigIncludes.CycleFaultIsReal | src/Nix/Config.hs:338-341 | a source refused for a cycle does lead, include by include, to a file that includes one above it |
| ConfigSettings.ExtrasOnlyLengthen | src/Nix/Config.hs:553-593 | assignments under `extra-` names alone keep what every list held in front of what they add, and change no flag and no number |
| ConfigSettings.Rules.ListMeans | src/Nix/Config.hs:553-566 | a list holds the items of its last plain assignment under any of its names, then those of every later `extra-` one in order |
| ConfigByName.NamesSet | src/Nix/Config.hs:582-610 | a setting is set outright by its literal names, aliases included, and appended to by those after `extra-`, which only lists have; no other name does anything |
| ConfigByName.ResolvesExactly | src/Nix/Config.hs:553-566 | settings resolve exactly when every value given under a setting's name is one it can take |
| ConfigByName.FlagByName | src/Nix/Config.hs:649-655 | a flag is on exactly when the last assignment under one of its names is one of the three literal true spellings, and off exactly when there is none or it is one of the three false ones |
| ConfigByName.ListByName | src/Nix/Config.hs:553-566 | a list is what the last assignment under one of its names gives, then what later `extra-` ones append, in order |
| ConfigByName.DepthByName | src/Nix/Config.hs:561-562 | the call depth is the number the last assignment of it spells |
| ConfigSettings.TokensOfJoined | src/Nix/Config.hs:490-491 | a list value splits, at spaces, tabs, carriage returns and line feeds, into the tokens its line was joined from |
| ConfigSettings.UnsignedMeans | src/Nix/Config.hs:506-537 | a number is read exactly from its spellings when it fits 32 bits: a plus sign or none, decimal digits by their places, and K, M, G or T in either case for 1024 to the powers 1 to 4 |
| PathCollapse.CollapseLeadsThere | src/Nix/Config.hs:363-404 | a collapsed path leads where the path led, and has nothing left to collapse |
| PathCollapse.CollapseTwice | src/Nix/Config.hs:380-404 | collapsing a collapsed path changes nothing |
| PushClosure.ClosureIsExact | src/Nix/Push.hs:211-226 | the closure is refused exactly when a path in it has an unreadable reference; otherwise it lists what the roots reach, once each, and references first exactly when none of it is on a cycle but a path's own reference |
| PushRemote.PlanHolds | src/Nix/Push.hs:232-233 | the plan is the closure's paths the cache lacks |
| PushRemote.AnnouncedIsClosed | src/Nix/Push.hs:367-372 | announcing any start of the plan leaves the cache closed under references, where nothing pushed is on a cycle |
| PushRemote.ClosedMomentsExactly | src/Nix/Push.hs:367-372 | announcing a whole closure to an empty cache keeps it closed at every moment exactly when nothing in it is on a cycle |
| PushRemote.Remote.UploadNars | src/Nix/Push.hs:363-366 | it succeeds exactly when every upload is answered, and then every missing path's NAR is in place before a narinfo is, which this phase leaves alone |
| PushRemote.Remote.AnnounceAll | src/Nix/Push.hs:367-372 | announcing the plan in order is sound at every moment, an aborted one included, and succeeds exactly when every upload is answered |
| PushRemote.Remote.PushPaths | src/Nix/Push.hs:347-377 | after every request of every push, aborted ones included, nothing announced is withdrawn, what is new has its NAR, and the cache is closed where nothing pushed is on a cycle; it succeeds exactly when all the roots reach is readable and every request it makes goes well, and then has announced exactly what was lacking of it |

## Left out

- Asynchronous exceptions: an interrupt between two effects is not a step of any model here.
- HTTP, process spawning, SQLite, file locks as system calls, NAR reading and hashing: only what the cores rely on is stated, as effects of `Outside`, steps of `OutputLocks` or requests of `Remote`.
- Store internals: a registration is atomic, and refused only for a reference that is not valid.
- Each phase of the lock model reads validity in one step; a substitution's retries over several caches are repeated clears and writes of one path.
- `substitutePaths` outcomes: the model keeps which paths are registered, not which of the two failures a batch reports.
- `Outside` answers every fetch, so that a batch with a repeated path never returns is seen in `LockDeadlock` only.
- `validateInputs`, output placement, fixed-output checks and reference scanning inside a build: a build writes its scratch paths and then registers or fails.
- LockDeadlock.NeverDeadlocked: says that some process can step, not that each finishes, since a builder may write for ever.
- `transitiveDeps`, `closureUnder` and `batchRegistrations`: single folds, over the graph, over recorded references and over one batch's results, that no property here depends on.
- The symbol hash's own arithmetic (FNV-1a), symbol and set tracking, and freeing: no property here depends on them.
- AttrSets.QSort: stands for the C library's `qsort`, of which only its contract is used.
- ATermRoundTrip.DocumentReads: says what every document in the format is read as; of other bytes only strings (`StringsAreTokens`) and what follows a document are shown to be refused.
- Error texts: readers say that they fail, and only include expansion and UTF-16 say why.
- `parseConfigLines`, `configFilePaths` and the splitting of a path into segments: files come as their lines and paths as their segments.
- Float digit generation and reading: given by `Numerics`.
- NAR compression, narinfo rendering and signatures: a narinfo is the NAR object it names and the hashes it references.
- PushRemote.Remote.PushPaths: other writers to the cache during the push are not modelled.
