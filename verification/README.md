# A model of onelf and proofs about it

onelf packs an application into one file and runs it on the machine it is copied to. This
project models the parts of it whose guarantees rest on several functions, processes or
crates together, and proves those guarantees for all inputs and all runs. Each module
follows one part of the repository. Where the code computes a value, it is a function; where
the code works step by step, it is a method or class proved against a specification
function, and the laws are lemmas about that function. Where processes meet, it is a
transition system and the results hold in every state of every run.

- **Extraction cache** (`CacheProtocol`, `CacheProgress`). Launches, package collectors and
  store collectors over a shared in-use lock, an extraction mutex, a store lock and a
  completion marker, one step for each file-system or lock action, and a crash at any point.
  Locks belong to inodes. Beside the safety of launches and blobs it settles what a
  completed collection leaves behind: a file that nothing links stays exactly when its last
  tree was removed while the collection ran (`CollectionLeaves`), so none stays if nobody
  removes a tree meanwhile (`QuietCollectionLeavesNone`). That nothing is ever left is not
  true of the code, and `CollectionMayLeaveOne` is a run that shows it. Safety is not all: a
  launch returns, from any cache that nobody is using, exactly if its package can be built
  (`LaunchReturns`, `LaunchReturnsExactly`), and a package with its marker is never
  extracted again.
- **Bounded transports** (`Codec`, `Transport`, `Streams`, `RuntimeMetadata`,
  `RuntimeStreams`, `EntrypointSets`, `EntrypointStreams`, `ProviderIndex`, with `Rules`,
  `RuleSafety` and `Ordering`). Formats are put together from shapes that each carry both laws, so writing
  and reading undo each other at any depth. The writers that patch lengths back and the
  readers under one shared record budget are proved equal to those formats. What the bytes
  are is written out a second time, without shapes or tag functions, in `RuntimeLayout`,
  with `LittleEndian`, and proved to be the same.
- **Manifest** (`ManifestCodec`, `ManifestLayout`, `ManifestStreams`, `ManifestPaths`,
  `LinkTargets`, `StringTable`). The format of versions 1 to 3, validation, the path walks,
  the check on symbolic links and the string table builder.
- **Host environment** (`EnvRecord`, `Restoration`, `HookBounds`, `ExecHooks`). The record
  of what a launch changes, which one crate writes and another reads without a heap.
  Restoring is the inverse of launching. The buffer for strings is large enough for every
  record exactly if no name that can be put back is given twice (`StringsFitExactly`). The
  two parsers agree on whatever the hooks accept, and on everything else that the writer's
  side accepts differ (`RecordsAgreeExactly`). A record has its terminator in `ExecHooks`
  and not in the other modules.
- **View environment** (`ViewRecord`, `ViewReader`, `ViewRestore`) and **`.onelf/env`**
  (`EnvExpand`, `EnvLines`, `EnvMeaning`), with `Environment`. What the runtime records for
  the constructor, what the constructor makes of it, and the expansion of references into
  fixed buffers, whose result is what the pieces of the text mean. `RecordLayouts` spells
  the texts of the records out.
- **Launch resolver** (`HostChoice`, `Selection`, `VersionChains`, `VersionSets`,
  `VersionBytes`, `VersionLayouts`). The driver closure, the choice between bundled and host
  libraries, what every winner stands for, the decision record, which is adopted exactly
  where no file it depends on has changed, and the ELF version sections, whose two layouts
  mean the same, which is what their bytes say at fixed offsets.
- **Lifetime guardian** (`Guardian`, `GuardianReports`). A process tree with subreapers,
  orphans, reused pids and a `wait` that returns a status, EINTR or ECHILD, and what the
  invoking process exits with at the end of it.
- **Bootstrap** (`Bootstrap`, `LoadImage`) and **symbol lookup** (`SymbolLookup`). The
  rewritten auxiliary vector and program headers, the memory that `map_interp` leaves, and
  hash table lookups against a linear scan. The memory is not always the load image that the
  ABI asks for: `LoadedExactly` and `HollowExactly` say when it is, and `HollowFaults` and
  `ReadOnlyTailIsKept` are segments for which it is not. The two hash tables may give
  different addresses, and do in some valid table unless all symbols that match define one
  (`SysvAgreesExactly`).
- **Globs** (`Glob`) and **desktop files** (`DesktopQuoting`, `DesktopCommand`,
  `DesktopLines`, `DesktopPatch`, `DesktopFile`, `DesktopTwice`, `DesktopMeaning`). A loop
  with one place to go back to against all decompositions; quoting against a reader of the
  Desktop Entry Specification; what every line and key of a patched file says to it; the
  commands that are recognised again, which are not all (`FoundExactly`, `EnvExactly`,
  `NamedExactly`); and patching, which is idempotent exactly on the files that `Settles`
  describes. It is not on all files: a file that ends in two blank lines loses one at each
  pass, and a header with a blank after it gets its keys again (`BlankLinesAreLost`,
  `KeysAreInsertedAgain`).

Hash functions (BLAKE3, FNV-1a, the hash of ELF tables), what files contain and what the
kernel answers are parameters, and nothing is assumed of the hashes. Strings are sequences
of bytes with an explicit UTF-8 predicate, except in the desktop modules, which use
characters. Integers are unbounded and wrap or are bounded where the source's are.

## Model

| member | source | states |
|---|---|---|
| CacheProtocol.RunKeeps | crates/onelf-rt/src/cache.rs:156-627 | Every state of every run of launches, collectors and crashes that starts from an idle cache keeps the protocol's invariant: locks held as the program point asks, descriptors on the inode their path names, trees as far built as their extraction says |
| CacheProtocol.EmptyCacheIsIdle | crates/onelf-rt/src/cache.rs:156-182 | A cache in which nothing has been done yet is one that runs may start from |
| CacheProtocol.StepKeeps | crates/onelf-rt/src/cache.rs:156-627 | One action of any actor, a crash or a new process keeps the invariant for every process at once |
| CacheProtocol.ActKeeps | crates/onelf-rt/src/cache.rs:184-421 | One file-system or lock action keeps it, although it changes what other processes see |
| CacheProtocol.OtherDescriptors | crates/onelf-rt/src/cache.rs:196-248 | What one actor does under its locks leaves the lock files of any other actor on the inodes that actor has open |
| CacheProtocol.RunningLaunchIsComplete | crates/onelf-rt/src/cache.rs:184-255 | A launch that has returned and still holds its shared lock has its ready marker and a tree that is everything its manifest lists. That launches do return is `LaunchReturns` |
| CacheProtocol.MarkerMeansComplete | crates/onelf-rt/src/cache.rs:172-176 | Wherever a run is cut short, a ready marker stands only beside a complete tree |
| CacheProtocol.OneExtractor | crates/onelf-rt/src/cache.rs:196-248 | No two processes are under the extraction mutex of one package, though collectors unlink its inode |
| CacheProtocol.CollectorFindsTheLock | crates/onelf-rt/src/cache.rs:608-627 | A recorded package has its lock file when the collector opens it, and it removes a package only with that inode locked exclusively: the branch for a missing lock file is never taken |
| CacheProtocol.BlobStaysUntilLinked | crates/onelf-rt/src/cache.rs:273-333 | Between its reuse check or its rename into the store and the hard link into the tree, a blob is in the store with the bytes its key names |
| CacheProtocol.CollectedBlobIsUnlinked | crates/onelf-rt/src/cache.rs:391-421 | A file that a collector is about to remove is in no tree, and no process is writing the store |
| CacheProtocol.CountOneIsUnlinked | crates/onelf-rt/src/cache.rs:405-416 | In a sound store a link count of one means exactly that no tree has the file |
| CacheProtocol.CollectionLeaves | crates/onelf-rt/src/cache.rs:391-421 | After a completed collection a file is left with a link count of one if and only if some step taken meanwhile removed its last tree link |
| CacheProtocol.QuietCollectionLeavesNone | crates/onelf-rt/src/cache.rs:391-421 | If no tree or scratch tree is being removed while a collection runs, it leaves no file with a link count of one |
| CacheProtocol.SparedWasLinked | crates/onelf-rt/src/cache.rs:405-416 | A file that outlives a scan was linked when the scan passed it |
| CacheProtocol.ScanOnlyLoses | crates/onelf-rt/src/cache.rs:391-421 | While a scan goes on under the store lock no file is added and no link gained |
| CacheProtocol.CollectionMayLeaveOne | crates/onelf-rt/src/cache.rs:391-421 | A run in which a completed collection leaves a file with a link count of one, beside the removal of a package |
| CacheProgress.LaunchReturns | crates/onelf-rt/src/cache.rs:184-255 | From any cache that nobody is using, and for every package whose plan can be built, there is a run of one launch without a failing call that ends with the launch returned: marker, record of the use and complete tree are there |
| CacheProgress.LaunchReturnsExactly | crates/onelf-rt/src/cache.rs:184-255 | From the empty cache some launch of a package returns in some run, whatever else happens in it, exactly if no operation of the package's plan stands in the way of a later one |
| CacheProgress.ReadyLaunchReturns | crates/onelf-rt/src/cache.rs:184-216 | A launch of a package that is there with its marker returns without ever asking for the extraction mutex, and changes nothing but the record of its use |
| CacheProgress.ReadyIsNeverExtracted | crates/onelf-rt/src/cache.rs:184-255 | In any run, a launch that has its lock on a package with a marker never extracts it, and the marker stays, whatever others do meanwhile |
| CacheProgress.FailedExtractionIsUndone | crates/onelf-rt/src/cache.rs:225-255 | An extraction may fail at any operation of its plan: there is a run in which it then leaves neither a scratch tree nor a package behind |
| CacheProgress.FailedMarkerIsUndone | crates/onelf-rt/src/cache.rs:244-255 | A launch whose marker cannot be written takes its complete published tree away again |
| CacheProgress.PackageIsRemoved | crates/onelf-rt/src/cache.rs:608-627 | From any cache that nobody is using, collecting a recorded package takes its marker, its tree and its record away |
| CacheProgress.StoreIsCollected | crates/onelf-rt/src/cache.rs:391-421 | And collecting the store takes away just the blobs that no tree carries |
| Rules.NormalFormIsStable | crates/onelf-format/src/rules.rs:222-256 | Normalising a normalised path gives it back |
| Rules.NormalFormIsConfined | crates/onelf-format/src/rules.rs:222-256 | A normalised path has at least one component, and none is empty, a dot or two dots |
| Rules.NormalFormIsUtf8 | crates/onelf-format/src/rules.rs:222-256 | Normalising keeps text well-formed UTF-8 |
| RuntimeMetadata.DecodeOfEncodeRules | crates/onelf-format/src/runtime_metadata.rs:200-291 | An encoded rule table decodes to the same rules in canonical order |
| RuntimeMetadata.EncodeOfDecodeRules | crates/onelf-format/src/runtime_metadata.rs:235-291 | An accepted file is, byte for byte, what encoding its value writes, and its rules are in canonical order |
| RuntimeMetadata.EncodingIsCanonical | crates/onelf-format/src/runtime_metadata.rs:200-233 | Two tables encode to the same bytes exactly when they hold the same rules, each as often |
| RuntimeMetadata.RecordsAreCounted | crates/onelf-format/src/runtime_metadata.rs:167-183 | The count in the header is the one the reader's budget reaches, whatever the order of the rules |
| EntrypointSets.DecodeOfEncodeSets | crates/onelf-format/src/runtime_metadata.rs:390-460 | An encoded entrypoint-set table decodes to itself with pins, entries and references in order of name |
| EntrypointSets.EncodeOfDecodeSets | crates/onelf-format/src/runtime_metadata.rs:417-460 | An accepted file is what encoding its value writes, and its value is already in that order |
| EntrypointSets.SetRecordsAreCounted | crates/onelf-format/src/runtime_metadata.rs:328-341 | Pins, entries and references are counted alike by writer and reader |
| RuntimeStreams.Encode | crates/onelf-format/src/runtime_metadata.rs:200-233 | The writer that appends and patches lengths back produces the file of the format, whose bytes `RulesFileIs` gives, or fails where that is too long or the rules are not valid |
| RuntimeStreams.Decode | crates/onelf-format/src/runtime_metadata.rs:235-291 | The reader that advances under one record budget returns the value of the format, for which `AcceptedRulesAre` gives the bytes it read, or refuses where there is none |
| RuntimeStreams.ReadPath | crates/onelf-format/src/runtime_metadata.rs:521-580 | Reading a path group consumes exactly its record and spends its records from the shared budget. The bytes behind its identifier are 1 or 2 for a file or a directory, 1 to 3 for the selection, and 1 or 2 for keeping or replacing an inherited value |
| RuntimeStreams.WritePath | crates/onelf-format/src/runtime_metadata.rs:488-519 | Writing a path group appends exactly its record, with those bytes behind its identifier, or fails past the bound of the file |
| RuntimeStreams.WriteCandidate | crates/onelf-format/src/runtime_metadata.rs:504-512 | Writing a candidate appends its record, whose first byte is 1 for the package root and 2 for a library root |
| RuntimeStreams.WriteHook | crates/onelf-format/src/runtime_metadata.rs:219-229 | Writing a hook appends its record, whose one byte is its number in the registry, from 1 to 5 |
| RuntimeStreams.ReadHook | crates/onelf-format/src/runtime_metadata.rs:262-275 | Reading a hook takes the same numbers |
| RuntimeLayout.RulesFileIs | crates/onelf-format/src/runtime_metadata.rs:3-20 | An ORUL file byte for byte: magic, version, lengths, and the rules in canonical order, each field and tag with its number |
| RuntimeLayout.AcceptedRulesAre | crates/onelf-format/src/runtime_metadata.rs:235-291 | Every accepted file is laid out so |
| RuleSafety.AcceptedRulesAreSafe | crates/onelf-format/src/runtime_metadata.rs:235-291 | Whatever file is accepted is within 1 MiB and 4096 records, has no identity and pin twice, and each of its groups sets variables that neither the loader nor the runtime reads to paths that stay below their base |
| RuntimeLayout.SetsFileIs | crates/onelf-format/src/runtime_metadata.rs:22-26 | An OSET file byte for byte, with pins, entries and references in order of name |
| RuntimeLayout.AcceptedSetsAre | crates/onelf-format/src/runtime_metadata.rs:417-460 | Every accepted file is laid out so |
| EntrypointStreams.Encode | crates/onelf-format/src/runtime_metadata.rs:390-415 | The imperative encoder of entrypoint sets produces the file of the format |
| EntrypointStreams.Decode | crates/onelf-format/src/runtime_metadata.rs:417-460 | The imperative decoder returns the value of the format, or refuses |
| EntrypointStreams.WriteEntry | crates/onelf-format/src/runtime_metadata.rs:400-413 | The references of an entry are written in order of name |
| Streams.Writer.Append | crates/onelf-format/src/runtime_metadata.rs:741-754 | Bytes are appended unless the file would pass its bound |
| Streams.Writer.EndRecord | crates/onelf-format/src/runtime_metadata.rs:777-782 | The length of everything since the record began is put where it began, and nothing else changes |
| Streams.Budget.Add | crates/onelf-format/src/runtime_metadata.rs:590-597 | The aggregate count grows by what is added, or the record is refused past the maximum |
| Streams.Reader.Count | crates/onelf-format/src/runtime_metadata.rs:637-646 | A count is accepted only within the budget and the bytes that are left |
| Streams.Reader.Record | crates/onelf-format/src/runtime_metadata.rs:661-678 | A record is a reader of just its body; a wrong tag or a length past the end is refused |
| Streams.Closed | crates/onelf-format/src/runtime_metadata.rs:770-782 | A record that is filled in and then closed is the one its format writes |
| Streams.Finished | crates/onelf-format/src/runtime_metadata.rs:784-789 | The header of a finished file declares the length of what follows it |
| Bytes.BeforeMeans | crates/onelf-format/src/runtime_metadata.rs:204-206 | One name comes before another exactly if they are alike up to a place where it ends or has the smaller byte |
| Transport.WrapUnwrap | crates/onelf-format/src/runtime_metadata.rs:690-728 | A file whose header is accepted is the header written for its body and record count, followed by that body |
| ProviderIndex.DecodeOfEncodeIndex | crates/onelf-format/src/provider_index.rs:135-219 | An encoded provider index decodes to itself |
| ProviderIndex.EncodeOfDecodeIndex | crates/onelf-format/src/provider_index.rs:152-219 | An accepted file is what encoding its index writes |
| ProviderIndex.NewIndex | crates/onelf-format/src/provider_index.rs:103-133 | Exports in any order make an index exactly when the names are valid, distinct and within the bound, and the index holds just those |
| ProviderIndex.Decode | crates/onelf-format/src/provider_index.rs:152-219 | The imperative decoder returns the index of the format, or refuses |
| ProviderIndex.ReadBody | crates/onelf-format/src/provider_index.rs:162-215 | Reading one identity record and then exports, as many as the header declares, gives the index of the body |
| ProviderIndex.Encode | crates/onelf-format/src/provider_index.rs:135-150 | The imperative encoder produces the file of the format |
| RuntimeLayout.IndexFileIs | crates/onelf-format/src/provider_index.rs:135-150 | An OPRV file byte for byte: the set's own name, and the exports in order |
| RuntimeLayout.AcceptedIndexIs | crates/onelf-format/src/provider_index.rs:152-219 | Every accepted file is laid out so |
| ManifestCodec.DeserializeOfSerialize | crates/onelf-format/src/manifest.rs:200-278 | A manifest of version 3 whose counts match its lists and whose references are valid is read back, whatever follows it |
| ManifestCodec.SerializeOfDeserialize | crates/onelf-format/src/manifest.rs:220-278 | An accepted input of version 3 starts with what serialising its manifest gives, and the manifest's counts match its lists |
| ManifestCodec.OldVersionsUpgrade | crates/onelf-format/src/manifest.rs:195-218 | A manifest of any readable version, serialised and read again, is the same manifest at version 3 |
| ManifestCodec.EntryExact | crates/onelf-format/src/entry.rs:196-251 | Writing and reading an entry with its blocks undo each other at every version, each at its own block width |
| ManifestCodec.BlockExact | crates/onelf-format/src/entry.rs:89-114 | Writing and reading a block undo each other: 24 bytes and a zero hash in version 1, 56 bytes from version 2 on |
| ManifestCodec.PointExact | crates/onelf-format/src/entry.rs:140-160 | Writing and reading an entrypoint undo each other, unknown flag bits included |
| ManifestLayout.SerializedIs | crates/onelf-format/src/manifest.rs:200-218 | What is written, field by field in fixed bytes: header, entrypoints, entries with their blocks, offsets of library directories, strings, at version 3 |
| ManifestLayout.AcceptedIs | crates/onelf-format/src/manifest.rs:220-278 | What is accepted is of version 1, 2 or 3 and starts with those bytes at its own version |
| ManifestStreams.Read | crates/onelf-format/src/manifest.rs:220-278 | The loops over a cursor, stopping at the first error, return the manifest of the format or nothing |
| ManifestStreams.Write | crates/onelf-format/src/manifest.rs:200-218 | The loops over a writer write the current version, whatever version the header names |
| ManifestStreams.Validate | crates/onelf-format/src/manifest.rs:282-345 | Accepts exactly the manifests whose references, offsets and library directories are in range and inside the package |
| ManifestPaths.WalkIsNeverCut | crates/onelf-format/src/manifest.rs:393-417 | On an accepted manifest every parent comes before its child, so a walk of more steps than the index of its entry goes all the way up |
| ManifestPaths.EntryPath | crates/onelf-format/src/manifest.rs:398-417 | The bounded walk ends on every manifest, and on an accepted one returns the names from the top down to the entry |
| ManifestPaths.ValidatedEntryPath | crates/onelf-format/src/manifest.rs:424-462 | Returns the components of the checked walk, on any manifest; its bound never ends it |
| ManifestPaths.CheckedPathIsSafe | crates/onelf-format/src/manifest.rs:419-462 | Whatever the manifest, every component of a returned path is plain: not empty, not dots, no slash, no NUL |
| ManifestPaths.CheckedExactly | crates/onelf-format/src/manifest.rs:424-462 | On an accepted manifest the check fails exactly where a name on the way up is not plain, and otherwise follows the unchecked walk |
| ManifestPaths.TextHasTheCheckedComponents | crates/onelf-format/src/manifest.rs:398-462 | Splitting the text of the unchecked path at slashes gives the checked components, if there are any, and it is relative and never climbs |
| LinkTargets.TargetWithinRoot | crates/onelf-format/src/manifest.rs:19-48 | Accepts exactly the non-empty relative targets that, followed from the link's directory, are never above the root at any component |
| LinkTargets.AcceptedTargetsLandInside | crates/onelf-format/src/manifest.rs:14-48 | Where an accepted link leads, unless to the root itself, is a relative path of plain components |
| StringTable.StringTableBuilder.Add | crates/onelf-format/src/manifest.rs:815-824 | A known string gets its old offset and changes nothing; a new one is appended with its NUL and gets the old length as its offset, in 32 bits |
| StringTable.EveryOffsetReadsBack | crates/onelf-format/src/manifest.rs:815-836 | A new string's offset is its place exactly if the table is below 4 GiB when it is added, and then reads it back up to its first NUL whatever is added later; past that a NUL-free string is read back exactly if it happens to stand at the wrapped offset, or is empty where what stands there is no text |
| StringTable.ReadsBack | crates/onelf-format/src/manifest.rs:364-371 | A string that stands at its offset reads back as what precedes its first NUL, and as itself exactly if it has none |
| StringTable.OffsetsAreDistinct | crates/onelf-format/src/manifest.rs:815-824 | Different NUL-free strings that stand at their offsets have different offsets |
| StringTable.OffsetsMayWrap | crates/onelf-format/src/manifest.rs:815-824 | Adding the empty string, then enough to fill 4 GiB, gives the next string the offset of the empty one, where the empty one is read |
| EnvRecord.ParseEntryOfText | crates/onelf-rt/src/hostenv.rs:277-344 | Either parser reads an encoded entry back, whatever follows it |
| EnvRecord.ParseRecordOfText | crates/onelf-payloads/src/exec.rs:541-622 | A written record parses to its entries, by the parser beside the writer and by the one of the hooks |
| RecordLayouts.EnvEntryIs | crates/onelf-rt/src/hostenv.rs:285-303 | An entry spelled out: a minus sign for a removed variable, a star for one set at exec, otherwise the hash; then the old value behind its length, or a minus sign |
| RecordLayouts.HexIs | crates/onelf-rt/src/hostenv.rs:285-303 | A hash is written with the digits 0 to f at their places, the most significant first |
| RecordLayouts.DecimalIs | crates/onelf-rt/src/hostenv.rs:285-303 | A length is written with the digits 0 to 9 at their places, without leading zeros |
| EnvRecord.ParsersDiffer | crates/onelf-rt/src/hostenv.rs:305-344 | Two inputs at which the parsers differ: an empty name and a signed length |
| EnvRecord.EntriesAgreeExactly | crates/onelf-rt/src/hostenv.rs:305-344 | What the hooks accept the writer's side reads as the same, and they read an entry that it accepts alike exactly if the name is not empty and the length does not start with a plus sign |
| EnvRecord.RecordsAgreeExactly | crates/onelf-payloads/src/exec.rs:541-622 | On any input the hooks read a prefix of the entries that the writer's side reads, and all of them exactly if each is one they take |
| Restoration.BuildRecord | crates/onelf-rt/src/hostenv.rs:224-266 | The record has one entry for each variable that differs and one for each set at exec, in order of name, and none for itself |
| Restoration.LaunchEntries | crates/onelf-rt/src/hostenv.rs:224-266 | The entries of a launch have distinct valid names, leave the record's own variable out, and are found by name |
| Restoration.RestoringUndoesTheLaunch | crates/onelf-payloads/src/exec.rs:414-479 | A host child that is started at once gets the environment the launch was started with, whatever the hash function and whatever the exec command set or removed of the interpreter and the library path |
| Restoration.HostChildEnvironment | crates/onelf-payloads/src/exec.rs:414-479 | For any later environment with distinct names, exactly the variables that still hold what was applied, are still removed or are one of `ONELF_INTERP` and `LD_LIBRARY_PATH` are put back; every other one is passed on |
| Restoration.LookupRestored | crates/onelf-payloads/src/exec.rs:414-479 | The same for any record with distinct names: what each variable becomes depends on its own entry and value only |
| Restoration.CaptureAgreesWithTheHooks | crates/onelf-rt/src/hostenv.rs:51-80 | A nested launch captures the environment that the hooks would give a host child |
| Restoration.UnnamedPassThrough | crates/onelf-payloads/src/exec.rs:430-445 | Strings without an equals sign pass through unchanged and in order |
| HookBounds.StringsFit | crates/onelf-payloads/src/exec.rs:419-478 | For any record, the strings put back never take more than its length, if no name that can be put back is given twice |
| HookBounds.PointersFit | crates/onelf-payloads/src/exec.rs:419-428 | The pointers never pass one for each string given, one for each entry and the null |
| HookBounds.EntryIsLonger | crates/onelf-payloads/src/exec.rs:553-622 | Each entry of the record is longer than the string it may be put back as |
| HookBounds.RepeatedNamesOverflow | crates/onelf-payloads/src/exec.rs:419-478 | For every environment that gives such a name twice there is a record whose strings pass the bound, put back twice by one entry |
| HookBounds.StringsFitExactly | crates/onelf-payloads/src/exec.rs:419-478 | For any environment and hash, the strings stay within the record's length and its terminator for every record exactly if no name is given twice but the record's own and the empty one |
| ExecHooks.Parse | crates/onelf-payloads/src/exec.rs:553-622 | The parser over raw memory reads the entry that the format has there, stays before the terminator, and says where the next one starts |
| ExecHooks.FindEntry | crates/onelf-payloads/src/exec.rs:541-551 | Finds the first entry of a name, as a search of the parsed record does |
| ExecHooks.IsPresent | crates/onelf-payloads/src/exec.rs:489-495 | A name is present exactly when some string given has it before an equals sign |
| ExecHooks.Put | crates/onelf-payloads/src/exec.rs:497-511 | Writes name, equals sign, value and NUL behind what is there, and changes nothing before it |
| ExecHooks.RestoredEnvironment | crates/onelf-payloads/src/exec.rs:414-479 | For any record, and any environment that gives no name twice but the record's own and the empty one, the loops over both buffers stay within them and leave pointers to exactly the restored environment, ended by a null |
| ExecHooks.InsideAny | crates/onelf-payloads/src/exec.rs:286-309 | True exactly when the path is one of the non-empty colon-separated roots or lies below one |
| ViewRecord.ParseOfText | crates/onelf-payloads/src/rtenv.rs:135-160 | Every record within the bounds that the runtime writes is accepted and read back as it was written |
| ViewRecord.Parse | crates/onelf-payloads/src/rtenv.rs:135-160 | What is accepted is within every bound: entry count, name and value lengths, no NUL |
| ViewRecord.AcceptedIsRewritten | crates/onelf-payloads/src/rtenv.rs:135-160 | Every accepted input means what the text written for its record means |
| ViewRecord.TextIsInjective | crates/onelf-rt/src/env.rs:758-801 | Different records have different texts |
| RecordLayouts.ViewRecordIs | crates/onelf-rt/src/env.rs:758-801 | The text of a view's record spelled out: head, number of entries, entries, package roots and the host's record |
| RecordLayouts.ViewEntryIs | crates/onelf-rt/src/env.rs:758-801 | An entry spelled out, with the marks for its policy and for whether the variable was left set |
| ViewReader.Cursor.Number | crates/onelf-payloads/src/rtenv.rs:211-233 | Reads a decimal of at most the cap, and refuses it as missing or as too large |
| ViewReader.Cursor.Entry | crates/onelf-payloads/src/rtenv.rs:282-303 | Reads one entry or gives the reason of the first thing that is wrong with it |
| ViewReader.ParseRecord | crates/onelf-payloads/src/rtenv.rs:135-160 | The pass over the cursor accepts exactly the records of the format, with its reasons for refusing, and remembers where the entries are |
| ViewReader.Entries | crates/onelf-payloads/src/rtenv.rs:163-171 | Reading the entries again never fails and yields all of them, as many as declared |
| ViewRestore.Apply | crates/onelf-payloads/src/rtenv.rs:328-347 | Applies an accepted record to the process and leaves it as it was for a refused one |
| ViewRestore.MissingAreFilled | crates/onelf-payloads/src/rtenv.rs:328-347 | A present variable is never touched; a missing one becomes the value of the first entry that claims it, or the roots or the host record |
| ViewRestore.PresentIsKept | crates/onelf-payloads/src/rtenv.rs:36-45 | No input changes a present variable |
| ViewRestore.ApplyingTwice | crates/onelf-payloads/src/rtenv.rs:328-347 | Applying an input again changes nothing |
| ViewRestore.EncodeViewEnv | crates/onelf-rt/src/env.rs:715-799 | Writes the first entry of each mapped name and every other changed variable that fits, in order, and nothing at all past the bounds the constructor reads back |
| ViewRestore.ViewIsRestored | crates/onelf-rt/src/env.rs:715-799 | Across both crates: after any later changes, the constructor leaves every present variable alone and fills every missing one with what the launch left for it |
| ViewRestore.ClearedValuesComeBack | crates/onelf-rt/src/env.rs:715-799 | After a cleared environment every changed and recordable value is back |
| EnvExpand.Expand | crates/onelf-payloads/src/env.rs:382-458 | Succeeds exactly if the expansion and its terminator fit the buffer, and then writes just that |
| EnvMeaning.ExpansionMeans | crates/onelf-payloads/src/env.rs:382-458 | For any sequence of copied text, references and references with defaults, the expansion of what they are written as is what they mean: text as it is, a variable's value, and the default exactly where that is unset or empty |
| EnvMeaning.UnshutIsCopied | crates/onelf-payloads/src/env.rs:382-458 | A text without the end of a reference is copied |
| EnvMeaning.OverlongIsCopied | crates/onelf-payloads/src/env.rs:382-458 | A reference to a name of 256 bytes or more is copied as far as its opening, and the rest is expanded |
| EnvExpand.WrapIsExpanded | crates/onelf-payloads/src/env.rs:767-798 | A value falls into what stands before its own reference, the reference, and what stands after it, and so does its expansion |
| EnvExpand.OtherVariables | crates/onelf-payloads/src/env.rs:382-458 | An expansion depends on no variable that it does not name |
| EnvExpand.ApplyingAgain | crates/onelf-payloads/src/env.rs:702-824 | Applying a value again changes nothing if its names are shorter than 256 bytes and it refers to its own variable at most once, whether or not its parts fit the buffers they are compared in |
| EnvExpand.OverlongNameGrows | crates/onelf-payloads/src/env.rs:382-458 | With a name of more than 256 bytes around its own reference a value grows each time it is applied |
| EnvLines.WrapsCurrent | crates/onelf-payloads/src/env.rs:801-824 | True exactly when the live value is not empty and starts and ends with the expansions around the reference, both within their buffers |
| EnvLines.HasApplied | crates/onelf-payloads/src/env.rs:767-798 | Looks for the first reference to the variable itself and asks whether the live value wraps it |
| EnvLines.ApplyEnvBytes | crates/onelf-payloads/src/env.rs:702-745 | Applies every line in turn to the process: blank lines, comments, lines without a key and values that do not fit are passed over |
| EnvMeaning.LineSets | crates/onelf-payloads/src/env.rs:702-757 | A line whose value does not mention its own variable sets it to what the value means, if that is shorter than 8192 bytes |
| EnvMeaning.LineWraps | crates/onelf-payloads/src/env.rs:702-824 | A line that wraps its own variable puts its text around the value, exactly where the value does not have it around it yet |
| EnvMeaning.LinesInTurn | crates/onelf-payloads/src/env.rs:702-745 | The lines of a text take effect one after another |
| EnvMeaning.OtherLines | crates/onelf-payloads/src/env.rs:702-745 | Blank lines, comments and lines without an equals sign change nothing |
| EnvLines.LineAppliesAgain | crates/onelf-payloads/src/env.rs:759-766 | Applying such a line again changes nothing |
| EnvLines.TwoReferencesGrow | crates/onelf-payloads/src/env.rs:767-824 | A value with two references to its own variable grows at each application |
| HostChoice.Compare | crates/onelf-format/src/verdef.rs:29-37 | The host wins only with a strict superset of the versions, the bundle with a superset |
| HostChoice.CompareIsAsymmetric | crates/onelf-format/src/verdef.rs:29-37 | Never do both copies win over each other, and both keep their own exactly if they define the same versions |
| HostChoice.DriverClosure | crates/onelf-format/src/resolve.rs:654-682 | The queue finds the least set that has the seeds and all that its members need |
| HostChoice.OneClosure | crates/onelf-format/src/resolve.rs:654-682 | There is only one such set |
| HostChoice.DecideOn | crates/onelf-format/src/resolve.rs:361-428 | Decides libc and its family first and then every candidate in order of name, over the least closure. What its result holds of any one name is in the rows that follow |
| HostChoice.LoaderFor | crates/onelf-format/src/resolve.rs:638-652 | The interpreter that the host libc names if the host has it, otherwise its first loader |
| HostChoice.DriversComeFromTheHost | crates/onelf-format/src/resolve.rs:398-421 | A library that the bundle does not carry comes from the host exactly if the drivers need it and the host has it, unless it is of the glibc family, which then never does |
| HostChoice.WinnersAreTheHosts | crates/onelf-format/src/resolve.rs:361-428 | Every winner, but for a loader, stands for the host's library of its own name |
| HostChoice.ComparedMeans | crates/onelf-format/src/resolve.rs:398-421 | What is reported of a library outside the glibc family: that the host alone has it, or how the two sets of versions compare as sets |
| HostChoice.BundledGivesWayOnlyToMore | crates/onelf-format/src/resolve.rs:361-428 | A bundled library outside the glibc family comes from the host exactly when it is a candidate and the host's copy defines strictly more versions |
| HostChoice.LibcFamilyIsAUnit | crates/onelf-format/src/resolve.rs:361-428 | A bundled glibc name comes from the host exactly when the host's libc wins and a loader is found, and every loader name then stands for that loader |
| HostChoice.AutoWithinAlways | crates/onelf-format/src/resolve.rs:361-428 | What auto takes from the host, always takes from the same place |
| Selection.NewIdentity | crates/onelf-format/src/resolve.rs:460-486 | Builds the canonical text of the pins, or refuses them |
| Selection.IdentityIsTheSet | crates/onelf-format/src/resolve.rs:459-543 | Two selections have the same canonical text exactly when they have the same pins, apart from order, repetition and the case of hashes |
| Selection.PinLineIsInjective | crates/onelf-format/src/resolve.rs:541-544 | A pin's line names one name and one hash |
| RecordLayouts.PinLineIs | crates/onelf-format/src/resolve.rs:541-544 | A pin's line spelled out: the name behind its length, a tab and the hash |
| Selection.WriteRecord | crates/onelf-format/src/resolve.rs:937-972 | Writes the head of the identity and then winners, what was seen of them, loader and incomparables |
| Selection.Parse | crates/onelf-format/src/resolve.rs:1046-1088 | Reads a record line by line and adopts nothing unless its whole head is the expected one and the files are unchanged |
| Selection.OnlyItsOwnRecord | crates/onelf-format/src/resolve.rs:1015-1088 | A record is adopted under an identity and a fingerprint only if it was written for both, whatever names its directory |
| Selection.RecordIsReadBack | crates/onelf-format/src/resolve.rs:937-1088 | With names and paths that lines can carry, reading a record gives the decision back exactly if the loader is still a file and no winner's file has changed, and otherwise nothing is adopted |
| RecordLayouts.DecisionIs | crates/onelf-format/src/resolve.rs:937-972 | The record spelled out line by line: whose it is, the host state, the loader, winners with paths, what was seen of their files, and what could not be compared |
| VersionChains.WalkedChain | crates/onelf-format/src/verdef.rs:551-572 | What the walk accepts is a chain within the section and the record bound |
| VersionChains.ChainWalks | crates/onelf-format/src/verdef.rs:551-572 | Every chain is accepted, wherever its auxiliary entries lie |
| VersionChains.CheckPlacement | crates/onelf-format/src/verdef.rs:573-589 | The binary search refuses exactly when some auxiliary entry overlaps some header |
| VersionSets.ParseVerdef | crates/onelf-format/src/verdef.rs:591-638 | Returns the versions of the chain the section lays out, which `VersionsMean` gives from the bytes, and refuses exactly when it lays out none |
| VersionSets.ParseVerneed | crates/onelf-format/src/verdef.rs:691-755 | Returns the versions required of each needed dependency and the number of headers, which `RequiredMeans` gives from the bytes, and refuses exactly when the section says none |
| VersionBytes.VersionsMean | crates/onelf-format/src/verdef.rs:605-630 | For every chain a section lays out: it is refused exactly if some name cannot be read, and a name is a version exactly if it is the first of a definition whose flags have the lowest bit clear |
| VersionBytes.RequiredMeans | crates/onelf-format/src/verdef.rs:691-755 | For every chain of requirements: it is refused exactly if some dependency is not needed, some name is empty or cannot be read, and otherwise each dependency has the names and flags of all headers that name it, in order |
| VersionBytes.DefinitionsLink | crates/onelf-format/src/verdef.rs:596-630 | The number of names, the first name and the next header are 6, 12 and 16 bytes into a header of definitions, and names follow one another by the word 4 bytes in |
| VersionBytes.NeedsLink | crates/onelf-format/src/verdef.rs:700-745 | And 2, 8 and 12 bytes into a header of requirements, whose names follow by the word 12 bytes in |
| VersionBytes.NameMeans | crates/onelf-format/src/verdef.rs:757-776 | A name is what precedes the first NUL at its offset, which is within the bound, and is text |
| VersionSets.OneReading | crates/onelf-format/src/verdef.rs:591-638 | A section is read as one chain only |
| VersionSets.OneReadingOfNeeds | crates/onelf-format/src/verdef.rs:691-755 | A section of requirements is read as one chain only |
| VersionSets.LayoutDoesNotMatter | crates/onelf-format/src/verdef.rs:591-638 | Any two layouts of the same definitions, interleaved or headers first, give the same versions |
| VersionSets.LayoutOfNeedsDoesNotMatter | crates/onelf-format/src/verdef.rs:691-755 | Any two layouts of the same requirements, each with its own string table, give the same map and the same count |
| VersionLayouts.BothLayouts | crates/onelf-format/src/verdef.rs:566-590 | Any two definitions, whatever their flags, have two different sections that say just them, one with each header followed by its auxiliary entry and one with all headers first |
| VersionLayouts.BothLayoutsOfNeeds | crates/onelf-format/src/verdef.rs:566-590 | Any two requirements, whatever their flags, have two such sections |
| Guardian.RunKeeps | crates/onelf-rt/src/guardian.rs:197-300 | Every state of every run of the process tree keeps the invariant |
| Guardian.ReleasedOnlyWhenEmpty | crates/onelf-rt/src/guardian.rs:226-297 | Once the claims are released no process descended from the foreground exists, however orphaned and whatever its pid |
| Guardian.NoChildMeansNoFamily | crates/onelf-rt/src/guardian.rs:320-335 | While the guardian waits it has no child exactly when no descendant of the foreground is left |
| Guardian.AdopterHeld | crates/onelf-rt/src/guardian.rs:385-393 | Under a subreaper an orphan stays in the family exactly when its parent was in it |
| Guardian.OneReport | crates/onelf-rt/src/guardian.rs:226-300 | Exactly one outcome is reported: the foreground's own before the release, or that there is none after it. What a status is reported as is `ReportSaysHowItEnded` |
| GuardianReports.ReportSaysHowItEnded | crates/onelf-rt/src/guardian.rs:132-140 | In any run in which the foreground was reaped and the guardian is done, an exit is reported with its code, a signal with its number and anything else as neither, and the release follows |
| Guardian.ForegroundIsAccountedFor | crates/onelf-rt/src/guardian.rs:262-289 | The branch for a foreground that was never reaped is not taken |
| Guardian.ForwardsToForeground | crates/onelf-rt/src/guardian.rs:489-503 | A signal is forwarded to the foreground or to nobody, outside the gap between its reaping and the store after it |
| Guardian.RecordIsReadBack | crates/onelf-rt/src/guardian.rs:112-130 | The proxy reads the outcome back exactly if its value fits the byte that the record has for it |
| GuardianReports.ProxySeesHowItEnded | crates/onelf-rt/src/guardian.rs:92-130 | Through the two bytes on the pipe, the invoking process exits with the foreground's code, with 128 and the signal's number, or with 1 |
| GuardianReports.OutcomeIsReported | crates/onelf-rt/src/guardian.rs:226-300 | However the foreground may end, there is a run in which it does and the guardian reports just that |
| GuardianReports.NoLaunchIsReported | crates/onelf-rt/src/guardian.rs:226-260 | A guardian that cannot hold its subtree or fork has a run in which it releases and says that there was no launch |
| GuardianReports.ProxySeesNoLaunch | crates/onelf-rt/src/guardian.rs:108-130 | That is the record 3 0, any kind but 0, 1 and 3 is neither an exit nor a signal, and both are passed on as 1 |
| LoadImage.MapInterp | crates/onelf-payloads/src/bootstrap.rs:384-465 | For ascending segments on pages of their own, wherever the kernel puts the image, every byte of every segment and of the rest of its last page is as described, and the base is what the ABI adds to each address; with every call of mmap granted the run ends early only where a store faults, in a later segment without contents that starts inside a page of a first segment it cannot be written in |
| LoadImage.LoadedExactly | crates/onelf-payloads/src/bootstrap.rs:436-462 | A segment's image is that of the System V ABI exactly when it is writable, has no part after the file's, or the file is zero there |
| LoadImage.HollowExactly | crates/onelf-payloads/src/bootstrap.rs:415-462 | A later segment without contents that starts inside a page has its image exactly when its protection is that of the first segment and its bytes up to the next page are cleared, or are in the file and zero |
| LoadImage.HollowFaults | crates/onelf-payloads/src/bootstrap.rs:415-462 | A read-only segment and a writable one of that kind: clearing its byte faults, whatever the page size |
| LoadImage.ReadOnlyTailIsKept | crates/onelf-payloads/src/bootstrap.rs:436-462 | A read-only segment whose contents are followed by another byte in the file: its image is not the one of the ABI |
| LoadImage.MapTail | crates/onelf-payloads/src/bootstrap.rs:436-463 | Maps pages of zeros after the file pages and clears the rest of the last one, touches nothing else, and fails without a refused call only if some byte to be cleared cannot be stored to |
| LoadImage.MapFile | crates/onelf-payloads/src/bootstrap.rs:415-434 | Maps the whole image for the first segment, its own pages for a later one and nothing for a later one without contents, and changes no other page |
| Bootstrap.Bootstrap | crates/onelf-payloads/src/bootstrap.rs:472-652 | Every pair of the auxiliary vector keeps its tag and its value, except that the program headers, their number, the entry and the interpreter's base are the new ones; the copied table is patched; and the path that is opened is the override, or beside the binary, always so for a process with AT_SECURE set |
| Bootstrap.VectorTells | crates/onelf-payloads/src/bootstrap.rs:613-646 | What is found in the vector afterwards under each tag: 3 the grown table, 5 its length, 7 the interpreter's base, 9 the moved entry, and under any other what was there |
| Bootstrap.IndexVector | crates/onelf-payloads/src/bootstrap.rs:486-503 | Finds the pair of every tag up to 31, or that there is none, up to and with the end of the vector |
| Bootstrap.CopyHeaders | crates/onelf-payloads/src/bootstrap.rs:572-592 | Copies the program headers and makes the one that describes the table describe the new one |
| Bootstrap.HeadersAreKept | crates/onelf-payloads/src/bootstrap.rs:572-592 | In the grown table every header is as it was, but one of kind 6 gives the new table's address, seen from the load address it gave, and its 56 bytes for each header |
| Bootstrap.LoadAddressIsKept | crates/onelf-payloads/src/bootstrap.rs:579-592 | The load address that is derived from the patched header and the new table is the one derived from the old ones, wrap-around included |
| Bootstrap.InterpIsFound | crates/onelf-payloads/src/bootstrap.rs:593-611 | Whatever headers the table has, the load address derived from the grown table is the one derived from the old, and at it the interpreter's header leads to the path behind the table |
| Bootstrap.InterpPath | crates/onelf-payloads/src/bootstrap.rs:522-602 | The path is the override, or what the binary's path has up to its last slash followed by the packaged path |
| Bootstrap.FindOverride | crates/onelf-payloads/src/bootstrap.rs:662-673 | The first setting of the variable that is an absolute path |
| Bootstrap.ChosenMeans | crates/onelf-payloads/src/bootstrap.rs:510-517 | The override is the first string that sets ONELF_INTERP to an absolute path, and there is none for a process with AT_SECURE set |
| SymbolLookup.GnuLookup | crates/onelf-payloads/src/exec.rs:819-848 | Returns what a linear scan of the hashed symbols finds first, or zero if there is nothing to find |
| SymbolLookup.SysvLookup | crates/onelf-payloads/src/exec.rs:850-878 | Returns the first match of the name's chain, which is zero exactly if no symbol of the object matches; local symbols may be left out of the chains |
| SymbolLookup.ScanMeans | crates/onelf-payloads/src/exec.rs:880-903 | The scan is zero exactly if nothing matches |
| SymbolLookup.MatchMeans | crates/onelf-payloads/src/exec.rs:880-903 | A symbol matches exactly if it is a function of that name, defined here, global or weak, and of the default version where versions are recorded, and gives its own address |
| SymbolLookup.ScanFindsTheFirst | crates/onelf-payloads/src/exec.rs:880-903 | The scan gives the address of the first such symbol, and zero exactly if there is none |
| SymbolLookup.MatchIsInBucket | crates/onelf-payloads/src/exec.rs:819-848 | A matching symbol lies in the bucket of its name and its link holds the name's hash |
| SymbolLookup.LookupsAgree | crates/onelf-payloads/src/exec.rs:768-816 | Both tables agree on whether a name is found, and on its address where all symbols that match define one |
| SymbolLookup.SysvAgreesExactly | crates/onelf-payloads/src/exec.rs:850-878 | Whatever the hash, every valid DT_HASH table gives the address that a scan finds first exactly if all symbols that match define one address |
| SymbolLookup.LookupsMayDiffer | crates/onelf-payloads/src/exec.rs:850-878 | An object with two symbols of one name and valid tables of both kinds, which give two addresses |
| Glob.Glob | crates/onelf-rt/src/inspect.rs:113-132 | The loop with one place to go back to ends and is true exactly when the string decomposes under the pattern |
| Glob.FitsExactly | crates/onelf-rt/src/inspect.rs:113-132 | Trying every length of every star decides the same question |
| Glob.Matches | crates/onelf-rt/src/inspect.rs:106-111 | True exactly when the trimmed pattern fits the path or one of its ancestors |
| Glob.TrimIsIdempotent | crates/onelf-rt/src/inspect.rs:106-111 | A trimmed pattern is trimmed |
| Glob.TrimTakesDecoration | crates/onelf-rt/src/inspect.rs:106-111 | A pattern is its trimmed form with any number of `./` before it and of slashes after it, and the trimmed form has neither |
| DesktopQuoting.WriteExecArg | crates/onelf-format/src/desktop.rs:14-34 | The loop over characters writes the quoted and escaped argument |
| DesktopQuoting.WriteStringValue | crates/onelf-format/src/desktop.rs:40-53 | The loop over characters escapes a string value, a leading space as well |
| DesktopQuoting.StringValueIsReadBack | crates/onelf-format/src/desktop.rs:36-53 | Undoing the escapes of a string key gives the string back, whatever it is |
| DesktopQuoting.ReadersFindThePath | crates/onelf-format/src/desktop.rs:7-34 | A reader of the specification that undoes escapes, quoting and doubled percent signs finds the path as first argument, whatever path and whatever follows |
| DesktopQuoting.OrdinaryIsWrittenAsItIs | crates/onelf-format/src/desktop.rs:14-53 | A path of letters, digits and unreserved punctuation is written without quotes or escapes |
| DesktopCommand.ExecArgTail | crates/onelf-format/src/desktop.rs:59-99 | The index scan skips one argument, quoted or not, and the blanks around it |
| DesktopCommand.TailIsFound | crates/onelf-format/src/desktop.rs:55-99 | After a written argument the scan finds what follows it less its leading blanks, and so unchanged exactly if it has none |
| DesktopCommand.PrefixIsTakenOff | crates/onelf-format/src/desktop.rs:118-132 | The entrypoint prefix of a written command is taken off, and only it, if the name's white space is all tabs, newlines and carriage returns, which are written as escapes |
| DesktopCommand.NoPrefixToTakeOff | crates/onelf-format/src/desktop.rs:118-132 | A written command without one is left alone whatever follows, unless its path is the word env |
| DesktopCommand.CommandIsSkipped | crates/onelf-format/src/desktop.rs:101-132 | Whatever command was written, for a path other than env or a name as above, its arguments are found again |
| DesktopCommand.FoundExactly | crates/onelf-format/src/desktop.rs:101-132 | What follows a command is found, whatever it is, exactly for those paths and names |
| DesktopCommand.EnvExactly | crates/onelf-format/src/desktop.rs:118-132 | After the path env, what follows is found exactly if its first word, less leading quotes, does not start with the variable's name |
| DesktopCommand.NamedExactly | crates/onelf-format/src/desktop.rs:101-132 | With a named entrypoint, any arguments are found exactly if the name is written as one word, so with a blank in it none ever are |
| DesktopCommand.NameWithABlank | crates/onelf-format/src/desktop.rs:101-132 | With the entrypoint `a b` the field code that follows is lost |
| DesktopCommand.EnvMayBeLost | crates/onelf-format/src/desktop.rs:118-132 | After the path env the variable's name itself is lost |
| DesktopFile.PatchDesktopFile | crates/onelf-format/src/desktop.rs:150-214 | The loop over lines, the two insertions and the final newline give the patched text |
| DesktopMeaning.LinesMean | crates/onelf-format/src/desktop.rs:162-196 | What becomes of every line: in the entry or an action a command becomes one that a reader takes for this package with the old arguments, in the entry a TryExec un-escapes to the path and an Icon names the icon given, and every other line is kept |
| DesktopMeaning.FilesMean | crates/onelf-format/src/desktop.rs:198-209 | The patched file is those lines, and a command and a TryExec for the entry where it had none, below the first line that is its heading, blanks around it aside, or at the end |
| DesktopMeaning.CommandLaunches | crates/onelf-format/src/desktop.rs:101-115 | Whatever follows, a reader of the specification takes the command for the path, or for env, the variable with the entrypoint's name, and the path |
| DesktopMeaning.TextIsItsLines | crates/onelf-format/src/desktop.rs:157-214 | A text without carriage returns that ends in one line feed is made of its lines again |
| DesktopLines.LastPatchWinsOnALine | crates/onelf-format/src/desktop.rs:162-196 | On each line a later patch takes over from an earlier one |
| DesktopPatch.KeysAreAdded | crates/onelf-format/src/desktop.rs:198-211 | After a pass the entry group has a key exactly if it had it, or the first header has no blanks after it |
| DesktopPatch.LastPatchWinsOnFiles | crates/onelf-format/src/desktop.rs:150-211 | Where that header is clean or both keys are there, a later pass takes over from an earlier one |
| DesktopTwice.LastPatchWins | crates/onelf-format/src/desktop.rs:134-214 | On files that settle, patching for one launch and then for another is patching for the other |
| DesktopTwice.IdempotentExactly | crates/onelf-format/src/desktop.rs:134-214 | Patching is idempotent exactly on the files that have both keys or a clean header, whose lines end in a carriage return only where a key's value is replaced or a command has no arguments, and that do not end in two blank lines |
| DesktopTwice.ReturnsOfFile | crates/onelf-format/src/desktop.rs:150-214 | The lines a pass writes have no carriage return at their ends exactly if those of the file are at ends that are replaced |
| DesktopTwice.BlankLinesAreLost | crates/onelf-format/src/desktop.rs:210-214 | A file with two blank lines at its end is changed by a second pass |
| DesktopTwice.KeysAreInsertedAgain | crates/onelf-format/src/desktop.rs:198-209 | A header with a blank after it gets its keys again at each pass |

## Left out

- The cache's view store, error messages, and error paths whose results the code discards: removals succeed and nobody else writes the store.
- `CacheProtocol` takes an exclusive lock request that would block as not taking a step, and leaves out the age check before a package is collected, so it allows more runs than the code has.
- Compression, hash functions and digests: parameters. Nothing is claimed about collisions.
- The texts of errors. The ORUL, OSET, OPRV and manifest decoders are modelled as accepting or refusing; only the per-view record keeps its reasons.
- `validate_against`, `validate_bindings` and the rule catalog: checks between tables that the transports do not need.
- The validation of rules and sets is a predicate, where the code adds names to ordered sets one after another.
- Header fields, footers, the container reader and `manifest_checksum`: fixed-width fields with single bounds checks.
- Capacity hints when vectors are allocated.
- `purge_carried`, `drop_foreign` and the filters before a launch: lists of names.
- Allocation failure in the exec hooks, and the search for host programs along the path.
- `getenv` is a lookup by name; a name with an equals sign, which the C library might match against a longer string, is found nowhere.
- DriverClosure: the names that it starts from, read off the host, are a parameter.
- The rest of the resolver: reading caches and directories, the farm of links, the bound on a record's size and the lossy display of paths.
- LaunchReturns: one process by itself. Nothing is said of how long a launch waits for locks that others hold.
- LineSets: asks for a value without NULs and for names of less than 256 bytes; `OverlongIsCopied` has the others.
- The loop over the dynamic section that finds an object's tables before a lookup.
- MapInterp: headers come with their protection, which the original puts together from three flag bits.
- `parse_dynamic`, section headers and `infer_libc`: the version sections are given as bytes.
- The guardian's signal installation, pid namespaces, errors of `wait` other than EINTR and ECHILD, and the loops that write and receive a record. Delivery of signals that a process sends to a whole group is not described, nor the gap between reaping the foreground and clearing its pid.
- MapInterp: asks for segments in ascending order on pages of their own, with offset and address alike within a page as the ABI has them. A page has one protection, so segments of different ones cannot share it and all be as they should. A refused `mmap`, too many headers or an empty image are failures.
- The 32-bit twins of `map_interp` and `_onelf_bootstrap`.
- Bootstrap: the kernel gives no tag of the auxiliary vector twice, and opening, checking and reading the interpreter's file either succeed or end the process.
- GnuLookup: asks for tables that hash what they say they hash. On other tables the original may read past them.
- IdempotentExactly: asks for a launch whose command is recognised whatever follows (`FoundExactly`), and an icon name without newlines that does not end in a carriage return.
- ApplyingAgain: one line and one variable. Lines that refer to each other's variables need not settle.
- ApplyingAgain: goes one way. A value that refers to itself twice may settle by coincidence, so the condition is not needed by every value.
- Guardian: what a guardian that is killed does to its lease on the package.
- `entry_icon`, `menu_entrypoints`, `icon_set` and their lookups of icons by size: reporting.
- The runtime's evaluation of mappings and hooks into assignments. `EncodeViewEnv` is given them in order.
- `.onelf/preload` and the search for the package root.
