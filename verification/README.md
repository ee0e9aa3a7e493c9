# Edda bootstrap: a verified model

Edda's bootstrap compiler rebuilds generated artifacts incrementally, addresses them by content hash,
commits and collects them on disk, and serves editors through a daemon. This project models the parts of it
that carry state or arithmetic, in Dafny, and proves what they are for.

`dafny verify dfyconfig.toml` checks everything.

| files | what they model |
|---|---|
| `CascadeGraph`, `CascadeWalk`, `CascadeSort`, `CascadeBuild`, `CascadeRebuild` | the dependency graph of a manifest, the reverse walk, the topological sort, building from scratch, and rebuilding along the plan |
| `Argument`, `Encode`, `Decode`, `Wire` | the canonical byte encoding that is hashed, and a reader that undoes it |
| `Interner`, `InternerThreads` | the string interner, and any number of threads in it |
| `Disks`, `Gc`, `Staging`, `Session` | a filesystem that may fail or stop at any step, the garbage collector, staged commits and codegen sessions |
| `Derive`, `DeriveEquality` | the synthesised `eq` comparator and an evaluator for it |
| `Rounding`, `Layouts` | type layout on 64-bit words |
| `Utf8`, `Utf16`, `Lines`, `Positions`, `PositionLaws`, `SemanticTokens` | LSP positions and semantic-token deltas |
| `Daemons` | the project and overlay lifecycle |
| `Sidecar`, `Names`, `Uris` | the bodies sidecar, hash and artifact names, `file:` URIs |
| `Bytes`, `Decimal`, `Manifests` | byte strings and their order, decimal numerals, manifest records |

How some things are represented:

- A Rust `str` is its UTF-8 bytes (`Bytes.Str`), except where the source works on characters: there it is a
  sequence of scalars with its encoding defined (`Utf8`).
- The filesystem is a map of files and a set of directories. Every operation may fail (unless the disk is declared
  reliable, which only serves to show that runs exist), and a ghost trace keeps
  each state the disk passes through, so a claim about every element of the trace is a claim about every crash
  point.
- Threads of the interner are a state machine whose steps are lock, look up, check, push, insert, unlock and
  return, in any interleaving. Each lock-protected section of the daemon is one method, so any sequence of
  calls is an interleaving of clients.
- The hash digest, the parser, path canonicalisation and manifest text are uninterpreted functions.

Where the code does not do what one might expect of it:

- `walk_cascade` also fails on acyclic graphs when a root is not a manifest entry but an affected entry depends
  on it. `PhantomRootBlocksAcyclicGraph` shows it; `WalkCascade` states the exact condition.
- A body of 2^32 bytes or more is announced with a truncated length. `OversizedBodyCollides` shows two forms
  with the same bytes; `RoundTripsIffFits` says exactly which forms survive.
- The collector removes a live artifact's file when a dead entry has the same path. `SharedPathLosesLiveFile`
  shows it; `SurvivesIffPathNotShared` says exactly when a file survives.
- The staging documentation speaks of all-or-nothing installation. The code renames artifacts one at a time. With
  distinct final paths, every state shows them all as they were or all as they will be if and only if no target is
  removed on the way and at most one is absent or holds other bytes: `AllOrNothingIff`. For new
  artifacts only, that is at most one of them (`FreshIsAllOrNothingIff`); for shared final paths, see
  `AllOrNothingIffSteady`.
- The manifest swap is meant to be atomic. Where `rename` refuses an existing target the code removes the target
  first, and a crash between the two calls leaves no manifest: `ManifestVanishesIff` says exactly when. An artifact
  that was there is lost the same way: `ArtifactVanishesIff`. `WitnessRun` shows a run with a mixed state, and both
  losses.
- A commit overwrites an artifact the merged manifest still names when a new one has the same path and another hash's bytes:
  `SharedPathIsOverwritten`; `CommitHoldsIff` says exactly when an artifact stays whole.
- `round_up` adds before it masks, without a check. Its sum overflows on a type if and only if the type's true size is
  2^64 or more and its alignment more than one byte: `OverflowsIff`. With overflow checks that is a panic.
- The marker of an interrupted collection disappears early when the manifest lists the marker's own path as a dead
  artifact: `ListedMarkerVanishes`; `Gc.Run` says exactly when it stands.
- The position section of LSP 3.17 also ends lines at `\r` and `\r\n`; the code ends them at `\n` only. The two
  divisions agree if and only if the text has no carriage return (`LinesAgreeIff`); `ReturnStaysInLine` is a text where
  they do not.
- `name.rs` documents a check against short names that contain a double underscore followed by hexadecimal
  digits. The code has none and needs none: `NameRoundTrips` holds for every short name it accepts.
- A path survives conversion to a URI and back only in the form `PathRoundTripsIff` names: backslashes become
  slashes and a relative path becomes absolute.

## Model

| member | source | states |
|---|---|---|
| `CascadeGraph.FromManifest` | crates/edda-codegen/src/graph.rs:56-84 | the three maps hold, for every short name, its last entry, all its declared dependencies and all consumers with multiplicity; forward and reverse lists mirror each other; a name depends on exactly what some entry of that name lists, and its consumers are exactly the names whose entries list it, if it is the name of an entry |
| `CascadeGraph.ConsumersMirrorDeps` | crates/edda-codegen/src/graph.rs:60-78 | how often `c` is listed as a consumer of `d` equals how often `c` declares `d`, with repeated dependencies and repeated names |
| `CascadeWalk.CollectReverseReachable` | crates/edda-codegen/src/graph.rs:152-168 | the visited set is exactly the names reachable from a root along consumer edges |
| `CascadeWalk.AffectedIffListed` | crates/edda-codegen/src/graph.rs:152-168 | what is reached from the roots is what a chain of listed dependencies in the manifest leads to |
| `CascadeSort.ReleaseConsumers` | crates/edda-codegen/src/graph.rs:193-207 | in-degrees stay equal to unprocessed dependency occurrences, never drop below zero, and a node is queued only once |
| `CascadeSort.Drain` | crates/edda-codegen/src/graph.rs:193-207 | when the queue is empty every processed node follows all its in-subgraph dependencies and the accounts are exact |
| `CascadeSort.OrderedIffNotBlocked` | crates/edda-codegen/src/graph.rs:193-217 | a node is processed if and only if no cycle and no unregistered dependency lies on or upstream of it |
| `CascadeSort.KahnSort` | crates/edda-codegen/src/graph.rs:175-217 | Ok exactly when nothing is blocked, with a duplicate-free order of the subgraph, dependencies first; otherwise exactly the blocked nodes in ascending order |
| `CascadeSort.BlockedInClosure` | crates/edda-codegen/src/graph.rs:139-217 | with registered roots, blocked means on or downstream of a cycle of the whole graph |
| `CascadeSort.WalkCascade` | crates/edda-codegen/src/graph.rs:139-148 | Ok exactly when no affected node is on a cycle and no root is unregistered yet depended on by an affected node; the plan is exactly the affected names, dependencies first; a failure names exactly the blocked nodes, which with registered roots are those on or downstream of a cycle |
| `CascadeSort.PhantomRootBlocksAcyclicGraph` | crates/edda-codegen/src/graph.rs:66-77 | an acyclic graph on which the walk fails because a root has no entry |
| `CascadeBuild.InputsAt` | crates/edda-codegen/src/graph.rs:103-111 | what is rendered sees the content of each dependency, in declaration order |
| `CascadeBuild.BuiltIsUnique` | crates/edda-codegen/src/graph.rs:7-13 | two complete builds of the same sources agree |
| `CascadeRebuild.SkippedIsUpToDate` | crates/edda-codegen/src/graph.rs:114-129 | a planned node none of whose inputs changed already has its content of the full build |
| `CascadeRebuild.QuietIsUpToDate` | crates/edda-codegen/src/graph.rs:114-129 | unedited artifacts whose dependencies are unedited, all the way up, already have their content of the full build |
| `CascadeRebuild.UnaffectedIsQuiet` | crates/edda-codegen/src/graph.rs:114-129 | what the walk from the roots does not reach is of that kind, also when the graph itself was edited at the roots |
| `CascadeRebuild.Rebuild` | crates/edda-codegen/src/graph.rs:114-129 | re-rendering along the plan, skipping unchanged inputs and unchanged digests, ends in exactly the full build; exactly those planned artifacts are rendered again that were edited or have a dependency whose content really is another than before; the digest need only tell each affected artifact's prior content from its new one |
| `CascadeRebuild.IncrementalMatchesScratch` | crates/edda-codegen/src/graph.rs:7-13 | from a complete build over an older graph that differs at the roots only (new artifacts are roots), planning and rebuilding along the plan gives the same contents as rebuilding everything, the only contents a complete build can have, and leaves the unaffected ones alone; in the whole graph exactly the edited artifacts and those with a really changed dependency are rendered |
| `Argument.NewRowIsCanonical` | crates/edda-codegen/src/argument.rs:117-124 | a row is strictly increasing by kind then name and holds exactly the given entries |
| `Argument.RowsEqualIffSameSet` | crates/edda-codegen/src/argument.rs:117-124 | two inputs build the same row if and only if they hold the same set |
| `Argument.BeforeIff` | crates/edda-codegen/src/argument.rs:152-160 | `err` entries by name, then `panic`, then `yield` entries by name |
| `Bytes.LessIff` | crates/edda-codegen/src/argument.rs:152-160 | names are ordered by their first difference, a prefix before what it begins |
| `Argument.BeforeIsStrictTotalOrder` | crates/edda-codegen/src/argument.rs:152-160 | the entry order is a strict total order |
| `Encode.EncodeInto` | crates/edda-codegen/src/encode.rs:36-42 | appends exactly the bytes of the form to the buffer |
| `Encode.EncodeArgument` | crates/edda-codegen/src/encode.rs:61-77 | appends exactly the bytes of an arbitrarily nested argument |
| `Encode.EncodeUserValue` | crates/edda-codegen/src/encode.rs:95-126 | appends exactly the bytes of a record or variant value |
| `Encode.EncodeEffectRow` | crates/edda-codegen/src/encode.rs:81-92 | appends exactly the bytes of a row |
| `Encode.EncodePrimitive` | crates/edda-codegen/src/encode.rs:138-154 | appends exactly the bytes of a primitive value |
| `Encode.EncodeNested` | crates/edda-codegen/src/encode.rs:156-162 | appends exactly the bytes of the nested set |
| `Wire.LeByteAt` | crates/edda-codegen/src/encode.rs:173-175 | byte `i` of a number is `v / 256^i mod 256`, the least significant first |
| `Wire.LengthPrefixedAt` | crates/edda-codegen/src/encode.rs:164-171 | four length bytes in that order, then the string |
| `Encode.UnsignedExamples` | crates/edda-codegen/src/encode.rs:138-154 | the bytes of every unsigned primitive, spelled out |
| `Encode.SignedExamples` | crates/edda-codegen/src/encode.rs:138-154 | the bytes of negative numbers at every width |
| `Encode.RowExample` | crates/edda-codegen/src/encode.rs:81-92 | the bytes of a row with all three kinds of entries |
| `Encode.RecordExample` | crates/edda-codegen/src/encode.rs:95-136 | the bytes of a record |
| `Encode.VariantExamples` | crates/edda-codegen/src/encode.rs:95-136 | the bytes of the three kinds of variants |
| `Encode.FormExample` | crates/edda-codegen/src/encode.rs:3-13 | the bytes of a form, part by part as the layout table has them |
| `Decode.ReadArgumentBack` | crates/edda-codegen/src/encode.rs:61-77 | a reader recovers any nested argument from its bytes followed by anything |
| `Decode.ReadFormBack` | crates/edda-codegen/src/encode.rs:36-42 | a reader recovers version and form from the encoding followed by anything |
| `Decode.EncodingIsInjective` | crates/edda-codegen/src/encode.rs:36-185 | encodings are prefix-free: equal bytes, whatever follows, come from equal forms, versions and rests |
| `Decode.RoundTripsIffFits` | crates/edda-codegen/src/encode.rs:164-185 | a form survives encoding if and only if every length in it is below 2^32 |
| `Decode.OversizedBodyCollides` | crates/edda-codegen/src/encode.rs:179-185 | with a body of 2^32 bytes two different forms have the same encoding |
| `Decode.RowBytesEqualIffSameSet` | crates/edda-codegen/src/encode.rs:81-92 | effect rows have equal argument bytes if and only if they were built from the same set |
| `Decode.HashIdentifiesForm` | crates/edda-codegen/src/hash.rs:17-20 | unless the digest collides on the two encodings, equal hashes mean equal forms and versions, and conversely |
| `Interner.Interner.Intern` | crates/edda-intern/src/lib.rs:100-107 | keeps map and vector inverse and answers as the sequential interner |
| `Interner.Interner.InternSlow` | crates/edda-intern/src/lib.rs:113-133 | the locked path does the same, with the re-check and the exhaustion case |
| `Interner.Interner.TryResolve` | crates/edda-intern/src/lib.rs:144-171 | yields a string if and only if the symbol was issued for it; so none for the dummy and out-of-range symbols |
| `InternerThreads.StepIsSafe` | crates/edda-intern/src/lib.rs:100-171 | every step of every thread keeps lock discipline, the inverse property and the history invariant |
| `InternerThreads.RunOnlyAppends` | crates/edda-intern/src/lib.rs:113-133 | over every run the strings and the history only grow |
| `InternerThreads.RunRefinesSequential` | crates/edda-intern/src/lib.rs:100-196 | every run is linearizable to a sequential interner; map and vector are inverse; two interned strings get the same symbol if and only if they are equal |
| `InternerThreads.IssuedResolvesForever` | crates/edda-intern/src/lib.rs:144-196 | an issued symbol is never the dummy and resolves to its string in every later state of the run |
| `InternerThreads.ReturnMatchesEffect` | crates/edda-intern/src/lib.rs:100-133 | a finished call returns what it took effect with |
| `Gc.RemoveDead` | crates/edda-cache/src/gc.rs:184-203 | every intermediate disk has lost only dead paths, success has removed all of them, and the summary counts them |
| `Gc.RemoveEmptyShards` | crates/edda-cache/src/gc.rs:239-275 | exactly the empty shard directories are removed, in whatever order they are listed |
| `Gc.Run` | crates/edda-cache/src/gc.rs:161-218 | a dry run changes nothing; otherwise every state is one the pass can resume from and success ends in the final disk; the marker stands in every state from its writing to its final removal, and after every error in between, unless the manifest lists the marker itself as a dead artifact, and on success if and only if it does not; on a reliable disk with nothing in the way it succeeds |
| `Gc.ListedMarkerVanishes` | crates/edda-cache/src/gc.rs:161-218 | a manifest that lists the marker's path as a dead artifact: the marker is placed and gone before the last step |
| `Gc.ResumeReachesSameDisk` | crates/edda-cache/src/gc.rs:147-218 | a pass started over from any interrupted state ends in the same files and directories |
| `Gc.ResumableComposes` | crates/edda-cache/src/gc.rs:147-218 | interrupting a resumed pass again is covered, any number of times |
| `Gc.LiveFilesAreSafe` | crates/edda-cache/src/gc.rs:184-203 | with distinct entry paths no crash or error point has lost or changed the file of an entry that is live or of another tier |
| `Gc.SurvivesIffPathNotShared` | crates/edda-cache/src/gc.rs:184-203 | a file survives a pass if and only if no entry of the collected tier whose hash is not live has its path |
| `Gc.FinalDirs` | crates/edda-cache/src/gc.rs:239-283 | a pass leaves every directory, and the cache's own, but for those just below the cache root, named by four lowercase hexadecimal digits, that hold no file or directory any more, in the cache tier |
| `Gc.TallyCounts` | crates/edda-cache/src/gc.rs:184-203 | the summary is the number of entries of the tier that are not live, and the sum of their sizes up to the largest word |
| `Gc.SharedPathLosesLiveFile` | crates/edda-cache/src/gc.rs:184-203 | two entries at one path, one live: the live file is removed |
| `Staging.AtomicRename` | crates/edda-cache/src/store/staging.rs:157-168 | the exact states passed: one step where rename overwrites; elsewhere an existing target is missing for exactly one state, or for good when the second rename fails |
| `Staging.InstallAll` | crates/edda-cache/src/store/staging.rs:78-87 | at every point the files outside the staging directory are those with a prefix of the artifacts installed and nothing else changed, but for at most one removed target; success passes through every prefix and, where rename does not overwrite, through the removal of every target that is there; on a reliable disk with nothing in the way it succeeds |
| `Staging.CommitStaged` | crates/edda-cache/src/store/staging.rs:78-126 | on any filesystem every crash state shows exactly one point of the commit, contents included; success ends with the new manifest and all artifacts, failure at an earlier point; on success the old manifest, and each artifact that was there, is missing from some state if and only if rename does not overwrite, and the artifacts are all-or-nothing exactly under the conditions of the next two rows |
| `Staging.AllOrNothingIff` | crates/edda-cache/src/store/staging.rs:71-87 | with distinct final paths, every state of a successful commit shows them all as before or all as after if and only if no target is removed on the way (rename overwrites, or none is there) and at most one is absent or holds other bytes |
| `Staging.AllOrNothingIffSteady` | crates/edda-cache/src/store/staging.rs:71-87 | with any final paths, shared ones included, the same if and only if every prefix of the artifacts, and every prefix with its next target removed, shows one of the two |
| `Staging.FreshIsAllOrNothingIff` | crates/edda-cache/src/store/staging.rs:71-87 | a successful commit of new artifacts is all-or-nothing if and only if there is at most one |
| `Staging.ArtifactVanishesIff` | crates/edda-cache/src/store/staging.rs:78-87 | a successful commit over an existing artifact passes through a state without it if and only if rename does not overwrite |
| `Staging.ManifestVanishesIff` | crates/edda-cache/src/store/staging.rs:88-118 | a commit over an existing manifest passes through a state with neither the old nor the new one if and only if rename does not overwrite |
| `Staging.ManifestAt` | crates/edda-cache/src/store/staging.rs:88-118 | at every other point the manifest on disk is the old one in full, or after the swap the new one in full |
| `Staging.SizeIsAnomalousIff` | crates/edda-cache/src/store/staging.rs:95-116 | a manifest text is refused exactly above 4 KiB and 32 KiB for each artifact |
| `Staging.BystandersKept` | crates/edda-cache/src/store/staging.rs:78-126 | at every point a file that is no target of the commit is as it was |
| `Staging.CommittedContents` | crates/edda-cache/src/store/staging.rs:78-87 | after a commit each final path holds the staged bytes of the last artifact for it |
| `Staging.WitnessRun` | crates/edda-cache/src/store/staging.rs:78-168 | a successful commit of one changed and one new artifact, on a disk of either kind, has a state with the changed bytes and without the new artifact; states without the manifest and without the old artifact occur if and only if rename does not overwrite |
| `Session.MergeManifest` | crates/edda-codegen/src/cascade.rs:309-333 | the merged manifest is the fold of the pending entries over the prior ones; everything else of the prior manifest is kept |
| `Session.MergeContents` | crates/edda-codegen/src/cascade.rs:309-333 | merging overrides exactly the pending hashes, loses nothing, and keeps hashes unique |
| `Session.MergeKeepsPositions` | crates/edda-codegen/src/cascade.rs:309-333 | prior entries keep their places and, unless overridden, their contents |
| `Session.MergeIsIdempotent` | crates/edda-codegen/src/cascade.rs:309-333 | merging the same entries again changes nothing |
| `Session.FirstSuccessIsKept` | crates/edda-codegen/src/cascade.rs:179-236 | over every sequence of successful and failing `stage` calls entries have distinct hashes, equal to the staged keys, and a hash keeps the identity of its first success |
| `Session.FirstSuccessIsRecorded` | crates/edda-codegen/src/cascade.rs:212-226 | the one entry of a hash carries path, short name, tier, dependencies and time of its first successful call |
| `Session.StagingNamesDiffer` | crates/edda-cache/src/store/staging.rs:53-69 | the running index keeps staging file names apart whatever the artifact names |
| `Session.CodegenSession.Stage` | crates/edda-codegen/src/cascade.rs:179-236 | a repeated hash or unmangled name touches nothing; otherwise in every state only the next staging file differs, success leaves the artifact's bytes in it, and all earlier staged bytes stay; on a reliable disk with a free name it succeeds |
| `Session.CodegenSession.Commit` | crates/edda-codegen/src/cascade.rs:255-262 | on success the merged manifest is in memory and on disk, the states passed lose files or are all-or-nothing exactly as for `CommitStaged`, and each final path holds the bytes last staged for it; on failure the manifest in memory is the old one and the disk is at an earlier point; every crash state is one point of the commit; the merged manifest has one entry for each staged hash, just as its first successful call recorded it; on a reliable disk with nothing in the way it succeeds unless the text is anomalously long |
| `Session.CommitHoldsIff` | crates/edda-codegen/src/cascade.rs:255-262 | in every state a commit may die in, each artifact the manifest names is there, but for the one target missing at a gap, and holds bytes of its hash if and only if the last artifact installed at its path has bytes of that hash; a hash may have more than one form, as its header is not hashed |
| `Session.CommitLeavesManifestComplete` | crates/edda-codegen/src/cascade.rs:255-262 | when a path belongs to one hash, every artifact named is whole in every such state, but for the target at a gap |
| `Session.SharedPathIsOverwritten` | crates/edda-codegen/src/cascade.rs:255-262 | a new artifact with bytes of another hash at a kept artifact's path: the kept one is named by the new manifest and not whole |
| `Derive.EmitSumCompareBody` | crates/edda-driver/src/derive_eq.rs:64-87 | emits one outer arm per variant, with the inner match on `b` |
| `Derive.RecordBodyValue` | crates/edda-driver/src/derive_eq.rs:49-61 | the emitted record body evaluates to the equality of the two records |
| `Derive.InnerMatchValue` | crates/edda-driver/src/derive_eq.rs:64-87 | an outer arm evaluates to the equality of the two variants: no binder is captured and no match falls through |
| `DeriveEquality.SlicesCompare` | crates/edda-mir/src/lower/arith.rs:201-480 | the length test and element loop on slices decide equality |
| `DeriveEquality.CompareIsEquality` | crates/edda-driver/src/derive_eq.rs:29-109 | on any two values of one well-formed type, of primitive, record, sum or slice fields, the synthesised comparator terminates, never gets stuck, and is true if and only if the values are equal |
| `Rounding.MaskRoundsUp` | crates/edda-comptime/src/layout.rs:267-271 | for every power of two below 2^64 the mask form is the least multiple at or above the value, and zero exactly when that needs 65 bits, which is exactly when the sum overflows |
| `Layouts.PrimitiveTable` | crates/edda-comptime/src/layout.rs:46-69 | every primitive takes the bits of its name and is aligned to its size |
| `Layouts.LayoutWithDecls` | crates/edda-comptime/src/layout.rs:146-170 | computes the word layout of any type that does not contain itself, whatever else the table holds |
| `Layouts.RankIsIrrelevant` | crates/edda-comptime/src/layout.rs:146-170 | the layout does not depend on how the absence of self-containment is shown |
| `Layouts.LayoutAggregate` | crates/edda-comptime/src/layout.rs:244-262 | the aggregate of the fields' layouts, or the first field's failure |
| `Layouts.AggregateIsTightest` | crates/edda-comptime/src/layout.rs:237-262 | the alignment is the fields' maximum and a multiple of each; fields are aligned, in order and disjoint within the size; no placement in declaration order with a size of that alignment is shorter or starts a field earlier |
| `Layouts.AggregateOfComponents` | crates/edda-comptime/src/layout.rs:244-262 | an aggregate's layout is that of the layouts of its components, in order |
| `Layouts.ProductIsTuple` | crates/edda-comptime/src/layout.rs:146-170 | a product has the layout of a tuple of its declared fields |
| `Layouts.ArrayElementsStayAligned` | crates/edda-comptime/src/layout.rs:237-262 | in an array of aggregates every field of every element is aligned |
| `Layouts.PaddingBound` | crates/edda-comptime/src/layout.rs:244-262 | padding is at most `align - 1` bytes per field |
| `Layouts.WordLayoutIsFaithful` | crates/edda-comptime/src/layout.rs:244-271 | through any nesting the computed size is the true one if and only if the true one is below 2^64; alignment and failures never depend on the width |
| `Layouts.OverflowsIff` | crates/edda-comptime/src/layout.rs:244-271 | on the way to a type's layout, through any nesting, some sum overflows if and only if the true size is 2^64 or more and the alignment more than one; without overflow the size is the true one or the largest word |
| `Layouts.FirstBlockerIsNamed` | crates/edda-comptime/src/layout.rs:146-170 | a layout fails if and only if some leaf is unsupported, and names the first in depth-first declaration order |
| `Layouts.DeclsReproduceLayouts` | crates/edda-comptime/src/layout.rs:82-116 | a layout found by `of_ty` is found unchanged by `of_ty_with_decls` under every lookup, and the recursion ends under every lookup |
| `Lines.LinesAgreeIff` | crates/edda-lsp/src/position.rs:102-129 | every line has the start and length the protocol's line endings give it if and only if the text has no carriage return |
| `Lines.ReturnStaysInLine` | crates/edda-lsp/src/position.rs:120-129 | a text with `\r\n` whose first line is longer than the protocol's |
| `Positions.ByteToPosition` | crates/edda-lsp/src/position.rs:66-85 | the line and column of the boundary, with the saturation and truncation of the 32-bit fields |
| `Utf16.UnitsAreUtf16` | crates/edda-lsp/src/position.rs:132-139 | a UTF-16 column is the number of code units, surrogate pairs included, of the text before it |
| `Utf16.Utf16RoundTrips` | crates/edda-lsp/src/position.rs:132-139 | those units fit sixteen bits and a decoder gets the text back from them |
| `Utf16.UnitsAreBytesOrScalars` | crates/edda-lsp/src/position.rs:132-139 | a UTF-8 column counts bytes, a UTF-32 column scalars |
| `Utf16.AstralColumn` | crates/edda-lsp/src/position.rs:132-139 | after U+1F600 the columns are 4, 2 and 1 |
| `Utf8.Utf8Decodes` | crates/edda-lsp/src/position.rs:66-85 | the payload bits of a scalar's bytes give the scalar back |
| `Utf8.Utf8IsWellFormed` | crates/edda-lsp/src/position.rs:66-85 | the first byte tells the length, continuation bytes follow, and the shortest form is used |
| `Positions.WireIsExact` | crates/edda-lsp/src/position.rs:66-85 | below 4 GiB the 32-bit fields lose nothing |
| `Positions.LineStartOffset` | crates/edda-lsp/src/position.rs:102-117 | the byte offset of the line, or the end of the text |
| `Positions.NextLineOffset` | crates/edda-lsp/src/position.rs:120-129 | the byte offset of the line's end |
| `Positions.BytesForUnits` | crates/edda-lsp/src/position.rs:144-170 | the least scalar boundary with at least that many units before it, or the end |
| `Positions.PositionToByte` | crates/edda-lsp/src/position.rs:88-99 | the offset is in the named line: a clamped byte column for UTF-8, otherwise the least boundary at or after the column, clamped to the line |
| `PositionLaws.PositionRoundTrips` | crates/edda-lsp/src/position.rs:66-99 | every character boundary survives the trip to a position and back under all three encodings |
| `PositionLaws.PositionsAdvance` | crates/edda-lsp/src/position.rs:66-85 | later boundaries have strictly later positions |
| `PositionLaws.OffsetsAdvance` | crates/edda-lsp/src/position.rs:88-99 | later positions, inside the text or not, never convert to earlier offsets |
| `PositionLaws.LineIsNamed` | crates/edda-lsp/src/position.rs:102-129 | a line that exists has exactly its number of newlines before it and none in it; any other stands for the end of the text |
| `PositionLaws.OffsetIsBoundary` | crates/edda-lsp/src/position.rs:88-99 | a UTF-16 or UTF-32 position converts to a boundary, which has that position if and only if the line exists and has a boundary at that column |
| `SemanticTokens.EncodeSemanticTokens` | crates/edda-lsp/src/semtokens.rs:120-168 | no delta underflows, and a client's running sums give back line, start, length and type of exactly the kept tokens |
| `SemanticTokens.EntryPointsBack` | crates/edda-lsp/src/semtokens.rs:135-151 | both ends of an entry convert to the token's own byte offsets |
| `SemanticTokens.EntryIff` | crates/edda-lsp/src/semtokens.rs:120-168 | kept are exactly the tokens with a type that cover text without a newline; the entry has that type, the place of the first character and the length of the text in code units |
| `Daemons.Daemon.FinishOpen` | crates/edda-daemon/src/daemon.rs:66-83 | opens only when no project is open at that moment, so that opens alternate with closes in every interleaving |
| `Daemons.Daemon.OpenDocument` | crates/edda-daemon/src/daemon.rs:143-169 | succeeds exactly when a project is open and the path has no overlay; a refusal changes nothing |
| `Daemons.Daemon.ApplyChange` | crates/edda-daemon/src/daemon.rs:183-221 | succeeds exactly on a strictly newer version of an open overlay; a refusal changes nothing |
| `Daemons.Daemon.CloseDocument` | crates/edda-daemon/src/daemon.rs:231-237 | ends the overlay of the path and no other |
| `Daemons.Daemon.AstForPath` | crates/edda-daemon/src/state.rs:79-91 | the parse of the latest accepted text exactly while an overlay is open, otherwise the graph's first tree at that path |
| `Daemons.InGraphIsFirst` | crates/edda-daemon/src/state.rs:79-91 | the graph's tree at a path is that of the first module whose path normalises to it, and there is none exactly when no module does |
| `Daemons.VersionsExtend` | crates/edda-daemon/src/daemon.rs:183-221 | accepted edits keep versions strictly increasing while an overlay stays open |
| `Daemons.OpensExtend` | crates/edda-daemon/src/daemon.rs:66-89 | between two successful opens there is a close |
| `Sidecar.EncodeBodies` | crates/edda-driver/src/workspace_exec.rs:309-321 | writes exactly the length-prefixed entries in order |
| `Sidecar.SidecarExample` | crates/edda-driver/src/workspace_exec.rs:309-321 | one entry, byte by byte |
| `Sidecar.ReadMemberBodies` | crates/edda-driver/src/workspace_exec.rs:328-357 | on any bytes, the map of the entries up to the first that is not whole, each field passed through the lossy conversion |
| `Sidecar.TruncationKeepsWholeEntries` | crates/edda-driver/src/workspace_exec.rs:309-357 | reading any truncation yields exactly the entries that lie wholly inside it, in order |
| `Sidecar.SidecarRoundTrips` | crates/edda-driver/src/workspace_exec.rs:309-357 | the whole sidecar gives back the whole map |
| `Names.WriteHex` | crates/edda-cache/src/hash.rs:206-213 | fills the buffer with the lowercase digits of the bytes |
| `Names.HexSpelled` | crates/edda-cache/src/hash.rs:206-213 | the two digits of each byte, the high one first |
| `Names.ParseHex` | crates/edda-cache/src/hash.rs:51-62 | succeeds exactly on the right number of digits of either case, and the bytes found print as the input in lower case |
| `Names.HashRoundTrips` | crates/edda-cache/src/hash.rs:51-71 | every hash survives display and parse |
| `Names.ShardIsRecognised` | crates/edda-cache/src/gc.rs:278-283 | the shard directory of every hash is one the collector recognises |
| `Names.NameRoundTrips` | crates/edda-cache/src/name.rs:57-79 | every valid artifact name survives display and parse, underscores included |
| `Names.ParsesIff` | crates/edda-cache/src/name.rs:57-79 | what parses is exactly a non-empty short name without slashes, NUL and white space, two underscores and twelve hexadecimal digits of either case |
| `Names.ParsedIsDisplayed` | crates/edda-cache/src/name.rs:57-79 | whatever parses is valid and displays as the input with its last twelve characters in lower case |
| `Uris.PercentEncodePath` | crates/edda-lsp/src/uri.rs:119-141 | the percent-encoding of every byte outside the plain set |
| `Uris.PercentDecode` | crates/edda-lsp/src/uri.rs:98-117 | every triplet decoded and all else kept, or the input itself when the result is not UTF-8 |
| `Uris.DecodeUndoesEncode` | crates/edda-lsp/src/uri.rs:98-141 | decoding undoes encoding on every byte string |
| `Uris.EncodedIsClean` | crates/edda-lsp/src/uri.rs:119-141 | an encoded path holds only plain characters and percent triplets |
| `Uris.EscapesExactly` | crates/edda-lsp/src/uri.rs:119-141 | letters, digits and `-_.~/:` stay, every other byte becomes `%` and two uppercase digits |
| `Uris.UriExamples` | crates/edda-lsp/src/uri.rs:37-95 | the URIs of a path with a space and of a Windows path, spelled out |
| `Uris.PathRoundTripsIff` | crates/edda-lsp/src/uri.rs:37-95 | a UTF-8 path comes back from its URI if and only if it has no backslash and is absolute in the platform's form |

## Left out

- Gc.Run: entries whose type or size cannot be read are not distinguished from plain files.
- Gc scheduling, `should_run`: calendar arithmetic of an external crate.
- Staging.CommitStaged: final paths, the manifest and its `.new` file are different places outside the staging directory, as the path functions of the cache make them; which directories get created is not part of the view.
- Session.CodegenSession.Commit: the same condition on paths.
- Session.CommitHoldsIff: the same condition on the prior artifacts' paths.
- Session.CodegenSession.Stage: artifact paths and names arrive computed; `final_path_for` and mangling are path joining. Of an entry's inputs only the dependencies are kept, and `reachable_from`, which nothing here reads, is not modelled.
- Interner `resolve`, `len`, `is_empty`: one-line wrappers of what is modelled; the stability of string addresses is a memory property outside the model.
- Encode `estimate_size`: a capacity hint.
- Layouts.LayoutAggregate: the sum in `round_up` wraps, as in a release build; a debug build panics there instead, exactly on the types `OverflowsIff` names (for a type without a layout, whether it panics before it fails is not stated). Types that contain themselves by value are excluded, the source's recursion does not end on them.
- Positions.ByteToPosition: an offset inside a character is excluded, slicing panics on it.
- SemanticTokens.EncodeSemanticTokens: the tokens are the lexer's own, that is in order of their starts, on character boundaries, and of a buffer below 4 GiB.
- SemanticTokens `classify`: a fixed table, taken as given with each token.
- Daemons: `build_project_state` and its failures, which reach no critical section; diagnostics, and `partition_by_file`.
- Sidecar: the text summary, which is easy.
- Uris: parsing by the external URI type, and lossy conversion of paths that are not UTF-8.
- DeriveEquality.CompareIsEquality: fields of tuple type and slices of slices have no `==` lowering in the source and no value here; float comparison is taken as equality of the stored value.
- Derive: lexing and parsing of the emitted text; `derive_debug.rs`, which follows the same scheme with string concatenation.
- Manifest and header text formats, signing, the hash function itself, type inference, MIR lowering, linking, the CLI and the server loops.
