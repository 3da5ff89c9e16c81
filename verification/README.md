# The artifact reader's identity and ownership engine

This project models how `crates/codehelion-artifact` gives every symbol of a
compiled artifact an identity of its own, decides which symbol owns which bytes,
and attaches evidence to symbols without losing any. It proves what those
algorithms promise.

**Symbol identity** (`Fingerprints`, `CallGraph`, `Tallies`, `Refinement`,
`Bisimulation`, `Coarsest`, `LoneChain`, `Components`, `Numbering`, `Identity`,
`IdentityLaws`, `Tied`, `Embeddings`, `Symmetries`). Symbols that share a content fingerprint are
separated by Weisfeiler-Lehman colour refinement over the call graph, one weakly
connected component of copies at a time, and remaining ties are numbered in file
order. `Refinement` says what the rounds, the stopping rule and the final colours
are; `Components` and `Identity` hold the loops, proved against it. `Bisimulation`
carries labels along walks from one component, or one artifact, to another; from it
follow the coarsest-partition theorems (`Coarsest`), non-interference and order
independence (`Embeddings`). Uniqueness is in `IdentityLaws`; `Tied` says what the result
is in terms of the symbols, roots and calls alone.

**Hash payloads** (`Bytes`, `Payload`, `PayloadLayouts`). A fingerprint is an injective,
domain-separated term. `Payload` proves that the bytes actually hashed determine
the arguments of those terms, so the terms stand for them under a collision-free
hash.

**Archives** (`Archive`, `ArchiveLaws`, `ArchiveMoves`). Members are moved by position
into one graph and identified again; the result is the disjoint union of the members'
graphs. Members moved among others keep what they had, and exchanging byte-identical
ones is a symmetry of the call graph.

**Byte ownership** (`Boundaries`, `SymbolIndexes`, `NativeIndex`). The one-pass
boundaries against a scan of every earlier owner, and an index whose three lookups
agree.

**Debug locations** (`FrameSweep`, `Locations`, `Attachment`, `PdbAttachment`,
`PdbLaws`, `PdbReports`, `Sorting`). The sweep join against a naive cover query under a
shared budget, and the attachment loop under its three bounds.

**Evidence and forms** (`Branches`, `Evidence`, `Transfers`, `TransferLaws`, `Leb128`,
`WasmBodies`, `WasmFunctions`, `IndirectRoots`, `AbiTags`, `Sequences`). x86 relocations become
edges or roots; WebAssembly bodies become comparable forms; table elements are
narrowed to what may be reached; ABI tags are removed in one pass.

Loops of the source are methods proved against a specification; the theorems are
lemmas about that specification. `CallGraph` to `Embeddings` take fingerprints to
be distinct whenever the hashed terms are, and take the fingerprints a format
backend hands over to lie outside the domains identity assignment hashes under.

Where the code and its own documentation disagree, the code is modelled:

- `identity.rs:562-618` tests that final colours agree with the coarsest stable
  partition of the whole call graph on random graphs. Refinement stops per
  component, so they need not: `LoneChain.CoarsestOverallFails` is a graph of five
  symbols, and `Coarsest.CoarsestOverallExactly` says when they do;
  `Symmetries.CoarsestWhenLikeCopiesMatch` covers artifacts made of like parts, and by
  `ArchiveMoves.ArchivesAreCoarsest` every archive is one.
- `pe.rs:321-322` says that the attachment loop returns whether a bound dropped a
  location. It also returns true when only duplicate rows were passed over, or when
  the frames ran out just before ranges without rows: `PdbReports.ReportIsRightExactly`
  says for which calls, and `PdbReports.ReportIsAlwaysRightExactly` for which inputs.
- `wasm.rs:443-449` says that an index without type evidence keeps every table
  element rooted. The loop at 480-482 passes over an element without a type:
  `IndirectRoots.RootsAreConservativeExactly`. `parse` fills the state only after the
  module passed the validator (96-98), so no module it accepts has such an element:
  `IndirectRoots.ValidatedModulesAreConservative`.
- `elf.rs:481-482` says that an unconsumed relocation roots its target. Consumption
  is by offset, so of two relocations at one offset the unused one counts as
  consumed: `Evidence.EvidenceIsKeptExactly` says for which code something is lost, and
  `Evidence.EvidenceSurvivesExactly` for which sections.

`dafny verify dfyconfig.toml` checks the project.

## Model

| member | source | states |
|---|---|---|
| `CallGraph.NewGraph` | crates/codehelion-artifact/src/identity.rs:87-104 | One pass over the calls builds the graph the calls denote: both ends of every edge are recorded, and order and repetition of the calls are gone |
| `CallGraph.GraphOfValid` | crates/codehelion-artifact/src/identity.rs:81-104 | Every edge is seen from both of its ends and joins symbols of the artifact |
| `Refinement.ComponentLeast` | crates/codehelion-artifact/src/identity.rs:172-193 | A component is the least set of copies that holds its start and that no copy-to-copy edge leaves |
| `Refinement.ComponentShared` | crates/codehelion-artifact/src/identity.rs:172-193 | Connected copies have one and the same component |
| `Refinement.ComponentClosed` | crates/codehelion-artifact/src/identity.rs:172-193 | No copy-to-copy edge leaves a component |
| `Components.Search` | crates/codehelion-artifact/src/identity.rs:176-190 | The worklist started at an unseen copy collects exactly the copies connected to it, each once, and marks exactly those as seen |
| `Components.FindComponents` | crates/codehelion-artifact/src/identity.rs:172-193 | The returned lists are ascending and disjoint, cover the copies, and each is the weakly connected component of its members |
| `Components.NextRoundIsLocal` | crates/codehelion-artifact/src/identity.rs:156-168 | One component refined on its own colours goes through the rounds it would go through if the whole artifact moved along |
| `Components.RefineOnce` | crates/codehelion-artifact/src/identity.rs:204-216 | One round rewrites the component's colours from the colours before the round, leaves other positions alone, and shows exactly the colours of the next global round |
| `Components.Refine` | crates/codehelion-artifact/src/identity.rs:200-223 | In-place refinement ends with every position of the component at its final colour: the colour of the first round that added no class; other positions are untouched |
| `Bisimulation.RoundsAgree` | crates/codehelion-artifact/src/identity.rs:107-135 | Symbols that a pair of stable labellings matches, in one artifact or in two, have equal colours after every round |
| `Bisimulation.WalkLifts` | crates/codehelion-artifact/src/identity.rs:156-193 | A walk inside one component can be followed label by label from any matched copy of another |
| `Bisimulation.StopAgrees` | crates/codehelion-artifact/src/identity.rs:208-222 | Components that show the same colours at every round stop after the same round |
| `Bisimulation.FinalAgrees` | crates/codehelion-artifact/src/identity.rs:139-223 | Copies a stable labelling matches end with one colour, each refined in its own component, because both components stop at the same round |
| `Coarsest.SplittingRoundsBound` | crates/codehelion-artifact/src/identity.rs:195-223 | After any round, refinement goes on for at most as many splitting rounds as the component has symbols beyond the classes it already has |
| `Coarsest.FinalStable` | crates/codehelion-artifact/src/identity.rs:200-223 | The final colours of a closed set of copies whose components stop on matching palettes form a partition no round would split |
| `Coarsest.StableTogetherAgrees` | crates/codehelion-artifact/src/identity.rs:139-223 | Two copies that some stable partition of the whole call graph puts together end with the same colour, even in components refined separately |
| `Coarsest.CoarsestPerComponent` | crates/codehelion-artifact/src/identity.rs:195-223 | Inside one component, two copies end with one colour exactly when some stable partition of the whole call graph puts them together |
| `Coarsest.CoarsestOverallExactly` | crates/codehelion-artifact/src/identity.rs:156-223 | The final colours are the coarsest stable partition of the whole call graph exactly when components that share one final colour share all of theirs |
| `Coarsest.CoarsestWhenLikeCopiesConnect` | crates/codehelion-artifact/src/identity.rs:156-223 | They are whenever copies that start with one colour are connected, which a caller can check beforehand |
| `Symmetries.MatchedPalettes` | crates/codehelion-artifact/src/identity.rs:195-223 | Components that a rearrangement of the symbols matches, keeping start colours, unresolved calls and edges, show the same colours at every round |
| `Symmetries.ConnectedIsMatched` | crates/codehelion-artifact/src/identity.rs:172-193 | Connected copies are matched by moving nothing, so this covers the condition before |
| `Symmetries.CoarsestWhenLikeCopiesMatch` | crates/codehelion-artifact/src/identity.rs:156-223 | They are whenever such rearrangements match the components of copies that start alike, connected or not |
| `LoneChain.CallersStayAlike` | crates/codehelion-artifact/src/identity.rs:208-222 | Beside x -> y <- x, a lone x -> y stops after one round and its caller keeps the colour of the other callers |
| `LoneChain.CallersMustSplit` | crates/codehelion-artifact/src/identity.rs:562-618 | No stable partition of that whole graph keeps the lone caller with the others |
| `LoneChain.TheChainArises` | crates/codehelion-artifact/src/identity.rs:139-155 | Five symbols and three calls, all as a backend can hand them over, give that graph |
| `LoneChain.CoarsestOverallFails` | crates/codehelion-artifact/src/identity.rs:562-618 | So the agreement with a whole-graph partition that the random-graph test asserts does not hold of every graph |
| `Numbering.NumberCopies` | crates/codehelion-artifact/src/identity.rs:47-59 | Renames every copy in place by colour, numbering each tie in file order, keeping recorded content, and touching no other symbol |
| `Numbering.NumberGroup` | crates/codehelion-artifact/src/identity.rs:48-58 | One tie group: each member gets its own number when there is more than one, none otherwise |
| `Identity.SharedPositions` | crates/codehelion-artifact/src/identity.rs:139-155 | The copies are exactly the positions whose fingerprint another position shares |
| `Identity.RefinedColours` | crates/codehelion-artifact/src/identity.rs:139-169 | Refining the components one after another gives every copy its final colour and leaves everything else at its content |
| `Identity.AssignIdentities` | crates/codehelion-artifact/src/identity.rs:39-72 | The whole in-place algorithm ends with the symbol list that colours, ties and numbers specify, and names every call by the new fingerprints; the rows of `Tied` say what that list is in terms of symbols, roots and calls |
| `Tied.RecordIs` | crates/codehelion-artifact/src/identity.rs:47-59 | Every record written out: a symbol without a copy is unchanged; any other is named by its old fingerprint, its colour and, if others are tied with it, how many of them come before it; it keeps its content, identity by order and all other fields |
| `Tied.EarlierIsSmaller` | crates/codehelion-artifact/src/identity.rs:47-59 | Of two tied symbols the earlier one gets the smaller number, and both are identified by order |
| `Tied.TiedAreAlike` | crates/codehelion-artifact/src/identity.rs:107-161 | Tied symbols have one content, reachability (exported or a root), size and body, the same reasons on unresolved calls, and as many callers and callees |
| `Tied.RootsTellApart` | crates/codehelion-artifact/src/identity.rs:158-161 | Of two copies neither of which is exported, one that is a root and one that is not are never tied |
| `Tied.StableIsIndistinct` | crates/codehelion-artifact/src/identity.rs:107-161 | A partition of the symbols is stable exactly when symbols it puts together agree in content, reachability, size, body and unresolved reasons and have as many callers and callees of every class, counted in the call list itself |
| `Tied.IndistinctAreTied` | crates/codehelion-artifact/src/identity.rs:12-13 | Symbols some such partition puts together are tied |
| `Tied.TiedExactly` | crates/codehelion-artifact/src/identity.rs:195-223 | Two symbols that a chain of copies calling one another links are tied exactly when some such partition puts them together |
| `IdentityLaws.FingerprintsUnique` | crates/codehelion-artifact/src/identity.rs:39-66 | Every symbol ends with a fingerprint of its own, for every root set, call list and symbol list in which no lone symbol comes with a fingerprint made for a copy of a content shared there |
| `IdentityLaws.UniqueExactly` | crates/codehelion-artifact/src/identity.rs:39-66 | For every symbol list without exception: all end distinct exactly when no symbol kept a fingerprint that a copy is given |
| `IdentityLaws.CallsNameTheirSymbols` | crates/codehelion-artifact/src/identity.rs:64-71 | As long as no symbol kept a fingerprint that a copy is given, a returned call names exactly the two symbols its positional call pointed at, and keeps its reason |
| `IdentityLaws.ContentIsKept` | crates/codehelion-artifact/src/identity.rs:35-59 | Symbols other than copies are unchanged; a copy's fingerprint changes, and the identity comparisons pair by does not |
| `IdentityLaws.AssigningTwice` | crates/codehelion-artifact/src/identity.rs:39-72 | For every symbol list: assigning identities a second time, under any roots and calls, changes nothing exactly when no symbol kept a fingerprint that a copy is given |
| `IdentityLaws.CallOrderIrrelevant` | crates/codehelion-artifact/src/identity.rs:88-104 | Reordering or repeating calls changes no symbol |
| `IdentityLaws.IndistinguishableCopiesAreNumbered` | crates/codehelion-artifact/src/identity.rs:12-13 | Copies that no stable partition of the call graph must separate are numbered and marked as identified by order |
| `Embeddings.ColoursMove` | crates/codehelion-artifact/src/identity.rs:8-11 | Old copies keep their final colours in a larger artifact whose other symbols are fresh and spare them |
| `Embeddings.GroupsMove` | crates/codehelion-artifact/src/identity.rs:47-59 | The copies tied with an old copy are exactly the moved ones: nothing new joins a tie |
| `Embeddings.OldSymbolsKeepTheirIdentity` | crates/codehelion-artifact/src/identity.rs:8-13 | Inserting unrelated symbols that keep the old ones in order leaves every old symbol's record unchanged |
| `Embeddings.OnlyNumbersDependOnOrder` | crates/codehelion-artifact/src/identity.rs:12-16 | Under any reordering, a copy that its colour singles out keeps its record, ties stay ties, and only numbers can move |
| `Embeddings.FingerprintSetIsKept` | crates/codehelion-artifact/src/identity.rs:12-16 | Under any such move the old symbols carry the same set of fingerprints as before |
| `Embeddings.PermutationKeepsFingerprints` | crates/codehelion-artifact/src/identity.rs:12-16 | Permuting the symbols, with calls and roots moved along, leaves the artifact's set of fingerprints unchanged |
| `Payload.NeighboursInjective` | crates/codehelion-artifact/src/identity.rs:107-128 | The plain and the counted form of a neighbour list both read back, and neither can be taken for the other |
| `Payload.RoundPayloadInjective` | crates/codehelion-artifact/src/identity.rs:107-135 | Two round payloads are equal exactly when own colour, both neighbour counts and the unresolved reasons are |
| `Payload.RoundTermIsThePayload` | crates/codehelion-artifact/src/identity.rs:107-135 | Under a collision-free hash, two symbols have equal payloads exactly when their next colours, as terms, are equal |
| `Payload.InitialPayloadInjective` | crates/codehelion-artifact/src/identity.rs:227-237 | The first payload determines content, reachability, size and body |
| `Payload.CopyPayloadInjective` | crates/codehelion-artifact/src/identity.rs:241-250 | The payload of a copy's fingerprint determines content, colour and number |
| `PayloadLayouts.InitialLayout` | crates/codehelion-artifact/src/identity.rs:227-237 | The first payload byte by byte: sixteen content bytes, one byte for reachability, eight for the size and the body's or none, each behind its length |
| `PayloadLayouts.CopyLayout` | crates/codehelion-artifact/src/identity.rs:241-256 | A copy's payload byte by byte: content, colour, whether a number follows, the number |
| `PayloadLayouts.RoundLayout` | crates/codehelion-artifact/src/identity.rs:107-135 | A round's payload byte by byte: own colour, callers, callees, reasons; one neighbour is listed plainly, two of one colour behind eight full bytes and with their count |
| `PayloadLayouts.ReasonsLayout` | crates/codehelion-artifact/src/identity.rs:128-133 | Reasons are counted and spelled in the order of their spellings |
| `Payload.AppendNeighbours` | crates/codehelion-artifact/src/identity.rs:107-128 | Counting neighbours and appending the counts in colour order writes the specified bytes |
| `Payload.NextColourPayload` | crates/codehelion-artifact/src/identity.rs:107-135 | The buffer the round hashes is the specified payload |
| `Bytes.FieldInjective` | crates/codehelion-artifact/src/identity.rs:252-256 | A length-prefixed field reads back whatever follows it |
| `Archive.PendingGraph.MergeMember` | crates/codehelion-artifact/src/archive.rs:261-344 | Appends one member's symbols and moves its calls and roots behind them by position |
| `Archive.PendingGraph.Finish` | crates/codehelion-artifact/src/archive.rs:354-378 | Assigns identities over the whole archive, then names calls and roots by them |
| `ArchiveLaws.ArchiveUnique` | crates/codehelion-artifact/src/archive.rs:354-357 | Every symbol of the archive ends with a fingerprint of its own, byte-identical members included |
| `ArchiveLaws.ArchiveKeepsContent` | crates/codehelion-artifact/src/archive.rs:261-344 | Every member symbol is in the archive and keeps its content identity |
| `ArchiveLaws.SomeBlock` | crates/codehelion-artifact/src/archive.rs:261-344 | Every archive symbol comes from some member's block: none is invented |
| `ArchiveLaws.CallCount` | crates/codehelion-artifact/src/archive.rs:261-344 | No call is dropped and none is added |
| `ArchiveLaws.ArchiveKeepsCalls` | crates/codehelion-artifact/src/archive.rs:261-378 | Each member's call names, among all archive symbols, exactly that member's own two symbols, and keeps its reason |
| `ArchiveLaws.ArchiveKeepsRoots` | crates/codehelion-artifact/src/archive.rs:261-378 | An archive symbol is an entry point, or an indirect reference, exactly when its member lists it as one |
| `ArchiveLaws.MovedCallIs` | crates/codehelion-artifact/src/archive.rs:300-330 | A call moves with the symbols it names; it is dropped without its caller, and a target the member does not define is recorded as missing |
| `ArchiveMoves.MemberSymbolSurvives` | crates/codehelion-artifact/src/archive.rs:279-288 | Every member symbol keeps export, size, body and content through merging and naming, and is named by the member, or as a copy of that name |
| `ArchiveMoves.MemberRootSurvives` | crates/codehelion-artifact/src/archive.rs:356-364 | A position counts as a root exactly when its member lists its symbol as an entry point or an indirect reference |
| `ArchiveMoves.OtherMembersDoNotInterfere` | crates/codehelion-artifact/src/archive.rs:261-378 | Members with new identities, put before, between or behind the others, leave every record of the others unchanged |
| `ArchiveMoves.MemberOrderKeepsFingerprints` | crates/codehelion-artifact/src/archive.rs:261-378 | Rearranging the members of an archive leaves its set of symbol fingerprints unchanged |
| `ArchiveMoves.ExchangeIsSymmetry` | crates/codehelion-artifact/src/archive.rs:261-357 | Exchanging two byte-identical members moves each symbol to its counterpart and keeps start colours, unresolved calls and edges |
| `ArchiveMoves.ArchivesAreCoarsest` | crates/codehelion-artifact/src/archive.rs:354-357 | In every archive, duplicates and all, final colours are the coarsest stable partition of the whole call graph, because copies are the same symbol of byte-identical members |
| `ArchiveMoves.ByOrderExactly` | crates/codehelion-artifact/src/archive.rs:967-1012 | An archive symbol is identified by order exactly when its member says so or another member is byte-identical; without one its record is only wrapped |
| `Boundaries.SymbolBoundaries` | crates/codehelion-artifact/src/native.rs:181-229 | The one-pass boundaries equal asking every earlier owner, for every address-sorted list |
| `Boundaries.BoundsAre` | crates/codehelion-artifact/src/native.rs:174-229 | Every boundary written out: an alias exactly when an earlier owner covers its start; otherwise the range is as long as declared, or reaches the least greater start, or the section end when there is none |
| `Boundaries.NextGreaters` | crates/codehelion-artifact/src/native.rs:191-205 | Filling from the back gives each entry the next strictly greater address |
| `Boundaries.OneOwnerSuffices` | crates/codehelion-artifact/src/native.rs:206-229 | Asking only the last owner finds the owner that asking them all would find |
| `Boundaries.OwnersDisjoint` | crates/codehelion-artifact/src/native.rs:174-181 | Ranges of two owners never overlap |
| `Boundaries.AliasIsCovered` | crates/codehelion-artifact/src/native.rs:166-181 | An alias starts inside the bytes of the owner it names, which is an owner itself |
| `Boundaries.OwnedRangeInSection` | crates/codehelion-artifact/src/native.rs:556-573 | Under the caller's filter an owned range stays inside its section |
| `Boundaries.OwnedBytesFitTheSection` | crates/codehelion-artifact/src/native.rs:556-573 | Under that filter all owned bytes together never exceed the section |
| `SymbolIndexes.SpanHolding` | crates/codehelion-artifact/src/native.rs:415-422 | The binary search finds the one retained span that holds an address, or none when there is none |
| `SymbolIndexes.SectionView.SameAddressSameOwner` | crates/codehelion-artifact/src/native.rs:590-648 | Symbols that share an address with bytes at it share their owner |
| `SymbolIndexes.SectionView.HolderIs` | crates/codehelion-artifact/src/native.rs:574-648 | The one span holding an indexed symbol's start is its owner's |
| `SymbolIndexes.TwinOwnersAreEmpty` | crates/codehelion-artifact/src/native.rs:556-590 | Two owners at one address own no bytes at it |
| `NativeIndex.ViewFits` | crates/codehelion-artifact/src/native.rs:556-590 | Boundaries of filtered and sorted symbols make a view whose owners and aliases fit together |
| `SymbolIndexes.KeptIs` | crates/codehelion-artifact/src/native.rs:556-568 | Kept are exactly the symbols, at even addresses on thumb, whose start and saturated end lie in the section, by address and larger sizes first |
| `Sorting.SortKeepsTies` | crates/codehelion-artifact/src/native.rs:568 | Sorting is stable: entries that tie keep their order |
| `NativeIndex.SymbolIndex.IndexSection` | crates/codehelion-artifact/src/native.rs:543-651 | Indexing a section keeps exactly the symbols that name bytes of it and appends a record for each, with offset, retained size and whether the size was inferred; a symbol, the first symbol at an address, and the spans of retained bytes then lead to the record owning them; other sections and symbols keep their lookups |
| `NativeIndex.SymbolIndex.ContainingIsExact` | crates/codehelion-artifact/src/native.rs:374-377 | Containment answers with a record exactly when that record's span holds the address |
| `FrameSweep.FramesAtSymbolAddresses` | crates/codehelion-artifact/src/dwarf.rs:370-403 | The active-set sweep returns for each symbol a prefix, in (end, index) order, of the frames covering its address, and reports truncation exactly when the full join exceeds the budget |
| `FrameSweep.MatchedExactly` | crates/codehelion-artifact/src/dwarf.rs:370-403 | Each list written out: the frames over the address that end first, those ending together by index, in that order, as many as there are or the budget allows after the symbols before |
| `FrameSweep.ActiveIsCover` | crates/codehelion-artifact/src/dwarf.rs:376-390 | Once started frames are in and ended ones out, the active set is the set of frames covering the address |
| `FrameSweep.BudgetIsKept` | crates/codehelion-artifact/src/dwarf.rs:391-401 | All lists together hold the whole join or exactly the budget |
| `FrameSweep.LargerBudgetExtends` | crates/codehelion-artifact/src/dwarf.rs:391-401 | A larger budget only extends each symbol's list |
| `FrameSweep.CompleteUnlessTruncated` | crates/codehelion-artifact/src/dwarf.rs:370-403 | Without truncation a list holds exactly the frames covering its symbol |
| `Locations.DwarfPathInterner.Intern` | crates/codehelion-artifact/src/dwarf.rs:501-510 | Interning keeps paths and indexes inverse to each other, moves no earlier index, and fails only for a new path when 32 bits cannot name it |
| `Locations.DwarfPathInterner.IndexesArePaths` | crates/codehelion-artifact/src/dwarf.rs:494-517 | Indexes are equal exactly when the paths they stand for are |
| `Locations.SourcePathPrefixWithin` | crates/codehelion-artifact/src/dwarf.rs:340-354 | The helper retains the specified prefix of the path lengths |
| `Locations.PrefixWithinIsLongest` | crates/codehelion-artifact/src/dwarf.rs:336-354 | That prefix fits the byte budget, and no longer one does |
| `Attachment.TakeRange` | crates/codehelion-artifact/src/pe.rs:346-351 | Binary search and take-while yield the rows inside the range, up to the limit |
| `Attachment.CandidatesAreTheLocations` | crates/codehelion-artifact/src/pe.rs:356-365 | Sorting by path and removing duplicates by interned index leaves exactly the distinct locations, strictly sorted |
| `PdbAttachment.AttachPdbRows` | crates/codehelion-artifact/src/pe.rs:323-409 | The loop writes each symbol the specified stack and reports the specified truncation; a path is among the mappings exactly when some attached location has it |
| `PdbAttachment.PutAllIs` | crates/codehelion-artifact/src/pe.rs:385-400 | Each symbol ends with its own range's stack; symbols without one keep what they had |
| `PdbAttachment.BoundsHold` | crates/codehelion-artifact/src/pe.rs:366-384 | No stack exceeds the per-symbol bound, and what is attached plus what is left is what was given, in frames and in source bytes |
| `PdbAttachment.NothingAfter` | crates/codehelion-artifact/src/pe.rs:342-345 | Once no frame is left every later stack is empty and truncation is reported |
| `PdbAttachment.StacksAreComplete` | crates/codehelion-artifact/src/pe.rs:318-409 | Every stack is strictly sorted and names only positions of its range; without a reported truncation it names all of them |
| `PdbLaws.ConsideredExactly` | crates/codehelion-artifact/src/pe.rs:344-365 | A symbol considers exactly what the first rows of its range name, up to the candidate limit |
| `PdbLaws.StackIsOrdered` | crates/codehelion-artifact/src/pe.rs:356-362 | A stack is strictly ordered by path, then line, then column, a missing column first, with paths compared character by character |
| `PdbLaws.StackIsLongest` | crates/codehelion-artifact/src/pe.rs:366-381 | A stack is the longest beginning of what its symbol considers that the frame bounds and the bytes left allow |
| `PdbLaws.TruncatedExactly` | crates/codehelion-artifact/src/pe.rs:339-380 | Truncation is reported exactly when some range has surplus rows, is cut, or comes after the last frame is spent |
| `PdbLaws.Utf8WidthIsShortest` | crates/codehelion-artifact/src/pe.rs:371-375 | A path character is counted with the bytes of its shortest UTF-8 encoding (section 3 of RFC 3629) |
| `PdbReports.DroppedIsReported` | crates/codehelion-artifact/src/pe.rs:321-322 | Whenever a location is missing from a stack, truncation is reported |
| `PdbReports.DroppedExactly` | crates/codehelion-artifact/src/pe.rs:346-384 | A location is dropped exactly when surplus rows name one of their own, or some stack is not all that its range considers |
| `PdbReports.CompleteFits` | crates/codehelion-artifact/src/pe.rs:366-384 | What is attached whole stays within every bound |
| `PdbReports.CompleteTruncation` | crates/codehelion-artifact/src/pe.rs:342-355 | When every stack is whole, truncation is reported exactly when some range holds surplus rows or the ranges before one use up the frames |
| `PdbReports.ReportIsRightExactly` | crates/codehelion-artifact/src/pe.rs:321-322 | For the budget of the call, the report equals "a location was dropped" exactly when surplus rows name a location of their own, or what is considered does not fit the bounds, or no range has surplus rows or follows ranges that use up the frames |
| `PdbReports.ReportIsAlwaysRightExactly` | crates/codehelion-artifact/src/pe.rs:321-322 | It does under every budget with one candidate limit exactly when some range's surplus rows name a location of their own, or no range has surplus rows and the last range holds any |
| `PdbReports.UntidyMisreports` | crates/codehelion-artifact/src/pe.rs:342-355 | For any other input there is a budget under which truncation is reported and nothing is dropped |
| `PdbReports.ReportCanBeSpurious` | crates/codehelion-artifact/src/pe.rs:352-355 | Two rows of one location with one candidate allowed: truncation reported, nothing dropped |
| `Branches.BranchRelocation` | crates/codehelion-artifact/src/elf.rs:328-342 | The binary search with its run scan finds what looking at every relocation in turn finds |
| `Branches.EveryTransferIsRecorded` | crates/codehelion-artifact/src/elf.rs:385-424 | Every call or jump leaves one call, with a target or with a reason but not both, unless it is a jump that stays in its function |
| `Branches.KeptIsEvident` | crates/codehelion-artifact/src/elf.rs:452-491 | A relocation that a branch uses, or whose offset no branch consumed, leaves a call with its edge or reason, or its roots |
| `Branches.KeptExactly` | crates/codehelion-artifact/src/elf.rs:469-491 | Every relocation is used or left unconsumed, whatever code the section holds, exactly when none shares the offset of a four-byte branch field inside the section with a branch relocation that comes first |
| `Evidence.ConsumedIs` | crates/codehelion-artifact/src/elf.rs:300-303 | An offset is consumed exactly when a near branch ends there and has a relocation to use |
| `Evidence.RootsOfTheSection` | crates/codehelion-artifact/src/elf.rs:481-490 | A section roots exactly the functions rooted before, those whose address an instruction computes, and targets of relocations no branch uses |
| `Evidence.CollidingEnds` | crates/codehelion-artifact/src/elf.rs:568-576 | In functions that share no byte, near branches never end less than five bytes apart, so one of two relocations that near each other stays unused |
| `Evidence.EvidenceIsKeptExactly` | crates/codehelion-artifact/src/elf.rs:469-491 | For the code at hand, a relocation leaves a call or its roots exactly when no branch ends at it that uses another relocation, or every function it points at is rooted otherwise |
| `Evidence.EvidenceSurvivesExactly` | crates/codehelion-artifact/src/elf.rs:469-491 | Whatever functions the section holds, none sharing a byte with another, every relocation leaves its evidence exactly when each function a shadowed one points at has a relocation no code can consume, or two less than five bytes apart, which no code consumes together |
| `Branches.DistinctOffsetsKeepEvidence` | crates/codehelion-artifact/src/elf.rs:288-342 | With one relocation an offset, every relocation of a text section leaves a recorded edge or reason, or roots its target or every owner of its uncovered section |
| `Branches.SharedOffsetLosesAFunction` | crates/codehelion-artifact/src/elf.rs:481-489 | Two relocations at the offset of one five-byte call: the call records one function, and nothing says that the other can run |
| `Transfers.Resolve` | crates/codehelion-artifact/src/elf.rs:288-325 | With a PC-relative relocation at its last four bytes a near branch yields what that resolved to, or the reason written out for it, and consumes it; otherwise the function its destination starts, for a jump also the one whose span holds it, nothing for a jump inside its own function, and a missing relocation when there is none |
| `Transfers.X86Transfers.ScanFunction` | crates/codehelion-artifact/src/elf.rs:370-424 | Scanning a function adds exactly the calls, consumed offsets and taken addresses of its instructions, in order |
| `Transfers.X86Transfers.NoteRelocationTarget` | crates/codehelion-artifact/src/elf.rs:530-542 | A relocation target roots its function, or every owner of the section it only names |
| `Transfers.X86Transfers.ScanSection` | crates/codehelion-artifact/src/elf.rs:452-491 | One text section: scan its functions, then root the targets of the relocations no branch consumed |
| `TransferLaws.StepsAre` | crates/codehelion-artifact/src/elf.rs:452-478 | The scanned instructions are those of the section's functions, each at its function's place in memory |
| `TransferLaws.StepAppends` | crates/codehelion-artifact/src/elf.rs:370-424 | The call an instruction leaves is appended behind the earlier ones, and there is at most one |
| `TransferLaws.SectionCallsAre` | crates/codehelion-artifact/src/elf.rs:370-424 | A section adds exactly the calls its instructions leave: near branches as resolved, other transfers as indirect, switches through a scaled table not at all |
| `TransferLaws.SectionRootsAre` | crates/codehelion-artifact/src/elf.rs:479-491 | A section roots exactly the functions whose address an instruction computes and those that relocations at offsets no branch consumed point at |
| `Leb128.UnsignedLeb` | crates/codehelion-artifact/src/wasm.rs:728-741 | Reads the value of the seven-bit groups modulo 32 bits from the bytes up to the first that announces no other, or says that bytes ran out or that five all announce another |
| `Leb128.ReadingIsUnique` | crates/codehelion-artifact/src/wasm.rs:728-741 | The bytes at a place allow one reading |
| `Leb128.EncodingReadsBack` | crates/codehelion-artifact/src/wasm.rs:728-741 | Any encoding of a 32-bit value in at most five bytes, padded or not, reads back, wherever it stands |
| `Leb128.CanonicalReadsBack` | crates/codehelion-artifact/src/wasm.rs:728-741 | Every 32-bit value reads back from its shortest encoding |
| `WasmBodies.FormsEqualExactly` | crates/codehelion-artifact/src/wasm.rs:663-694 | Two bodies have one immediate-preserving form exactly when their locals and instructions are equal up to the functions that call, return_call and ref.func name |
| `WasmBodies.PiecesPrefixFree` | crates/codehelion-artifact/src/wasm.rs:663-694 | Dropping function indices leaves instruction bytes as separable as they were |
| `WasmBodies.KeyStreamsEqualExactly` | crates/codehelion-artifact/src/wasm.rs:703-725 | Two streams of opcode keys are equal exactly when the operations are: the stream decodes in one way |
| `WasmBodies.OperationIs` | crates/codehelion-artifact/src/wasm.rs:709-725 | An opcode from 0xfb to 0xfe is extended by the value read behind it, any other stands alone |
| `WasmFunctions.AppendOpcodeKey` | crates/codehelion-artifact/src/wasm.rs:709-725 | Appends the key of the operation at an offset, escape byte and fixed-width subopcode included, or fails when it cannot be read |
| `WasmFunctions.AppendOperand` | crates/codehelion-artifact/src/wasm.rs:681-694 | The form grows by what the operator contributes, which in a laid-out body is its instruction, shortened if it names a function; it fails exactly when the operator's bytes lie outside the input |
| `WasmFunctions.ParseFunction` | crates/codehelion-artifact/src/wasm.rs:576-650 | Parses exactly the bodies all of whose parts can be read, to their form and keys; its calls are those its operators make, in order, by callee, by type or untyped for opcodes 0x10 to 0x15, and its references those of ref.func |
| `WasmFunctions.InstructionStands` | crates/codehelion-artifact/src/wasm.rs:597-624 | The bytes between one operator and the next are that instruction's |
| `WasmFunctions.LaidOutParses` | crates/codehelion-artifact/src/wasm.rs:576-650 | A body laid out in a module parses to its own form and its operations' keys |
| `WasmFunctions.ParsedFormsCompareBodies` | crates/codehelion-artifact/src/wasm.rs:576-694 | Comparing two parsed functions compares their bodies: form against instructions up to named functions, keys against operations |
| `IndirectRoots.IndirectRootIndices` | crates/codehelion-artifact/src/wasm.rs:450-496 | The three passes give the specified roots |
| `IndirectRoots.RootsAreConservativeExactly` | crates/codehelion-artifact/src/wasm.rs:443-496 | Every element that some recorded transfer may reach stays a root, exactly when narrowing never meets an element without a type |
| `IndirectRoots.NarrowedRootsAreTheReachable` | crates/codehelion-artifact/src/wasm.rs:450-496 | With every element typed, narrowing drops exactly the elements no recorded transfer may reach, and otherwise keeps all |
| `IndirectRoots.DroppedExactly` | crates/codehelion-artifact/src/wasm.rs:450-496 | An element is dropped exactly when no transfer is untyped, every called type and typed element has a shape, some element is called by its shape, and this one is not |
| `IndirectRoots.ValidatedModulesAreConservative` | crates/codehelion-artifact/src/wasm.rs:96-135 | Modules are validated before the state is filled, and a valid one types every function index, so for whatever `parse` accepts, what may be reached stays a root |
| `IndirectRoots.UntypedElementIsDropped` | crates/codehelion-artifact/src/wasm.rs:480-482 | The private function drops an element without a type beside one that matches; `parse` never hands it such a state |
| `AbiTags.StripAbiTags` | crates/codehelion-artifact/src/ownership.rs:339-355 | The single pass equals deleting the leftmost tag again and again, tags formed by a deletion included, until there is none or it is unclosed |
| `AbiTags.StrippedIsClean` | crates/codehelion-artifact/src/ownership.rs:336-338 | What is left holds no tag, or its leftmost one is never closed |
| `AbiTags.StrippingTwice` | crates/codehelion-artifact/src/ownership.rs:336-355 | Stripping a stripped name changes nothing |
| `AbiTags.OneTag` | crates/codehelion-artifact/src/ownership.rs:339-355 | From a text with one tag `[abi:` to `]` exactly that is taken out; an unclosed one stays |

## Left out

- BLAKE3 and the chance of collisions: fingerprints are injective terms, and distinct digests for distinct colours are an assumption of `Payload.RoundTermIsThePayload`.
- IdentityLaws.FingerprintsUnique: a lone symbol that comes with the very fingerprint a copy is given keeps it, so such lists are left out; `IdentityLaws.UniqueExactly` covers them.
- Iteration order of ordered maps where the result does not depend on it: tie groups, set members and table elements are taken in any order.
- Archive.PendingGraph.Finish: root lists are compared as sets; that they are sorted by digest and free of duplicates is not modelled.
- Archive.PendingGraph.MergeMember: moves symbols, calls, entry points and indirect references only; file offsets, sections, data segments, relocations and source mappings of members are not modelled.
- ArchiveMoves.OtherMembersDoNotInterfere: file offsets, which move with a member, are not part of the modelled records.
- ArchiveMoves.ArchivesAreCoarsest: takes members with one fingerprint to be one file, as under a collision-free hash, and the symbols of each member to be told apart already, as `IdentityLaws.FingerprintsUnique` has it.
- ArchiveMoves.ByOrderExactly: takes the same of members.
- Archive iteration, thin members, unreadable members and the architecture an archive reports.
- The object, DWARF, PDB and WebAssembly readers, the x86 decoder and the demanglers: their results are abstract lists, instructions and bytes.
- NativeIndex.SymbolIndex.IndexSection: trimming of inferred padding is a parameter that never lengthens; code bytes, names and fingerprints of the appended records are not modelled.
- Image addresses enter as a map from address to position; how the index builds it, how relocation targets are resolved and how pointers in data sections are read are not modelled.
- The counter of next-address reads in the boundary pass, and every other statement about running time.
- The per-symbol attachment loop of `dwarf.rs`: the same bounds around the sweep join; its self-contained form in `pe.rs` is the one modelled.
- PdbAttachment.AttachPdbRows: the ranges' fingerprints are already positions.
- PdbReports.ReportIsRightExactly: a byte budget of 2^64 - 1 is covered for paths that add up to no more, as paths held in memory do; `PdbReports.ReportIsAlwaysRightExactly` takes the same in the direction that exhibits a misleading budget.
- Transfers.X86Transfers.ScanSection: one section; the loop over sections, and the references that data sections and dynamic relocations add, only add further roots.
- Error texts, and which of several failures a WebAssembly body reports first.
- How a function type's comparable shape is read off its declaration.
- Ownership keys beyond ABI tags: bracket levels, qualifiers, special names and the tables of known prefixes.
- Capability tables, format detection, sizes and sections, normalization recipes for x86, serialization and the command line.
