# go-macho: what its hard parts guarantee

go-macho reads and rewrites Mach-O files. Most of that is decoding fields; this project models the
parts where correctness rests on an argument, and proves that argument in Dafny.

- **Export trie** (`pkg/trie/trie.go`). Two readers of one byte format: `ParseTrie` lists a trie,
  `WalkTrie` searches one name under Brent's cycle detector. Below them the LEB128 codecs of
  section 7.6 of DWARF Version 5; above them, that a trie spelled out as bytes is listed and searched
  as it was laid out. Modules `Leb128`, `TrieFormat`, `TrieListing`, `TrieWalk`, `TrieAgreement`,
  `TrieLayout`.
- **Symbol lookup** (`symindex.go`, `symindex_ref.go`, `file.go`). A lazily built, revalidated
  index has to answer as the linear scan does while callers edit the table. What that
  scan prefers is stated as a ranking of matches. Modules `CaseFold`, `SymbolIndex`, `LookupOrder`.
- **Chained-fixup pages** (`pkg/fixupchains`). A page is walked once and then searched, with the
  plain walker's answers; it holds exactly the links of that walk. A page laid out
  from pointer fields is walked as laid out. Modules `Fields`, `ChainWalk`, `PageTrace`, `PageCache`,
  `ChainLayout`.
- **dyld rebase and bind opcodes** (`file.go`). Run-length instructions against their plain
  expansions, on instructions and on bytes, and the ranges of everything emitted; what streams
  and threaded words mean in terms of their fields. Modules `DyldImage`, `RebaseOpcodes`,
  `BindMachine`, `BindStream`, `RebaseMeaning`, `BindMeaning`, `ThreadedLayout`, `ThreadedStream`.
- **Swift context descriptors** (`swift.go`, `swift_ctxmemo.go`). A memo that replays a lookup's
  result and cursor position under interleaved calls, over a recursion whose cycle and depth checks
  are shown exact, and which names descriptors in the file's bytes get. Modules `SwiftContext`,
  `SwiftLayout`, `SwiftMemo`.
- **Export** (`export.go`). Rebuilding the symbol table with its string pool and indirect table,
  and laying segments out again. Modules `StringPool`, `SymbolTable`, `SymbolMeaning`, `SymbolRebuild`,
  `SegmentMap`, `SegmentExport`, `ExportedBytes`.
- **Relocations** (`types/section.go`, `file.go`). Module `Relocations`.

Code that updates state is modelled by classes and methods; each method is tied by its `ensures` to
a specification function or predicate, and the lemmas are about those. Integers are unbounded
with the source's widths and wrap-around written out; relocation words are bit vectors. Errors are
compared as success or failure, except where a property names the kind ("forms a cycle", "no
fixup", a chain that is too long). Bytes of a file are an immutable sequence.

Three claims one might expect of this code do not hold, and the project says exactly when they do.

- In a *lazy* bind stream, `DO_BIND_ULEB_TIMES_SKIPPING_ULEB` with count zero is not the same as its
  empty expansion: a lazy stream refuses the opcode whatever its count
  (`BindMachine.ExpansionPreservesExactly`, `BindStream.ExpandedStreamParsesExactly`,
  `BindStream.LazyZeroRepeatBytes`). Everywhere else it is.
- `Remap` treats the end of an old range as inside it, so the first byte of a segment can be sent to
  the padding of the segment before, or to an empty segment at the same file offset
  (`SegmentMap.RemapAtStartExactly`, `SegmentMap.RemapInOrderExactly`, `SegmentMap.RemapMissesStart`,
  `SegmentMap.EmptySegmentMovesStart`). `RemapSeg` is exact at every offset.
- A string pool padded to exactly 4 GiB has a length of zero as uint32, and every name and every
  indirect target in it then reads back empty (`SymbolTable.RecordsReadBackExactly`,
  `SymbolTable.FullPoolLosesName`).

Where comments and code differ, the code is modelled: `safealloc.go:31-32` says that parent cycles
are detected exactly and that the depth limit only stops acyclic chains, but a cycle of more than
1024 descriptors meets the depth limit first (`SwiftContext.LongCycleIsTooDeep`). A cycle is reported
as one exactly if a descriptor repeats among the first 1025 (`SwiftContext.CycleReportedExactly`), and
one check or the other stops exactly the lookups that would not end within the limit
(`SwiftContext.GuardsAreExact`).

## Model

| member | source | states |
|---|---|---|
| Leb128.ReadUleb128 | pkg/trie/trie.go:43-73 | The reading loop ends as the specification says on every byte string, and leaves the reader behind the value or at the failing byte |
| Leb128.ReadSleb128 | pkg/trie/trie.go:75-102 | The same for signed values, with the sign extension done on the 64-bit word |
| Leb128.UlebExact | pkg/trie/trie.go:43-73 | Any accepted value took at most ten bytes and is their exact base-128 sum: nothing was truncated |
| Leb128.SlebExact | pkg/trie/trie.go:75-102 | A value is accepted if and only if its bytes are one delimited number, and it is then their signed base-128 value reduced to 64 bits |
| Leb128.EncodeUleb128 | pkg/trie/trie.go:136-149 | The writing loop appends exactly the bytes of the specification |
| Leb128.EncodeSleb128 | pkg/trie/trie.go:151-171 | The same for all int64, both extremes included |
| Leb128.UlebBytesMean | pkg/trie/trie.go:136-149 | The encoded bytes are delimited by their continuation bits and their base-128 sum is the value |
| Leb128.SlebBytesMean | pkg/trie/trie.go:151-171 | The same for signed values |
| Leb128.UlebRoundTrip | pkg/trie/trie.go:43-149 | Decoding an encoding between any prefix and any suffix gives the value back and consumes exactly the encoding, for every uint64 |
| Leb128.SlebRoundTrip | pkg/trie/trie.go:75-171 | The same for every int64 |
| TrieListing.AppendShared | pkg/trie/trie.go:293-313 | Appending to the shared name buffer never changes the part below the length, whether or not it reallocates |
| TrieListing.ParseNode | pkg/trie/trie.go:248-324 | The recursive walk terminates on all bytes, restores the ancestor set, keeps the caller's prefix although all calls share one buffer, and returns the specified listing |
| TrieListing.ParseTrie | pkg/trie/trie.go:243-246 | The public entry returns the listing of the root |
| TrieListing.ListingIsPreorder | pkg/trie/trie.go:248-324 | The list holds the terminal nodes in strict preorder of their paths, each named by the edge labels along its path |
| TrieListing.ListedIffExported | pkg/trie/trie.go:248-324 | An offset and name are listed if and only if some path of edges spells the name and ends at a terminal node with that offset |
| TrieWalk.CompareLabel | pkg/trie/trie.go:388-418 | The byte-by-byte comparison with the symbol ends where its specification does |
| TrieWalk.FindEdge | pkg/trie/trie.go:380-432 | The edge loop takes the edge its specification takes |
| TrieWalk.EndsOnce | pkg/trie/trie.go:326-439 | A walk without the detector has at most one outcome |
| TrieWalk.RepeatRunsForever | pkg/trie/trie.go:331-350 | A repeated state without progress in the name means the walk never ends |
| TrieWalk.AnchorSurvivesOnlyBriefly | pkg/trie/trie.go:331-350 | Brent's anchor cannot stay unmatched for a doubling longer than the data has positions |
| TrieWalk.WalkTrie | pkg/trie/trie.go:326-439 | The search terminates on all bytes and symbols; it reports a cycle if and only if the walk without the detector runs forever, and otherwise gives that walk's outcome |
| TrieAgreement.CompareDecides | pkg/trie/trie.go:388-418 | An edge matches exactly if its label is a prefix of the rest of the symbol, and a first-byte mismatch skips to the next edge |
| TrieAgreement.FoundIsExported | pkg/trie/trie.go:326-439 | What the search finds is a terminal node whose path spells the symbol, on any bytes |
| TrieAgreement.FoundIsListed | pkg/trie/trie.go:243-439 | Where the listing succeeds, every found offset is listed under the symbol |
| TrieAgreement.FoundIffListed | pkg/trie/trie.go:243-439 | With non-empty labels of distinct first bytes at every node, the search finds (o, s) if and only if the listing holds it |
| TrieAgreement.OnePathPerName | pkg/trie/trie.go:248-324 | In such a trie one name is spelled by one path only |
| TrieAgreement.NamesListedOnce | pkg/trie/trie.go:248-324 | In such a trie no name is listed twice |
| TrieAgreement.NeverBackToAncestor | pkg/trie/trie.go:251-262 | Where the listing succeeds, no path leads back to an ancestor |
| TrieLayout.HeaderReads | pkg/trie/trie.go:264-286 | A node spelled out between any prefix and suffix is read with its payload right behind the size and its child count right behind the payload |
| TrieLayout.ChildrenRead | pkg/trie/trie.go:283-313 | Its children are exactly the edges that were spelled out, in order, with their labels and offsets |
| TrieLayout.NotBelowItself | pkg/trie/trie.go:251-262 | In a trie whose bytes stand in the data no node is below itself |
| TrieLayout.ListsLayout | pkg/trie/trie.go:248-324 | The listing of such a trie is exactly its payloads in preorder, named by the labels on the way |
| TrieLayout.WalkFindsLayout | pkg/trie/trie.go:326-439 | If labels start differently at each node, the search finds an offset for a symbol if and only if the trie exports them |
| TrieLayout.SmallTrie | pkg/trie/trie.go:373-378 | A trie in which `_ab` lies below the terminal node of `_a`: both are listed and found |
| CaseFold.RunesEncode | symindex.go:139-151 | Encoding any scalar values as UTF-8 and decoding them again is the identity |
| CaseFold.DecodeExactly | symindex.go:139-151 | A rune is decoded exactly where its encoding stands; bytes that start no encoding are one replacement rune each |
| CaseFold.SurrogatesAreNotCarried | symindex.go:139-151 | The surrogates D800 to DFFF, and only they, are no runes: the bytes that would spell them decode to U+FFFD |
| CaseFold.LeastDecidesOrbit | symindex.go:155-163 | Two runes have the same least orbit member if and only if they fold to each other |
| CaseFold.MinFoldRune | symindex.go:155-163 | The loop finds the least member of the rune's folding orbit |
| CaseFold.AsciiKey | symindex.go:123-138 | The upper-cased bytes of an ASCII string are its key under the full rules, so the fast path and the Unicode path agree |
| CaseFold.FoldKey | symindex.go:123-153 | Both branches compute the fold key |
| CaseFold.KeyIsUnique | symindex.go:123-153 | A string has one fold key |
| CaseFold.KeysDecideEqualFold | symindex.go:114-153 | Two keys are equal if and only if the strings are equal under simple case folding |
| CaseFold.SwapCaseIsLawful | symindex.go:155-163 | The laws assumed of simple folding can be met |
| SymbolIndex.NameIndex.MatchesNames | symindex.go:90-97 | Revalidation succeeds if and only if the table's names are still those that were indexed |
| SymbolIndex.BuildNameIndex | symindex.go:76-88 | The index maps each name to its first position |
| SymbolIndex.NameIndex.FoldFirst | symindex.go:100-112 | The first position of a fold-equal name, the fold map being built on first use |
| SymbolIndex.LazyIndex.Get | symindex.go:175-191 | An index is handed out only for the very slice it was built over |
| SymbolIndex.LazyIndex.GetMatching | symindex.go:246-260 | An index that is used holds exactly the current names |
| SymbolIndex.File.CachedExports | symindex.go:263-286 | The cached export list is the one the current source parses to |
| SymbolIndex.File.FindSymbolAddressLinear | symindex_ref.go:13-57 | The reference scan: exact before folded, symbols before exports, first position wins |
| LookupOrder.OneIsLeast | symindex_ref.go:13-57 | Matches are ranked exact before folded, symbols before exports, lower position first; at most one is least |
| LookupOrder.LookupPrefersLeast | symindex_ref.go:13-57 | Where there is a symbol table the answer is an address if and only if it is that of the least match; it is "not found", or the error of unreadable exports, if and only if nothing matches |
| LookupOrder.NoTableNoLookup | symindex_ref.go:14-16 | Without a symbol table every lookup fails |
| LookupOrder.FoldedExportIsFound | symindex_ref.go:49-56 | With no symbols, `_f` finds the export `_F` |
| SymbolIndex.File.FindSymbolAddressStale | file.go:5253-5256 | A stale index is dropped and the answer is the reference's |
| SymbolIndex.File.FindSymbolAddress | file.go:5163-5251 | Indexed or not, the answer is the reference's in the current state |
| SymbolIndex.Client.Perform | symindex.go:240-244 | One caller action (lookup; new array; edit in place of any array, in the table or not; installing any part of any array as the table; removing it; reset; change of the exports) keeps the index sound and changes the state as specified |
| SymbolIndex.Client.Serve | file.go:5163-5256 | Over every run of such actions, tables that shrink or shift in place and returns to earlier tables among them, every lookup answers as the reference would in the state it finds |
| ChainWalk.ChainStartsForPage | pkg/fixupchains/fixupchains.go:240-287 | The chain heads of a page, with the multi-start table's error cases |
| ChainWalk.WalkPage | pkg/fixupchains/fixupchains.go:1486-1608 | The walker goes link by link until the target, an end or an anomaly |
| ChainLayout.FormatsAgree | pkg/fixupchains/fixupchains.go:1610-1648 | Exactly the formats of the table of pointer layouts are known; each has the width, the stride and the link field that its layout gives it |
| ChainLayout.NextReads | pkg/fixupchains/types.go:200-311 | A pointer put together from any values of its fields has its link field's value as its link |
| ChainLayout.LocationExactly | pkg/fixupchains/fixupchains.go:289-312 | A page offset is a location if and only if it does not pass the page size and its pointer lies in the segment's byte range, which does not pass uint64 |
| ChainLayout.StartsExactly | pkg/fixupchains/fixupchains.go:240-287 | The chain heads of a page: none, the start itself, or the multi-start run it points to, up to its last entry, inside the page and ascending |
| ChainLayout.ChainWalksLayout | pkg/fixupchains/fixupchains.go:1554-1606 | Along a chain of laid-out pointers the walker reaches each of them, with its word, and nothing else |
| ChainLayout.PageWalksLayout | pkg/fixupchains/fixupchains.go:1519-1550 | The same for a page of several chains |
| ChainLayout.LookupFindsFixup | pkg/fixupchains/fixupchains.go:1486-1552 | On every page of a segment a lookup at a laid-out pointer decodes that pointer |
| ChainLayout.LookupFindsNothingElse | pkg/fixupchains/fixupchains.go:1486-1552 | At every other offset of such a page there is no fixup |
| PageCache.SameWalk | pkg/fixupchains/pagecache.go:39-47 | A walk depends on nothing that `matches` does not compare |
| PageTrace.TraceDecides | pkg/fixupchains/pagecache.go:17-23 | The links of the one walk are exactly what the link-by-link walker reaches, with their raw words; for every other offset the walker ends if the walk did, and fails where the walk met an anomaly |
| PageTrace.OneChainIsNotCapped | pkg/fixupchains/pagecache.go:121-141 | The cap on links never stops a page with one chain, and its links ascend as they come |
| PageTrace.CappedWalkRepeats | pkg/fixupchains/pagecache.go:121-141 | With aligned chain heads the cap only stops a walk that meets some location twice |
| PageCache.WalkLinks | pkg/fixupchains/pagecache.go:121-172 | One chain adds exactly the links of its part of the walk; if the walk stops there, the links are all of it and it did not come to its end |
| PageCache.StrictlyIncreasing | pkg/fixupchains/pagecache.go:182-190 | True if and only if the offsets are strictly ascending |
| PageCache.SortChainLinks | pkg/fixupchains/pagecache.go:194-211 | Sorting keeps exactly the distinct links, ascending and with a raw word that one of the duplicates had |
| PageCache.BuildChainPage | pkg/fixupchains/pagecache.go:92-180 | On every page, cut short or with several chains too, the arrays are parallel, strictly ascending and hold exactly the distinct links of the walk with their raw words, and the page is complete if and only if the walk came to the end of the last chain |
| PageCache.PageAnswers | pkg/fixupchains/pagecache.go:76-89 | A page's entry for an offset is what the walker finds there, and a complete page without one means that the walker ends without it |
| PageCache.ChainedFixups.CachedFixupInPage | pkg/fixupchains/pagecache.go:51-90 | A lookup is handled if and only if the page can be walked and its walk meets the offset or comes to its end; the answer is then the plain walker's |
| PageCache.LeftToWalkerIsBroken | pkg/fixupchains/pagecache.go:76-89 | A lookup on a walkable page that is not handled is one on which the walker fails, unless the cap stopped the walk |
| PageCache.ChainedFixups.GetFixupAtOffset | pkg/fixupchains/fixupchains.go:1486-1552 | The cached lookup answers as the uncached one |
| PageCache.Serve | pkg/fixupchains/pagecache.go:51-90 | The same for every sequence of lookups, the starts being changed between them |
| RebaseOpcodes.GuardExact | file.go:4851-4866 | The count guard rejects exactly the counts with a slot outside the segment's file data |
| RebaseOpcodes.RepeatEmitsSlots | file.go:4911-4991 | An accepted repeat emits the current rebase once per slot, with the slot's offset and the word stored there, and moves on by the total advance |
| RebaseOpcodes.GuardIsRedundant | file.go:4851-4866 | The guard only fails early: without it the repeat would fail too, and otherwise it changes nothing |
| RebaseOpcodes.ExpandOne | file.go:4911-4991 | Each run-length or scaled opcode means its plain expansion |
| RebaseOpcodes.ExpansionPreservesOutcome | file.go:4821-4991 | Expanding a whole program keeps its outcome: the same list, or failure in both |
| RebaseOpcodes.RunInRange | file.go:4834-4849 | Every rebase of every run lies in the file-backed part of its segment, with the word stored there |
| RebaseOpcodes.ParsedInRange | file.go:4821-4991 | The same for every byte stream that parses |
| RebaseOpcodes.ExpandedStreamParsesTheSame | file.go:4821-4991 | Spelling the expansion out as opcode bytes and parsing those gives the same outcome |
| RebaseOpcodes.AppendExactly | file.go:5000-5070 | A rebase is appended exactly if a segment was set, its type is known, index and name agree, its slot of the width of its type lies in readable file data and its address does not overflow; it carries the word stored there |
| RebaseOpcodes.Parser.Times | file.go:4911-4922 | The counting loop reaches the state of the specified repeat |
| RebaseOpcodes.Parser.AppendRebase | file.go:4834-4849 | One rebase is appended with its stored value, or the parse fails |
| RebaseOpcodes.ParseRebase | file.go:4821-4991 | The parser over bytes ends as the machine over decoded instructions does |
| RebaseMeaning.OneRebaseMeans | file.go:4881-4991 | A stream that sets a type and a place, moves on and rebases once yields the rebase at that segment's offset plus the move with the word of its type's width there, or fails exactly where the place does not fit |
| RebaseMeaning.DoneLeavesRoom | file.go:4884-4891 | DONE ends a stream exactly if at most 15 bytes follow |
| RebaseMeaning.StepsMean | file.go:4911-4991 | Every accepted instruction but SET_SEGMENT emits the number of rebases, at the distance, and moves by the amount listed for its operands |
| RebaseMeaning.PlainOpcodesAre | file.go:4881-4991 | Which byte is which instruction without operands, and which is none |
| RebaseMeaning.OperandOpcodesAre | file.go:4881-4991 | Which byte is which instruction with operands, and how they are read |
| BindMachine.AddressAdvanceExact | file.go:4462-4486 | An ADD_ADDR operand is accepted exactly if offset plus the operand read as signed 64-bit stays a valid position, and then the addition is the mathematical one |
| BindMachine.GuardExact | file.go:4663-4704 | The count guard rejects exactly the counts with a bind outside the segment |
| BindMachine.RepeatEmitsSlots | file.go:4663-4704 | An accepted repeat emits the same bind at each slot |
| BindMachine.GuardIsRedundant | file.go:4663-4704 | The guard only fails early |
| BindMachine.ExpandOne | file.go:4636-4704 | A scaled or run-length opcode means its expansion, unless it is a zero count in a lazy stream |
| BindMachine.LazyZeroRepeatDiffers | file.go:4663-4704 | Such a repeat fails where its empty expansion succeeds |
| BindMachine.LazyZeroRepeatFails | file.go:4663-4666 | A lazy program that holds such a repeat anywhere fails |
| BindMachine.ExpansionPreservesOutcome | file.go:4396-4819 | Expanding a whole program without such a repeat keeps its outcome |
| BindMachine.ExpansionPreservesExactly | file.go:4396-4819 | For every program: where the expansion succeeds, the program does the same if and only if it holds no such repeat; where the expansion fails, so does the program |
| BindMachine.SlotsAscend | file.go:4730-4812 | The slots a threaded chain visits strictly ascend |
| BindMachine.ThreadEmitsSlots | file.go:4730-4812 | A chain adds exactly one fixup for each slot it visits, in order: a bind where bit 62 is set, a rebase elsewhere |
| BindMachine.ApplyEmitsSlots | file.go:4720-4812 | Both for each THREADED_APPLY |
| BindMachine.ThreadAscends | file.go:4720-4812 | The binds of one chain have strictly increasing offsets, its rebases too, and no bind shares an offset with a rebase |
| BindMachine.ApplyAscends | file.go:4720-4812 | The same for each THREADED_APPLY |
| BindMachine.ExecGood | file.go:4415-4812 | Every instruction keeps all fixups in range and the ordinal table within its declared size, which fits 16 bits |
| BindMachine.RunGood | file.go:4415-4812 | Over every run each bind fits its segment without address overflow, each threaded fixup lies in file data with the word stored there, and the chain step limit is never reached |
| ThreadedLayout.CommonFields | file.go:4720-4812 | A threaded word put together from its fields links by its next field; bits 62 and 63 tell binds and authenticated pointers |
| ThreadedLayout.RebaseWordMeans | file.go:4370-4383 | A plain rebase targets its 43-bit target with its high byte on top, an authenticated one the load address plus its offset, and fails exactly where that passes uint64 |
| ThreadedLayout.BindWordMeans | file.go:4385-4394 | A bind word names its 16-bit ordinal and, if plain, its signed 19-bit addend |
| ThreadedLayout.EveryWord | file.go:4370-4394 | Every 64-bit word is put together from such fields |
| ThreadedLayout.ThreadFollowsLayout | file.go:4720-4812 | A chain of laid-out words emits, word by word, the table entry the word names at the word's place with the addends added, or the rebase with its target, and ends at the last word |
| ThreadedLayout.AuthenticatedRebaseAddsBase | file.go:4373-4382 | The word 0x8000000000004000 in an image loaded at 0x100000000 targets 0x100004000 |
| BindStream.ParsedInRange | file.go:4396-4819 | The same for every byte stream that parses |
| BindStream.ExpandedStreamParsesTheSame | file.go:4396-4819 | Spelling the expansion of a stream without such a repeat out as opcode bytes and parsing those gives the same outcome |
| BindStream.ExpandedStreamParsesExactly | file.go:4396-4819 | For every stream: where the spelled-out bytes parse, the stream parses to the same if and only if it holds no such repeat; where they do not, neither does it |
| BindStream.LazyZeroRepeatBytes | file.go:4663-4666 | The lazy stream C0 00 00 is refused while its expansion, the empty stream, parses |
| BindStream.Parser.CheckedAddressULEBAdvance | file.go:4462-4486 | The two-way address arithmetic moves exactly as specified |
| BindStream.Parser.BindTimes | file.go:4663-4704 | The counting loop reaches the state of the specified repeat |
| BindStream.Parser.ThreadedApply | file.go:4720-4812 | The chain loop reaches the specified outcome |
| BindStream.ParseBinds | file.go:4396-4819 | The parser over bytes ends as the machine over decoded instructions does |
| ThreadedStream.OneEntryMeans | file.go:4705-4812 | A threaded stream with a table of one entry yields exactly what the chain at its segment and offset spells out with that entry |
| BindMeaning.OneBindMeans | file.go:4415-4662 | A stream that sets one bind up field by field, moves on and binds yields that bind with those fields, or fails exactly where it does not fit the image |
| BindMeaning.WeakBindMeans | file.go:4415-4662 | The same for a weak bind, which has no ordinal of its own |
| BindMeaning.LazyBindMeans | file.go:4415-4662 | The same for a lazy bind, which DONE does not end |
| BindMeaning.OrdinalsMean | file.go:4429-4461 | Special ordinals are zero or negative, long ones must fit a signed 64-bit integer, and weak streams take none |
| BindMeaning.StepsMean | file.go:4519-4704 | Every accepted bind instruction emits the number of binds, at the distance, and moves by the amount listed for its operands |
| BindMeaning.ThreadingIsRefused | file.go:4705-4735 | A threaded table is declared in an ordinary stream with at most 65535 entries, and chains are refused without one, off arm64e or without a segment |
| BindMeaning.PlainOpcodesAre | file.go:4415-4819 | Which byte is which instruction without operands, and which is none |
| BindMeaning.OperandOpcodesAre | file.go:4415-4819 | Which byte is which instruction with operands, and how they are read |
| SwiftContext.GetContextDescChain | swift.go:2762-2852 | The recursion terminates on any metadata graph and gives the specified answer and cursor position |
| SwiftContext.ReadContextAt | swift.go:2793-2852 | The same from the seek on |
| SwiftContext.StartDoesNotMatter | swift.go:2768-2852 | A lookup answers the same from every start, and either no start is moved or all end at one position |
| SwiftContext.ParentIsDottedPath | swift.go:2819-2839 | On success Parent is the dot-join of the ancestors' non-empty names, outermost first |
| SwiftContext.GuardsAreExact | swift.go:2819-2826 | The cycle and depth checks stop a lookup exactly if its parents would not be resolved within the depth limit, and a reported cycle is one: without the checks the lookup would never end |
| SwiftContext.CycleReportedExactly | swift.go:2819-2826 | A lookup reports a cycle if and only if some descriptor comes up a second time among the first depth limit plus one with a parent, and reports too deep a chain if and only if there are that many and none does |
| SwiftContext.LongCycleIsTooDeep | safealloc.go:30-33 | A world whose parents form a cycle of 2^61 descriptors, reported as too deep |
| SwiftContext.RevisitNeverEnds | swift.go:2820-2822 | A descriptor that is its own ancestor makes the unchecked recursion endless |
| SwiftContext.AncestryIsBounded | safealloc.go:30-33 | A successful lookup passes through at most the depth limit plus one contexts |
| SwiftLayout.DescriptorFound | swift.go:2811-2850 | A descriptor of three little-endian words in the data is found with its flags, its parent's name, and, if it is of one of the five named kinds and its third word is not zero, the C string at its address plus 8 plus that signed word; else without a name |
| SwiftLayout.AddressLeads | swift.go:2771-2791 | Address zero is the empty context, an even one a descriptor, an odd one a pointer to it or else a bind |
| SwiftLayout.FallbackNames | swift.go:2793-2817 | Where a descriptor cannot be reached the context is named by the bind at its address, or else by the symbol; where it cannot be read, by the bind alone |
| SwiftLayout.FamilyFound | swift.go:2819-2850 | A line of laid-out descriptors, each the parent of the next, gives the last one's name and the dotted names of those outside it |
| SwiftLayout.ClassNameIsRead | types/swift/type_mod.go:23-33 | A class descriptor at 0x4000 with third word 8 is named by the string at 0x4010 |
| SwiftMemo.ReplayableExactly | swift_ctxmemo.go:25-32 | Some entry replays a lookup for every cursor if and only if the lookup succeeds and moves some cursor; the only unmoved start is its end |
| SwiftMemo.MovedReplays | swift_ctxmemo.go:100-115 | What is remembered, a success that moved its cursor, replays on every cursor |
| SwiftMemo.RememberingKeepsValid | swift_ctxmemo.go:106-117 | Storing keeps every entry replayable |
| SwiftMemo.NothingOutlivesItsScope | swift_ctxmemo.go:53-63 | With no scope open the memo is valid in any world |
| SwiftMemo.MemoIsUsedExactly | swift_ctxmemo.go:68-99 | The memo is consulted exactly inside a scope, in library code and without caller code, and replays exactly what it holds |
| SwiftMemo.ScopesAreCounted | swift_ctxmemo.go:52-63 | Over any sequence of scopes opened and closed the depth is the number still open, and the entries last exactly until none is |
| SwiftMemo.File.OpenScope | swift_ctxmemo.go:52-55 | Opening counts one more scope and keeps the entries |
| SwiftMemo.File.CloseScope | swift_ctxmemo.go:56-62 | The last scope to close leaves no entries |
| SwiftMemo.File.ChangeWorld | swift_ctxmemo.go:17-22 | Outside every scope what lookups depend on may change, and the memo stays sound |
| SwiftMemo.File.GetContextDesc | swift_ctxmemo.go:81-118 | The answer and the cursor's end are those of the uncached lookup, and the memo is what the two critical sections make of it |
| SwiftMemo.Session.Handle | swift_ctxmemo.go:52-118 | One scope, seek, lookup or change of the world on the real structures changes world, scope depth and cursor positions, and answers, as if lookups were uncached |
| SwiftMemo.Session.Serve | swift_ctxmemo.go:53-118 | Over every sequence of them the log of answers with their worlds, start and end positions, and the final world, scope depth and cursor positions, are those of the run in which every lookup is uncached |
| SwiftMemo.EveryAnswerIsUncached | swift_ctxmemo.go:53-118 | Over every interleaving of scopes, lookups through any cursors and world changes between parsing calls, every answer and end position is the uncached one |
| SwiftMemo.UninterruptedLookup | swift_ctxmemo.go:81-118 | In that system of steps an uninterrupted lookup changes memo and cursor as the method does |
| SwiftMemo.NextAskIsReplayed | swift_ctxmemo.go:81-97 | After one that moved its cursor inside a scope, any other library cursor is answered at once |
| SwiftMemo.RememberedIsReplayed | swift_ctxmemo.go:81-97 | Within a scope a remembered lookup is replayed, whatever is remembered after it |
| StringPool.NamePool.Intern | export.go:1267-1283 | A known name keeps its offset, a new one is appended with a NUL, a pool that would pass uint32 is refused unchanged |
| StringPool.NamePool.Align | export.go:1728-1731 | The loop pads to the next multiple of the pointer size, and no further, and moves no name |
| StringPool.PadsToPointer | export.go:1728-1731 | The padding is zeros up to the next multiple of 8 bytes in a 64-bit file, of 4 in a 32-bit one |
| StringPool.InterningKeeps | export.go:1267-1283 | Interning keeps every earlier name at its offset and offsets distinct |
| StringPool.InterningSucceedsExactly | export.go:1267-1283 | A list of names can be interned exactly if its distinct names fit, and each is then stored once, at its first occurrence |
| StringPool.PoolReadsBack | file.go:1756-1762 | After any interning and padding an offset reads back as its name up to the first NUL, exactly the name if and only if it has none; equal names share an offset and distinct ones never do |
| SymbolTable.OrderIsStablePartition | export.go:1601-1662 | The new order is a permutation of the inputs, its three ranges are exactly the classes, and within a class the input order stays |
| SymbolTable.KeptIndexHoldsSameSymbol | export.go:1613-1683 | Exactly the old indices that are not redacted are mapped, each to the one slot that holds its symbol |
| SymbolMeaning.ClassIsInBits | types/nlist.go:106-124 | A symbol is local exactly if N_EXT is clear, undefined exactly if N_EXT is set and the three N_TYPE bits are clear, indirect exactly if those are 101 |
| SymbolMeaning.ClassesOfCommonTypes | types/nlist.go:106-124 | Types 0x0E, 0x0F, 0x01 and 0x0B are local, defined, undefined and defined |
| SymbolMeaning.SentinelIsTopBits | export.go:1319-1340 | An indirect entry is a sentinel exactly if one of its two top bits is set |
| SymbolMeaning.WidthLosesNothing | export.go:1285-1317 | A table is refused exactly where a pointer-wide value would not be the symbol's, an indirect symbol has no target or the names pass uint32; a written one loses nothing to its width |
| SymbolMeaning.EntriesStand | export.go:1604-1662 | The collected entries are the extra locals, the symbols that are not redacted with their old indices, and one indirect symbol of type 0x0B per re-export, each at its place |
| SymbolMeaning.ReExportIsWritten | export.go:1643-1662 | Where the names leave room for a pointer every re-export has a record among the external definitions that reads back with its name and the name it stands for |
| SymbolTable.RemapIndirectSymbols | export.go:1319-1340 | The loop succeeds if and only if every entry can be remapped, and then remaps each |
| SymbolTable.RemapKeepsTargets | export.go:1319-1340 | For tables of any size: failure comes exactly from removed or absent symbols and new indices that reach the sentinel bits; a remapped entry is an unchanged sentinel or names the same symbol if and only if its slot fits 32 bits, as it does in tables of at most 2^32 symbols |
| SymbolTable.TableReadsBack | file.go:1594-1645 | A written record reads back as its symbol, an indirect one with its target's name |
| SymbolTable.PaddedTableReadsBack | file.go:1594-1645 | Every record of a rebuilt table reads back if its distinct names leave room for a pointer below 4 GiB |
| SymbolTable.RecordsReadBackExactly | file.go:498-501 | The records, with their names and targets, read back if and only if the distinct names leave that room, or no symbol has a name or target before its first NUL |
| SymbolTable.FullPoolLosesName | file.go:1618-1619 | A symbol with a name of 2^32 - 3 bytes fills the pool to 4 GiB and loses its name |
| SymbolRebuild.SymbolWriter.Write | export.go:1285-1317 | A record is written if and only if the table with it can be written, and refers to its names in the pool |
| SymbolRebuild.SymbolWriter.WriteSym | export.go:1673-1683 | The same, and the old index is then mapped to the slot just written |
| SymbolRebuild.Buckets.Collect | export.go:1604-1662 | The three buckets are the classes of the collected entries, in order |
| SymbolRebuild.WriteAll | export.go:1684-1698 | Locals, external definitions and undefined symbols are written in that order, or the table cannot be written |
| SymbolRebuild.Serialize | export.go:1668-1735 | Records, indirect table and padded pool of the new symbol table |
| SymbolRebuild.SymbolCommands.OptimizeSymbols | export.go:1598-1758 | The commands get the ranges of the three classes, wrapped as uint32, and nothing changes on failure |
| SymbolRebuild.RebuiltFileKeepsSymbols | export.go:1598-1758 | The rebuild fails exactly on unwritable entries, a full pool or unmappable entries; read through the new file, where the names leave room for a pointer below 4 GiB, each indirect entry is its sentinel or, its slot fitting 32 bits, leads to a record of the symbol it led to before |
| SegmentMap.PageAlignIsLeast | export.go:79-84 | The least multiple of the page size at or above the offset, away from the top of uint64 |
| SegmentMap.BuildEntries | export.go:184-215 | The loop builds the map in load-command order, __LINKEDIT unpadded when it is last |
| SegmentMap.SizeIsPadded | export.go:190-203 | A final __LINKEDIT keeps its size; any other segment gets the least multiple of the page size that holds it |
| SegmentMap.StartsAscend | export.go:184-215 | New ranges follow one another without overlap, and without gap |
| SegmentMap.LookupFindsOwnEntry | export.go:70-77 | With distinct names every segment finds its own entry, however the map was sorted |
| SegmentMap.RemapInside | export.go:52-59 | Strictly inside an old range an offset moves with that range |
| SegmentMap.RemapInOrderExactly | export.go:52-59 | In a file laid out in load-command order, a segment's first byte is remapped to its new start exactly if no segment ending there has a size off the page grid |
| SegmentMap.RemapAtSharedStart | export.go:52-59 | In any layout, where a segment ends at the start of another, that start is remapped rightly exactly if the first has a size on the page grid and comes before the second with only empty segments between them |
| SegmentMap.RemapAtStartExactly | export.go:52-59 | In any layout and for any sorted order of the map: that condition where a segment ends at the start; otherwise, that the segment listed first of those starting there, if it is another one, comes before it with only empty segments from it on |
| SegmentMap.RemapMissesStart | export.go:52-59 | Two adjacent segments for which the start of the second is missed |
| SegmentMap.EmptySegmentMovesStart | export.go:52-59 | An empty segment with file offset zero behind __TEXT, listed first by the sort, takes the file's first byte to the end of __TEXT |
| SegmentMap.RemapSegIsExact | export.go:61-68 | By name the translation holds at every offset of the segment, both ends included |
| SegmentMap.MemszKeepsZeroFill | export.go:893-902 | Memory sizes keep the zero-filled part: the larger of file and old memory size unless the file part shrank |
| SegmentExport.TextSegmentFirstSectionRelOff | export.go:96-122 | The first section of __TEXT that has file data, with its error cases |
| SegmentExport.FirstSectionExactly | export.go:96-122 | It is found if and only if the first nonzero offset among the sections is at that distance from the segment, or there are only zero ones |
| SegmentExport.TextDataStartExactly | export.go:164-174 | The data of `__TEXT` is written from the first section or from the end of the load commands, whichever comes later, and not at all if that is behind it |
| SegmentExport.Sort | export.go:217 | A permutation sorted by old start |
| SegmentExport.Image.OptimizeSegments | export.go:904-921 | Every segment gets its new offset and sizes in place, or the export fails |
| SegmentExport.Image.OptimizeLinks | export.go:941-1180 | Every file offset in the other load commands is remapped in place, with the width and the treatment of zero its command has, or the export fails |
| ExportedBytes.LinksFoundExactly | export.go:941-1180 | They can all be remapped exactly if each lies in some segment's old range or is a zero its command leaves alone |
| ExportedBytes.LinkFindsByte | export.go:941-1180 | A load command's offset strictly inside an old range leads to the same byte in the output if and only if its field can hold the new offset |
| SegmentExport.Image.WriteOut | export.go:351-412 | The write loop produces the specified output |
| SegmentExport.Image.Export | export.go:176-412 | The parts together, for some sorted order of the map |
| ExportedBytes.RelaidAllIs | export.go:904-921 | Segments get consecutive slots; memory sizes never shrink |
| ExportedBytes.ExportPlacesSegments | export.go:164-412 | Success exactly if the sections of __TEXT are in order, the load commands' offsets lie in segments, they leave room in __TEXT and the data is there; the output then is header, zeros, and each segment's bytes at its new place followed by zeros, as long as the last new end |
| ExportedBytes.ExportEndsWithLinkedit | export.go:199-201 | A final non-empty __LINKEDIT ends the output: its last byte is the last byte |
| ExportedBytes.RemapFindsByte | export.go:52-59 | For every offset strictly inside an old range and outside the replaced start of __TEXT, Remap gives where that byte is in the output |
| Relocations.WordsRoundTrip | types/section.go:579-610 | Every word pair is the encoding of the record it decodes to, in both byte orders |
| Relocations.LittleFields | types/section.go:579-610 | Where each field of a plain record stands in its words in little-endian files |
| Relocations.BigFields | types/section.go:579-610 | The same in big-endian files |
| Relocations.ScatteredFields | types/section.go:579-610 | The same for scattered records |
| Relocations.RecordRoundTripExactly | types/section.go:579-610 | A record survives encoding exactly if its fields fit their bits |
| Relocations.TableRoundTrip | types/section.go:579-610 | Any relocation table, decoded and encoded again, is the same bytes |
| Relocations.RecordsRoundTripExactly | types/section.go:579-610 | A list of records survives exactly if all are well formed, whatever bytes follow |
| Relocations.PutRelocs | types/section.go:579-610 | The table is written at the start of the buffer and the rest is left alone |
| Relocations.PushSection | file.go:1658-1710 | The section decoder fills in the table's records, or reports missing data |
| Relocations.ParseRelocations | file.go:1713-1754 | The second decoder gives the same records of the same bytes, and fails on a short table |
| Relocations.TableOfSlice | file.go:1658-1754 | The records of a table are the same whether a decoder is given just its bytes or the file from there on |
| Relocations.DecodersAgree | file.go:1658-1754 | Both decoders, given one table, return equal records, those of the table |

## Left out

- Input and output, compression and DWARF: a file is an immutable byte sequence; the header and load commands an export writes are a given byte string.
- Load-command parsing and printing: field copying.
- Code signing, Objective-C and Swift record decoding other than context descriptors, demangling and the stripping of underscores in `parseSymtab` and `parseBinds`: names are opaque.
- Error texts.
- In-cache export, and the new file offsets of sections, which fall back to addresses instead of failing.
- Serialization of nlist records: symbol records stay records, as do the pool offsets in them.
- Unicode's folding table: simple folding is a function parameter with the laws `CaseFold.Lawful` states; `strings.EqualFold` is represented by equality under that folding.
- `decodeFixup`, address conversion, bind names and C strings of Swift lookups: deterministic function parameters.
- Locks: each locked section is one atomic step.
- `ReadExport` and `ParseTrieExports` payloads, `FindAddressSymbols` and the bind index.
- SymbolIndex.Client.Serve: the export list is fixed for a given source; edits inside the list that `DyldExports` hands out are not modelled.
- ExportedBytes.ExportPlacesSegments: it asks for distinct names, `__TEXT` first among the file-backed segments and sizes that do not wrap; other layouts are covered by the write-loop specification alone.
- Relocations: byte orders other than the two the format has.
