# isha-vector-db in Dafny

A model of the parts of isha-vector-db whose promises no finite set of examples can settle,
with proofs of those promises for all inputs, all graphs and all runs:

- **HNSW graph index**: the beam search and its generation-stamped visited set, insertion,
  pruning, extension, search with its exact-scan fallback, snapshots, and the lock-guarded
  `prepare` shared by concurrent threads.
- **Metadata codec**: varints, the bounded cursor, the recursive value encoder, decoder and
  skipper, and the lazy `find_path` with its binary search over an on-disk offset table.
- **Checksums and blocks**: CRC-32C as a table and as a bit-by-bit register, the block header,
  payload and trailer.
- **Crash protocols**: the write-ahead log and the dual-slot manifest, as state machines in
  which a process may die, power may fail, and a write may be cut at any byte.
- **Segments**: the vector, directory, metadata and tombstone files.
- **Filter compiler**: the query-object compiler of the React Native SDK, the postfix stack
  machine behind the C ABI, and the tree the Node binding builds from the same object.

Code that computes values is functions; code that works by steps is methods and classes whose
postconditions equate them with those functions. `dafny verify dfyconfig.toml` checks it all.

## How to read it

Each area has a module of specification functions and lemmas, and a module of imperative code
proved against it: `Beam`/`SearchLayer`, `GraphSpec`+`GraphInvariant`/`GraphBuild`,
`Snapshot`/`SnapshotIO`, `ValueRead`+`ValueWrite`+`ValueSkip`+`ValueLax`/`ValueCode`+`ValueEmit`+`FindPath`,
`Wal`+`WalTorn`+`WalUnits`+`WalCrash`/`WalCode`+`WalWriter`,
`Manifest`+`ManifestSlots`/`ManifestCode`+`ManifestStore`,
`FilterNode`+`FilterCompile`+`FilterMachine`+`FilterStrict`/`FilterCode`. What those functions mean,
said without them, is in `SearchScores`, `GraphLinks`, `FilterMeaning`, `FilterOrder`, `Characters` and
`Layout`: scores by the kernel, links by the lists, queries by the numbers and texts they compare,
stored files by byte offset. Decoders are specified by lemmas named
`...Exactly`: the decoder returns a value if and only if the input is that value's encoding.

## Where the code does less than it says

Each of these is a lemma, beside the exact condition under which the promise does hold.

- A batch is all or nothing only while transaction ids are not reused. Every `WalWriter` starts
  again at id 1 (`crates/isha-vector-db-core/src/persistence/wal.rs:55`), and `committed` looks for a commit record
  with the same id anywhere in the log. So: commit a batch, restart, and tear the next batch
  after its first operation; replay applies that one operation. `WalCrash.HalfABatch` is such a
  run, and `WalCrash.SafeGroupExactly` says a batch is safe if and only if its id is on no frame
  in the log.
- The two-slot manifest promises an intact slot after a crash at any instant
  (`crates/isha-vector-db-format/src/manifest.rs:14-16`). A crash inside the very first write leaves none, and loading
  then fails: `ManifestSlots.TornCreation`, with the exact condition in `UnreadableExactly`.
- A commit whose sync fails leaves the process behind the disk: its retry empties the slot a
  scan would choose. No returned commit is lost by it, but the authoritative slot is written:
  `ManifestSlots.TargetIsNeverAuthoritative` says exactly when, and `FailedSyncHappens` gives a run.
- A manifest naming snapshot id `u64::MAX` comes back with that id lowered by one:
  `Manifest.RoundTripExactly`.
- A frame whose checksum matches but whose body ends early is called torn, not corrupt; eight
  zero bytes are one: `Wal.ZeroesReadAsTorn`. `WalTorn.TornExactly` says for any bytes when a
  scan calls the end torn, and `WalTorn.BodyTruncatedExactly` which bodies are the cause. A
  number of ten continuing bytes is reported truncated too, although it begins no encoding:
  `Varint.UnendedExactly`.
- HNSW `search` and `prepare` compare row counts only. When as many rows are replaced by others
  the old graph is used and offers rows the source no longer has: `Search.EqualCountIsNotEnough`,
  `Prepare.ReplacedRowsGoUnnoticed`. One call alone makes the graph fit the source if and only if
  the source has more rows than the graph or is its rows (`Prepare.PrepareFitsExactly`); with
  equal counts every query is offered source rows only if and only if no node a search can come
  to is one the source does not have (`Search.OnlySourceRowsExactly`).
- `skip_value` promises the strictness of a full decode and accepts bytes `decode` refuses, such as
  an infinite float (`FindPath.SkipAcceptsMore`). Decoding succeeds if and only if skipping does
  and what was skipped is strict: `ValueLax.DecodesStrictly`.
- `find_path` finds nothing at the empty path even under an empty key; `FindPath.EmptyPathExactly`
  says where that differs from `get_path`.
- The directory writer casts the heap offset to 32 bits unchecked: `Directory.OpensExactly`.
- The React Native compiler refuses objects that Node accepts; `FilterStrict.CompilesExactly`
  says exactly which.
- `search_layer` returns more than `ef` results if and only if it is given more than `ef` distinct
  nodes as entries: `Beam.BeamGuarantee`.

## Model

| member | source | states |
|---|---|---|
| `Ranking.PushRanked` | crates/isha-vector-db-index-hnsw/src/build.rs:76-122 | inserting into a ranked frontier or result heap keeps it ranked and holds exactly the old candidates and the new one |
| `Beam.BeamGuarantee` | crates/isha-vector-db-index-hnsw/src/build.rs:386-443 | on every layer, entry list and width: results are distinct, reachable, truly scored and best first; each neighbour of a result is a result or no better than the worst; fewer than `ef` results are exactly the reachable set; more than `ef` exactly when more than `ef` distinct nodes are entries |
| `SearchLayer.Visited.Begin` | crates/isha-vector-db-index-hnsw/src/build.rs:46-61 | after it nothing counts as seen, whatever the buffer held, generation wraparound included |
| `SearchLayer.Visited.See` | crates/isha-vector-db-index-hnsw/src/build.rs:63-73 | answers whether the node was seen in this search, and adds it to the seen set and no other |
| `SearchLayer.Run` | crates/isha-vector-db-index-hnsw/src/build.rs:386-443 | the two-heap loop returns `Beam.Search`, so its answer does not depend on the visited buffer's history |
| `GraphSpec.ClimbToLocalMaximum` | crates/isha-vector-db-index-hnsw/src/search.rs:71-96 | the greedy climb ends at a node no neighbour beats, scoring no worse than where it began |
| `Selection.SelectFills` | crates/isha-vector-db-index-hnsw/src/build.rs:348-383 | selection keeps distinct candidates and falls short of the quota only by keeping all of them |
| `Selection.DiverseSpreads` | crates/isha-vector-db-index-hnsw/src/build.rs:348-383 | every kept candidate is closer to the query than to any kept before it, and one is left out only when a kept one is closer to it or the quota is met |
| `GraphLinks.NearestIsKept` | crates/isha-vector-db-index-hnsw/src/build.rs:348-383 | with a positive quota the nearest candidate is always kept |
| `GraphLinks.FillsNearestFirst` | crates/isha-vector-db-index-hnsw/src/build.rs:373-381 | when a slot is filled from the candidates passed over, no nearer one passed over is left out |
| `GraphInvariant.PushNodeOk` | crates/isha-vector-db-index-hnsw/src/graph.rs:75-105 | a new node gets one empty list on every layer and touches no edge, and every existing list stays as it was |
| `GraphInvariant.PruneOk` | crates/isha-vector-db-index-hnsw/src/build.rs:317-342 | pruning brings an overfull list within the cap and keeps lists free of self and duplicate edges |
| `GraphInvariant.LinkAllOk` | crates/isha-vector-db-index-hnsw/src/build.rs:256-284 | linking a node both ways to its chosen neighbours, pruning as it goes, keeps the layer's invariant |
| `GraphInvariant.InsertOk` | crates/isha-vector-db-index-hnsw/src/build.rs:219-291 | insertion gives a graph with one list per node per layer, no self or duplicate edge, degree at most 2m on layer 0 and m above, both ends of an edge high enough, and an entry of maximal level |
| `GraphLinks.DegreesBounded` | crates/isha-vector-db-index-hnsw/src/params.rs:51-53 | the degrees said in numbers: at most 2m on layer 0 and m above |
| `GraphLinks.PruneKeepsNearest` | crates/isha-vector-db-index-hnsw/src/build.rs:317-342 | a pruned list begins with the nearest, by the kernel, of the neighbours the node had |
| `GraphLinks.LayerLinked` | crates/isha-vector-db-index-hnsw/src/build.rs:256-284 | on a layer both ends reach, the new node is linked to the nearest of what the beam found there (with m positive) and to no node it did not find; each lists it back or is full; every other list stays as it was |
| `GraphLinks.DescentLands` | crates/isha-vector-db-index-hnsw/src/build.rs:236-254 | the descent before linking ends at a node present on the first layer linked |
| `GraphLinks.InsertLinks` | crates/isha-vector-db-index-hnsw/src/build.rs:219-291 | insertion does that on every layer from the lower of the new node's and the entry's levels down to 0, from where the descent by the kernel lands; it changes no layer above, and the entry point moves exactly to a higher node |
| `GraphLinks.EveryoneLinked` | crates/isha-vector-db-index-hnsw/src/build.rs:181-291 | in every graph built with m positive over more than one row, every node has a neighbour on layer 0 |
| `GraphInvariant.Build` | crates/isha-vector-db-index-hnsw/src/build.rs:181-204 | every graph built from rows satisfies that invariant and covers exactly those rows in order |
| `GraphInvariant.Extend` | crates/isha-vector-db-index-hnsw/src/build.rs:162-179 | extending keeps the invariant and appends exactly the new rows |
| `GraphInvariant.ExtendIsRebuild` | crates/isha-vector-db-index-hnsw/src/build.rs:156-204 | extending what was built from A with B is building from A followed by B |
| `GraphBuild.HnswGraph.PushNode` | crates/isha-vector-db-index-hnsw/src/graph.rs:75-105 | grows every per-node array and layer as the specification says |
| `GraphBuild.HnswGraph.Insert` | crates/isha-vector-db-index-hnsw/src/build.rs:219-291 | descent, beam, linking, pruning and the entry update together compute the specified insertion, for any visited buffer |
| `GraphBuild.HnswGraph.Connect` | crates/isha-vector-db-index-hnsw/src/build.rs:293-315 | adds one directed edge unless it is there already |
| `GraphBuild.HnswGraph.Prune` | crates/isha-vector-db-index-hnsw/src/build.rs:317-342 | replaces an overfull list by the selected neighbours |
| `GraphBuild.HnswGraph.Extend` | crates/isha-vector-db-index-hnsw/src/build.rs:162-179 | the object ends as the specified extension of what it was |
| `GraphBuild.SelectNeighbours` | crates/isha-vector-db-index-hnsw/src/build.rs:348-383 | the two loops compute the specified selection |
| `GraphBuild.BuildFrom` | crates/isha-vector-db-index-hnsw/src/build.rs:181-204 | the built object is the specified graph, hence invariant |
| `Search.ScanExact` | crates/isha-vector-db-index-flat/src/lib.rs:116-139 | the exact scan offers each admissible row once, under its own score, and no other |
| `SearchScores.FoundByKernel` | crates/isha-vector-db-index-hnsw/src/search.rs:68-119 | what descent and beam find is scored by the kernel itself, best first, and a neighbour of a found row is found or scores no better than the worst found |
| `SearchScores.StartByKernel` | crates/isha-vector-db-index-hnsw/src/search.rs:71-96 | the beam starts from a node no neighbour on the layers above beats by the kernel |
| `SearchScores.EnoughFound` | crates/isha-vector-db-index-hnsw/src/search.rs:97-119 | with fewer found than the width asked for, everything reachable is found |
| `SearchScores.AnswersInFull` | crates/isha-vector-db-index-hnsw/src/search.rs:50-153 | the graph answers only a query of its metric, dimension and row count, and nothing found and admissible is withheld; otherwise every admissible row of the source is offered |
| `SearchScores.OffersByKernel` | crates/isha-vector-db-index-hnsw/src/search.rs:121-153 | every offer is a row of the graph, or of the source after fallback, under its own kernel score; offers from the graph come in non-increasing score |
| `Search.NeverTooFew` | crates/isha-vector-db-index-hnsw/src/search.rs:37-164 | when equal row counts mean equal rows, a search offers only admissible rows, each once, at least `top_k` of them or else all, however fragmented the graph |
| `Search.OnlySourceRowsExactly` | crates/isha-vector-db-index-hnsw/src/search.rs:50-67 | with as many rows in graph and source, every query is offered source rows only if and only if no node reachable on layer 0 from where some descent lands is a row the source does not have |
| `Search.EqualCountIsNotEnough` | crates/isha-vector-db-index-hnsw/src/graph.rs:151-153 | without that condition some graph and query offer a row the source does not hold |
| `Search.DescendCharged` | crates/isha-vector-db-index-hnsw/src/search.rs:71-96 | the charged descent reaches the specified node having charged or kept to charge one for each neighbour scored, and gives up only when more has been scanned than the ceiling allows |
| `Search.AdmitAll` | crates/isha-vector-db-index-hnsw/src/search.rs:121-134 | the admission loop yields the specified offers exactly when every found row can be read, and the fetch error otherwise |
| `Search.Traverse` | crates/isha-vector-db-index-hnsw/src/search.rs:68-119 | descent and beam give the specified candidates and charge one for each score of the descent and each node found; they give up exactly when that exceeds the ceiling |
| `Search.ExactScan` | crates/isha-vector-db-core/src/index/mod.rs:415-437 | the scan loop adds exactly the specified offers, and succeeds exactly when every row can be read and the rows scored fit the ceiling |
| `Search.Run` | crates/isha-vector-db-index-hnsw/src/search.rs:37-164 | a search that succeeds adds exactly the specified answer, by beam or by fallback; it succeeds if and only if every row it looks at can be read and all it is charged, descent, beam and scan, fits the ceiling |
| `Snapshot.RestoredIsSane` | crates/isha-vector-db-index-hnsw/src/snapshot.rs:127-247 | whatever the bytes, a restored graph has every neighbour and entry in range, one list per node per layer, and exactly the source's rows |
| `Snapshot.RestoresSaved` | crates/isha-vector-db-index-hnsw/src/snapshot.rs:44-80 | a saved graph is restored against rows with the same ids in the same order, as itself, and against no others |
| `SnapshotIO.Encode` | crates/isha-vector-db-index-hnsw/src/snapshot.rs:44-80 | the nested loops write the specified bytes |
| `SnapshotIO.Decode` | crates/isha-vector-db-index-hnsw/src/snapshot.rs:127-247 | the cursor loops compute the specified restore |
| `Prepare.StepOk` | crates/isha-vector-db-index-hnsw/src/lib.rs:120-210 | every atomic step of every thread keeps the shared graph and all saved snapshots exactly what building over their rows gives, and never loses rows |
| `Prepare.EveryRun` | crates/isha-vector-db-index-hnsw/src/lib.rs:120-210 | over every interleaving of `prepare` calls the shared graph equals `build_from` over its rows, and the rows covered never decrease |
| `Prepare.RestoreIsBuild` | crates/isha-vector-db-index-hnsw/src/lib.rs:142-152 | a graph restored from a stored snapshot is what building over the source gives |
| `Prepare.RestoreUsed` | crates/isha-vector-db-index-hnsw/src/lib.rs:142-152 | a snapshot of a built graph is restored, as that graph, if and only if its rows are the source's |
| `Prepare.ExtendIsBuild` | crates/isha-vector-db-index-hnsw/src/lib.rs:158-178 | extending in place a graph whose rows begin the source is rebuilding over the source |
| `Prepare.PrepareFitsExactly` | crates/isha-vector-db-index-hnsw/src/lib.rs:120-210 | from any state of the protocol, one call alone leaves the graph covering exactly the source's rows if and only if the source has more rows than the graph or is its rows already |
| `Prepare.ReplacedRowsGoUnnoticed` | crates/isha-vector-db-index-hnsw/src/lib.rs:202-208 | a run after which a search over the new rows offers an old one |
| `Crc32c.TableIsBitwise` | crates/isha-vector-db-format/src/crc32c.rs:20-43 | a table lookup and shift is eight steps of the bit-by-bit register |
| `Crc32c.PolyIsCastagnoli` | crates/isha-vector-db-format/src/crc32c.rs:13-14 | bit i of the constant is set exactly when 31 - i is an exponent of the Castagnoli polynomial |
| `Crc32c.UpdateIsBitwise` | crates/isha-vector-db-format/src/crc32c.rs:70-86 | for messages of every length the table-driven register is the bit-by-bit one |
| `Crc32c.Incremental` | crates/isha-vector-db-format/src/crc32c.rs:64-68 | resuming a finished checksum over more data is the checksum of the whole |
| `Crc32c.BurstDetected` | crates/isha-vector-db-format/src/crc32c.rs:70-92 | an error within 32 consecutive bits, anywhere in any message, changes the register |
| `Crc32c.FourBytesDetected` | crates/isha-vector-db-format/src/crc32c.rs:46-92 | an error within four consecutive bytes changes the checksum |
| `Crc32c.NearMissDetected` | crates/isha-vector-db-format/src/block.rs:106-133 | data and stored checksum damaged within four consecutive bytes, even across their boundary, no longer match |
| `Crc32c.BuildTable` | crates/isha-vector-db-format/src/crc32c.rs:20-43 | the nested loops fill the table with eight steps of each index |
| `Crc32c.Update` | crates/isha-vector-db-format/src/crc32c.rs:70-86 | the byte loop computes the specified register |
| `Varint.DecodeExactly` | crates/isha-vector-db-format/src/varint.rs:59-86 | decoding gives (v, n) if and only if v fits 64 bits and the first n bytes are its minimal encoding |
| `Varint.CutIsTruncated` | crates/isha-vector-db-format/src/varint.rs:59-86 | every strict prefix of an encoding is reported truncated |
| `Varint.TruncatedExactly` | crates/isha-vector-db-format/src/varint.rs:59-86 | truncation is reported exactly on up to ten continuing bytes, the tenth carrying at most one bit |
| `Varint.UnendedExactly` | crates/isha-vector-db-format/src/varint.rs:59-86 | fewer than ten of those are exactly the strict prefixes of encodings |
| `Varint.EncodedLenAgrees` | crates/isha-vector-db-format/src/varint.rs:26-35 | the computed length is the encoding's length |
| `Varint.ZigzagBijective` | crates/isha-vector-db-format/src/varint.rs:89-97 | zigzag and its inverse are a bijection between 64-bit signed and unsigned numbers |
| `Varint.ZigzagIsShiftXor` | crates/isha-vector-db-format/src/varint.rs:89-97 | the shifts and exclusive ors on 64-bit two's complement compute zigzag and its inverse |
| `Varint.EncodeU64` | crates/isha-vector-db-format/src/varint.rs:37-52 | the loop appends the specified encoding |
| `Varint.DecodeU64` | crates/isha-vector-db-format/src/varint.rs:59-86 | the loop computes the specified decoding, errors included |
| `Cursor.UintExactly` | crates/isha-vector-db-format/src/cursor.rs:125-167 | a fixed-width read succeeds exactly on that number's little-endian bytes |
| `Cursor.BlobExactly` | crates/isha-vector-db-format/src/cursor.rs:238-246 | a length-prefixed read succeeds exactly on that string's encoding |
| `Cursor.StringExactly` | crates/isha-vector-db-format/src/cursor.rs:248-258 | the same for strings, which must be UTF-8 |
| `Characters.Utf8Exactly` | crates/isha-vector-db-format/src/cursor.rs:244-255 | the text test passes exactly on encodings of sequences of Unicode scalar values |
| `Cursor.ReservedExactly` | crates/isha-vector-db-format/src/cursor.rs:265-275 | reserved space reads exactly when it is zero |
| `Cursor.CountReads` | crates/isha-vector-db-format/src/value.rs:564-579 | a count is read exactly when it is there and what is left could hold that many items |
| `Cursor.Reader.TakeVarint` | crates/isha-vector-db-format/src/cursor.rs:206-228 | the object reads what the function reads and stops where it stops |
| `Cursor.Writer.PutBlob` | crates/isha-vector-db-format/src/cursor.rs:402-404 | appends a string behind its length and changes nothing else |
| `ValueRead.DecodesExactly` | crates/isha-vector-db-format/src/value.rs:239-373 | bytes decode to a value if and only if they are the encoding of a legal tree holding it |
| `ValueRead.BytesDetermineTree` | crates/isha-vector-db-format/src/value.rs:254-373 | two legal trees with the same bytes are the same tree |
| `ValueWrite.RoundTrip` | crates/isha-vector-db-format/src/value.rs:138-231 | encoding succeeds exactly on values within the depth limit with finite floats, and decoding then gives the value back |
| `ValueWrite.Reencode` | crates/isha-vector-db-format/src/value.rs:138-373 | accepted bytes re-encode to a form of the same value, and to themselves if and only if no wide map is under the plain tag |
| `ValueWrite.ShallowIsDepth` | crates/isha-vector-db-format/src/value.rs:124-133 | the limit checked on the way down is the limit on the computed depth |
| `Value.LessExactly` | crates/isha-vector-db-format/src/value.rs:340-361 | one key precedes another exactly when they agree up to where it ends or has the smaller byte |
| `ValueSkip.SkipsWhatDecodes` | crates/isha-vector-db-format/src/value.rs:385-444 | skipping a value that would decode stops where decoding would |
| `ValueLax.SkipsExactly` | crates/isha-vector-db-format/src/value.rs:385-444 | skipping accepts a stretch of bytes exactly when it is the layout of a lax tree within the depth limit |
| `ValueLax.DecodesStrictly` | crates/isha-vector-db-format/src/value.rs:376-444 | decoding succeeds if and only if skipping does and the tree skipped is strict: finite floats, UTF-8 text and keys, ascending keys, and under the indexed tag eight entries and a right table |
| `ValueLax.DecodeIsStrictSkip` | crates/isha-vector-db-format/src/value.rs:239-248 | on whole buffers, decoding accepts exactly the bytes of strict trees among the lax ones skipping accepts |
| `ValueEmit.WriteValue` | crates/isha-vector-db-format/src/value.rs:152-231 | the recursive writer appends exactly the specified bytes, or refuses exactly when it should |
| `ValueEmit.WriteMap` | crates/isha-vector-db-format/src/value.rs:196-229 | a narrow map goes straight out, a wide one through a scratch buffer and behind its offset table when that fits 16 bits |
| `ValueCode.ReadValue` | crates/isha-vector-db-format/src/value.rs:254-373 | the recursive reader returns the specified value or error and stops where it should |
| `ValueCode.ReadMap` | crates/isha-vector-db-format/src/value.rs:287-365 | the entry loop checks key order and every table offset as specified |
| `ValueCode.DecodeValue` | crates/isha-vector-db-format/src/value.rs:239-248 | the whole-buffer decode, trailing bytes refused |
| `ValueCode.SkipValue` | crates/isha-vector-db-format/src/value.rs:389-444 | the recursive skipper returns the specified end or error |
| `FindPath.Walk` | crates/isha-vector-db-format/src/value.rs:527-558 | the linear walk finds the key exactly when a legal map holds it, leaving the reader at its value |
| `FindPath.Probe` | crates/isha-vector-db-format/src/value.rs:478-525 | the binary search over the offset table finds the key exactly when a legal map holds it |
| `FindPath.Run` | crates/isha-vector-db-format/src/value.rs:457-558 | on every buffer `decode` accepts and every nonempty path the answer is full decoding followed by `get_path` |
| `FindPath.EmptyPathExactly` | crates/isha-vector-db-core/src/metadata.rs:57-67 | at the empty path `get_path` finds something exactly in maps with an empty key |
| `FindPath.SplitsExactly` | crates/isha-vector-db-core/src/metadata.rs:57-58 | the segments of a path are the one list without full stops that joins to it |
| `FindPath.PathDescends` | crates/isha-vector-db-core/src/metadata.rs:57-67 | a path looks its first segment up in a map and the rest in what is there, and finds nothing below anything else |
| `FindPath.GetExactly` | crates/isha-vector-db-core/src/metadata.rs:57-67 | in a map without repeated keys a key answers exactly the value entered with it |
| `FindPath.SkipAcceptsMore` | crates/isha-vector-db-format/src/value.rs:389-444 | some bytes are skipped whole although decoding refuses them |
| `Block.HeaderBack` | crates/isha-vector-db-format/src/header.rs:157-284 | an encoded header decodes to its kind and lengths, whatever follows |
| `Block.BlockBack` | crates/isha-vector-db-format/src/block.rs:20-104 | an encoded block is located, opened and decoded to its payload, whatever follows |
| `Block.CutBlock` | crates/isha-vector-db-format/src/block.rs:32-56 | every strict prefix of a block is reported truncated |
| `Block.DamageDetected` | crates/isha-vector-db-format/src/block.rs:87-133 | damage within four consecutive bytes anywhere, header and trailer included, is rejected |
| `Block.BodyDamage` | crates/isha-vector-db-format/src/block.rs:106-133 | with the header intact such damage is a checksum mismatch |
| `Layout.BlockLayout` | crates/isha-vector-db-format/src/header.rs:8-17 | every field of a block by offset and literal value |
| `Layout.HeaderExactly` | crates/isha-vector-db-format/src/header.rs:210-284 | a header is accepted if and only if its magic, kind, version, flags, length, checksum and reserved bytes are as listed, each in literal values |
| `Layout.BodyLayout` | crates/isha-vector-db-format/src/wal.rs:8-18 | a log frame's body for each operation, by literal code |
| `Layout.ValueLayout` | crates/isha-vector-db-format/src/value.rs:44-59 | the tag byte and body of each kind of value |
| `Layout.Limits` | crates/isha-vector-db-format/src/value.rs:42-68 | the depth, table, frame, level and nesting limits in numbers |
| `Layout.ManifestLayout` | crates/isha-vector-db-format/src/manifest.rs:125-154 | the manifest's fields by offset |
| `Layout.DirectoryLayout` | crates/isha-vector-db-format/src/segment.rs:328-345 | a directory entry's fields by offset |
| `Layout.BitmapLayout` | crates/isha-vector-db-format/src/segment.rs:755-767 | the tombstone file's fields by offset |
| `Layout.VectorLayout` | crates/isha-vector-db-format/src/segment.rs:33-38 | vector data starts at byte 64 |
| `Layout.SnapshotLayout` | crates/isha-vector-db-index-hnsw/src/snapshot.rs:27-66 | a saved graph's header by offset, magic and version included |
| `Layout.FloatLayout` | crates/isha-vector-db-format/src/cursor.rs:168-200 | a float is finite exactly when its bits, the sign aside, are below infinity's |
| `Wal.BodyExactly` | crates/isha-vector-db-format/src/wal.rs:210-262 | a frame body decodes to a frame if and only if it is that frame's body |
| `Wal.FrameExactly` | crates/isha-vector-db-format/src/wal.rs:185-268 | a frame decodes off the front if and only if the front is its encoding |
| `Wal.CutFrame` | crates/isha-vector-db-format/src/wal.rs:185-202 | every strict prefix of a frame is reported truncated |
| `Wal.ScanIsExact` | crates/isha-vector-db-format/src/wal.rs:333-380 | for any bytes the frames found re-encode to exactly the valid prefix, and scanning that prefix again is clean with the same frames |
| `Wal.CutLog` | crates/isha-vector-db-format/src/wal.rs:333-380 | a log of whole frames cut at any byte keeps exactly the frames still whole: clean at a boundary, torn elsewhere, never corrupt |
| `Wal.ZeroesReadAsTorn` | crates/isha-vector-db-format/src/wal.rs:358-367 | eight zero bytes, a present frame with a matching checksum, scan as torn |
| `WalTorn.BodyTruncatedExactly` | crates/isha-vector-db-format/src/wal.rs:210-262 | a body is reported truncated exactly when it is the first pieces of some frame's body and then ends where a number or a code byte is due |
| `WalTorn.TornExactly` | crates/isha-vector-db-format/src/wal.rs:333-380 | for any bytes the log is torn exactly when what follows the valid frames is too short for a frame, or is a whole frame, checksum matching, with such a body |
| `WalCode.AppendTo` | crates/isha-vector-db-format/src/wal.rs:137-178 | appends the frame's encoding, or nothing when the body is too large |
| `WalCode.DecodeAt` | crates/isha-vector-db-format/src/wal.rs:185-268 | the reader computes the specified decoding, errors included |
| `WalCode.ScanAll` | crates/isha-vector-db-format/src/wal.rs:333-380 | the offset loop computes the specified scan |
| `WalCode.CommittedOf` | crates/isha-vector-db-format/src/wal.rs:314-326 | collecting ids and filtering computes the specified committed frames |
| `WalUnits.AllOrNothing` | crates/isha-vector-db-format/src/wal.rs:314-326 | replay applies exactly the standalone operations and whole batches if and only if no leftover operation carries the id of a whole batch |
| `WalUnits.CutFrames` | crates/isha-vector-db-testkit/src/fault.rs:324-337 | cutting the units appended cuts their frames, a batch losing its commit record first |
| `WalCrash.StepOk` | crates/isha-vector-db-core/src/persistence/recovery.rs:43-141 | every append, torn or failed append, sync, death, power loss, partial flush, checkpoint, recovery, and recovery dying before its sync keeps the log a prefix of what was appended, its durable part whole, and sequences rising |
| `WalCrash.RecoveryFinds` | crates/isha-vector-db-core/src/persistence/recovery.rs:43-125 | in every reachable state a scan finds exactly the whole frames appended, in rising sequence, and never corruption |
| `WalCrash.SyncedSurvives` | crates/isha-vector-db-storage-memory/src/lib.rs:92-100 | what the log held at a sync is still at its front after any further steps until a checkpoint |
| `WalCrash.FlushKeeps` | crates/isha-vector-db-storage-memory/src/lib.rs:482-514 | a flush cut at any byte keeps everything synced and nothing that was not appended |
| `WalCrash.AcknowledgedBatchSurvives` | crates/isha-vector-db-core/src/persistence/wal.rs:104-128 | a batch appended and synced is replayed whole after any further steps until a checkpoint |
| `WalCrash.FreshRunsAreAtomic` | crates/isha-vector-db-core/src/persistence/wal.rs:104-128 | in every run that never reuses an id still in the log, replay applies exactly the standalone operations and whole batches |
| `WalCrash.SafeGroupExactly` | crates/isha-vector-db-core/src/persistence/wal.rs:104-128 | a batch leaves replay all or nothing however its append ends, if and only if its id is on no frame in the log |
| `WalCrash.RestartBreaksBatches` | crates/isha-vector-db-core/src/persistence/wal.rs:43-61 | for any two batches, committing one, restarting and tearing the other breaks that |
| `WalCrash.HalfABatch` | crates/isha-vector-db-core/src/persistence/wal.rs:43-61 | a concrete such run of three deletes |
| `Storage.MemoryFile.Truncate` | crates/isha-vector-db-storage-memory/src/lib.rs:490-502 | shrinks or zero-extends the live bytes and leaves the durable ones |
| `Storage.MemoryFile.WriteAt` | crates/isha-vector-db-storage-memory/src/lib.rs:449-480 | overwrites one range, zero-filling any gap, and changes no other byte |
| `WalWriter.WalWriter.Append` | crates/isha-vector-db-core/src/persistence/wal.rs:80-94 | takes exactly the append step; when it succeeds everything is durable under `Full`, and nothing more than before otherwise; it fails exactly when the frame is too large |
| `WalWriter.WalWriter.AppendGroup` | crates/isha-vector-db-core/src/persistence/wal.rs:104-128 | takes exactly the group step: operations and commit record in one write, all of it durable on return under `Full` and `PerBatch` and nothing more than before under `Relaxed`; or only the id spent |
| `WalWriter.Checkpoint` | crates/isha-vector-db-core/src/api/collection.rs:953-966 | the log is emptied and durable so, and the next writer numbers on from the last sequence with batch ids from one, as the checkpoint step says |
| `WalWriter.GroupBytes` | crates/isha-vector-db-core/src/persistence/wal.rs:109-121 | the loop's buffer is the group's frames with the commit record last |
| `WalWriter.Reopen` | crates/isha-vector-db-core/src/api/collection.rs:103-119 | replays the committed frames, cuts a torn tail, and opens a writer as the recovery step says |
| `Manifest.PayloadExactly` | crates/isha-vector-db-format/src/manifest.rs:159-228 | a payload decodes to a manifest if and only if it is that valid manifest's payload |
| `Manifest.ValidExactly` | crates/isha-vector-db-format/src/manifest.rs:259-314 | valid means as many names as collections and none empty, segment ids rising throughout, totals the sums of rows and no smaller than what lives |
| `Manifest.RoundTripExactly` | crates/isha-vector-db-format/src/manifest.rs:125-154 | encoding then decoding gives the manifest back if and only if no snapshot id is the largest 64-bit number |
| `ManifestCode.Validate` | crates/isha-vector-db-format/src/manifest.rs:259-314 | accepts exactly manifests with distinct nonempty names, ascending segments and counts that agree |
| `ManifestCode.EncodeManifest` | crates/isha-vector-db-format/src/manifest.rs:125-154 | the nested loops write the specified bytes, or refuse an invalid manifest |
| `ManifestCode.DecodeManifest` | crates/isha-vector-db-format/src/manifest.rs:159-228 | the nested loops compute the specified decoding, errors included |
| `ManifestSlots.ScanChooses` | crates/isha-vector-db-format/src/manifest.rs:235-257 | with one whole manifest and anything lesser beside it, a scan chooses that one |
| `ManifestSlots.StepOk` | crates/isha-vector-db-core/src/persistence/manifest.rs:92-122 | every storage call of a commit, every failed or torn one, death, power loss and load keeps one slot whole and newest, in live and in durable bytes |
| `ManifestSlots.LastWrittenWins` | crates/isha-vector-db-format/src/manifest.rs:235-257 | in every reachable state a scan chooses the last manifest completely written and not since emptied, no returned commit is lost, and power loss restores exactly the last of those |
| `ManifestSlots.CommitStores` | crates/isha-vector-db-core/src/persistence/manifest.rs:92-122 | after a commit a scan of the live files, and of the durable ones, chooses a manifest with the entries given, up to the snapshot-id limit, the new time, the old identity and the next sequence |
| `ManifestSlots.CreationStores` | crates/isha-vector-db-core/src/persistence/manifest.rs:67-77 | after creation both choose the manifest created |
| `ManifestSlots.TargetIsNeverAuthoritative` | crates/isha-vector-db-format/src/manifest.rs:382-387 | the slot the next commit will empty is `next_slot`, never the authoritative one, if and only if this process's last commit did not fail at its sync |
| `ManifestSlots.RetryEmptiesTheChosen` | crates/isha-vector-db-core/src/persistence/manifest.rs:110-117 | retrying after a failed sync empties the slot a scan would choose and takes the chosen sequence back |
| `ManifestSlots.FailedSyncHappens` | crates/isha-vector-db-core/src/persistence/manifest.rs:88-122 | a run of two commits, the second failing at its sync, whose retry does so |
| `ManifestSlots.CommitSparesTheOther` | crates/isha-vector-db-core/src/persistence/manifest.rs:100-117 | while a commit is under way its target is empty and a scan still chooses the slot it came from |
| `ManifestSlots.SequenceNeverGoesBack` | crates/isha-vector-db-core/src/persistence/manifest.rs:92-98 | the chosen sequence never falls below the last returned commit, and falls at all only by power loss, which returns it exactly there, or by retrying a commit whose sync failed |
| `ManifestSlots.UnreadableExactly` | crates/isha-vector-db-core/src/persistence/manifest.rs:39-51 | loading fails exactly when something is there and no manifest was ever written whole |
| `ManifestSlots.TornCreation` | crates/isha-vector-db-core/src/persistence/manifest.rs:67-77 | creating the database and dying inside the first write leaves it unreadable |
| `ManifestSlots.TieGoesToA` | crates/isha-vector-db-format/src/manifest.rs:239-247 | with equal sequences slot A is chosen, even over a newer slot B |
| `ManifestStore.ScanSlots` | crates/isha-vector-db-format/src/manifest.rs:235-257 | the object-level scan is the specified one |
| `ManifestStore.Store.Write` | crates/isha-vector-db-core/src/persistence/manifest.rs:100-122 | writes and syncs the other slot and adopts it, or changes nothing when the manifest is invalid |
| `ManifestStore.Store.Commit` | crates/isha-vector-db-core/src/persistence/manifest.rs:92-98 | a commit that returns has taken exactly the begin, write and finish steps, and holds the entries given, the new time, the old identity and creation time, and the next sequence |
| `ManifestStore.Load` | crates/isha-vector-db-core/src/persistence/manifest.rs:39-51 | adopts the chosen slot, reports no database for empty slots, and fails exactly on unreadable ones |
| `Vectors.RowsBack` | crates/isha-vector-db-format/src/segment.rs:137-225 | every vector written is read back at its index, and nothing past the last |
| `Vectors.AcceptedRows` | crates/isha-vector-db-format/src/segment.rs:168-225 | any accepted vector file answers for exactly the rows it claims |
| `Vectors.VectorWriter.PushRow` | crates/isha-vector-db-format/src/segment.rs:88-101 | appends a row of the right length, refuses any other; the row counter saturates at 32 bits |
| `Directory.DirectoryBack` | crates/isha-vector-db-format/src/segment.rs:283-468 | a written directory opens and answers every row with its entry and id |
| `Directory.OpensExactly` | crates/isha-vector-db-format/src/segment.rs:328-345 | it opens if and only if the heap's offset fits 32 bits |
| `Directory.AcceptedAnswers` | crates/isha-vector-db-format/src/segment.rs:364-468 | any directory `open` accepts answers the id of every row in range |
| `Directory.DirectoryWriter.PushRow` | crates/isha-vector-db-format/src/segment.rs:283-320 | adds one entry naming where its id begins, or refuses |
| `MetaBlock.RecordBack` | crates/isha-vector-db-format/src/segment.rs:495-545 | an encoded record decodes to itself |
| `MetaBlock.FlagsExactly` | crates/isha-vector-db-format/src/segment.rs:495-545 | the first byte of an accepted record says exactly which parts it has |
| `MetaBlock.MetaWriter.PushRecord` | crates/isha-vector-db-format/src/segment.rs:566-580 | appends a record and says where it landed; an empty one takes no bytes |
| `Segment.SegmentReadsBack` | crates/isha-vector-db-format/src/segment.rs:88-718 | after any successful pushes within the 32-bit offsets, row i reads back through the three files as the i-th vector, id and record |
| `Tombstones.CountIsLiveRows` | crates/isha-vector-db-format/src/segment.rs:813-845 | the popcount is the number of rows that answer live |
| `Tombstones.KillOne` | crates/isha-vector-db-format/src/segment.rs:825-839 | a kill changes exactly its own row and lowers the count by one exactly when it reports a change |
| `Tombstones.AllLiveOk` | crates/isha-vector-db-format/src/segment.rs:739-752 | a fresh bitmap is valid and exactly the rows in range are live |
| `Tombstones.EveryHistory` | crates/isha-vector-db-format/src/segment.rs:737-845 | after any kills the count is the number of live rows, which are those that lived and were not killed |
| `Tombstones.PayloadExactly` | crates/isha-vector-db-format/src/segment.rs:769-810 | bytes are accepted if and only if they are a valid bitmap's, no bit past the last row |
| `Tombstones.RoundTrip` | crates/isha-vector-db-format/src/segment.rs:755-810 | encoding then decoding gives every valid bitmap back |
| `Tombstones.TombstoneMap.KillRow` | crates/isha-vector-db-format/src/segment.rs:825-839 | the object takes the specified kill |
| `Tombstones.TombstoneMap.LiveRows` | crates/isha-vector-db-format/src/segment.rs:842-845 | the summing loop counts the rows that answer live |
| `Filter.NullEquality` | crates/isha-vector-db-core/src/filter/eval.rs:104-135 | on every document equality with null is the null test and inequality its negation |
| `Filter.Membership` | crates/isha-vector-db-core/src/filter/eval.rs:71-80 | membership is a disjunction of equalities and non-membership its negation |
| `FilterOrder.SameIsStructural` | crates/isha-vector-db-core/src/filter/eval.rs:116-148 | where no float is involved equal values are the same value, lists and maps included |
| `FilterOrder.SameIsSymmetric` | crates/isha-vector-db-core/src/filter/eval.rs:116-148 | equality does not depend on which side is the document's |
| `FilterOrder.OrderedExactly` | crates/isha-vector-db-core/src/filter/eval.rs:162-176 | two values have an order exactly when both are numbers, texts, truth values or byte strings |
| `FilterOrder.BelowExactly` | crates/isha-vector-db-core/src/filter/eval.rs:162-176 | the smaller number, `false` under `true`, and the text or bytes smaller at the first difference lie below |
| `FilterOrder.OrderFlips` | crates/isha-vector-db-core/src/filter/eval.rs:162-176 | exchanging the sides reverses the order |
| `FilterOrder.OrderTransitive` | crates/isha-vector-db-core/src/filter/eval.rs:162-176 | the order is transitive away from floats |
| `FilterOrder.ComparisonsFit` | crates/isha-vector-db-core/src/filter/eval.rs:66-69 | for a field that has an order with the value exactly one of below, equal and above matches and the other two comparisons are unions; for any other all four fail |
| `FilterCompile.RunSplit` | crates/isha-vector-db-ffi/src/filter.rs:246-274 | running concatenated steps is running one after the other |
| `FilterCompile.CompareCompiles` | sdk/react-native/src/filter.js:245-287 | a comparison's steps push one filter that means what Node's comparison means |
| `FilterCompile.MembersCompile` | sdk/react-native/src/filter.js:200-214 | the steps of `$in` and `$nin` mean Node's membership filters |
| `FilterCompile.OperatorsCompile` | sdk/react-native/src/filter.js:161-236 | an operator object's steps push one filter per operator, each meaning Node's clause |
| `FilterCompile.ClausesCompile` | sdk/react-native/src/filter.js:98-143 | a filter object's steps push one filter per key on any stack, each meaning Node's clause |
| `FilterCompile.CompilerCorrect` | sdk/react-native/src/filter.js:73-287 | compiling throws, or yields no steps exactly for no filter and the empty one, or yields steps that run without underflow to exactly one filter that Node's tree agrees with on every document |
| `FilterCompile.NamesAgree` | crates/isha-vector-db-node/src/filter.rs:149-205 | the two parsers, each by its own table, read every key and operator name alike |
| `FilterMeaning.ComparisonsMean` | sdk/react-native/src/filter.js:161-236 | against an integer field, `$eq`, `$ne`, `$gt`, `$gte`, `$lt`, `$lte` answer =, ≠, >, ≥, <, ≤, for the filter the steps build and for Node's |
| `FilterMeaning.BareValueMeans` | sdk/react-native/src/filter.js:145-164 | a bare value asks for equality |
| `FilterMeaning.TextComparisonsMean` | sdk/react-native/src/filter.js:161-236 | the same six against a text field, the first difference deciding |
| `FilterMeaning.MembershipMeans` | sdk/react-native/src/filter.js:200-213 | `$in` and `$nin` say whether the field is one of the numbers |
| `FilterMeaning.ExistenceMeans` | sdk/react-native/src/filter.js:214-218 | `$exists` asks for a value, even null, unless its argument is falsy in JavaScript; then for none or null |
| `FilterMeaning.PrefixMeans` | sdk/react-native/src/filter.js:194-199 | `$startsWith` asks for a text beginning so |
| `FilterMeaning.ContainmentMeans` | sdk/react-native/src/filter.js:191-193 | `$contains` asks for a list with that element |
| `FilterMeaning.ListsMean` | sdk/react-native/src/filter.js:98-143 | `$and` matches when every part does and `$or` when one does |
| `FilterMeaning.NegationMeans` | sdk/react-native/src/filter.js:98-143 | `$not` matches when its part does not |
| `FilterMeaning.KeysMean` | sdk/react-native/src/filter.js:98-143 | an object of several keys matches when every key's part does |
| `FilterStrict.CompilesExactly` | crates/isha-vector-db-node/src/filter.rs:42-193 | an object compiles if and only if Node accepts it and it is empty or strict: no empty list, nested filter or operator object, no ordering against null, no non-finite number, plain objects wherever filters nest |
| `FilterStrict.EmptyOrDiffers` | crates/isha-vector-db-node/src/filter.rs:63-64 | an empty disjunction is refused by the compiler and accepted by Node |
| `FilterCode.WalkObject` | sdk/react-native/src/filter.js:98-143 | the walker pushes exactly the specified steps onto the shared list, counts its clauses, and throws exactly when it should |
| `FilterCode.CompileFilter` | sdk/react-native/src/filter.js:73-87 | the compiler returns the specified steps |
| `FilterCode.VdbFilter.PushComparison` | crates/isha-vector-db-ffi/src/filter.rs:84-103 | pushes one comparison or refuses and leaves the stack alone |
| `FilterCode.VdbFilter.PopCombine` | crates/isha-vector-db-ffi/src/filter.rs:246-274 | replaces exactly the top operands by their combination; an unknown combinator loses them |
| `FilterCode.BuildFilter` | sdk/react-native/cpp/vdb_bridge.cpp:101-156 | replays steps onto a builder; no steps is no filter, and any result but exactly one is refused |
| `FilterCode.FilterOf` | sdk/react-native/src/filter.js:73-87 | compiling and replaying together give the engine a filter that agrees with Node's tree on every document |
| `FilterCode.ParseNode` | crates/isha-vector-db-node/src/filter.rs:46-93 | the clause loop builds the specified tree |
| `FilterCode.ParseNodeList` | crates/isha-vector-db-node/src/filter.rs:105-128 | the element loop parses every nested filter in order |
| `FilterCode.ParseOperatorObject` | crates/isha-vector-db-node/src/filter.rs:149-205 | the operator loop builds the specified conjunction |

## Left out

- Distance kernels, SIMD, norms and float rounding: scores are an arbitrary real-valued function of the row, and ties are broken by node number as in the source; float ordering in filters is an arbitrary function.
- Published CRC-32C check values: the polynomial, the bit order and the empty message are pinned, no other message's checksum is evaluated.
- Recall, and reachability of every node from the entry: not guaranteed by the code.
- The real filesystem and web backends, file locks and the lying-sync fault: files are the in-memory backend's live and durable bytes.
- A loss of power that reverts one slot file and keeps an unsynced change of the other: the in-memory backend reverts all files together.
- An append that writes part of its bytes and reports failure while the process lives on: a torn append is a dying process's, as in the fault-injecting backend.
- FFI pointers, JNI, N-API and JSI marshalling, the CLI and benchmarks: no logic of their own.
- `TopK`, the memtable and document ids: a search's offers are the sequence handed to its collector.
- The cancellation flag: only the scan budget is modelled as a reason to stop early.
- Heaps are ranked sequences, and a graph's row ids, vectors and norms are one sequence of rows: the order of elements inside a binary heap is not modelled.
- Error offsets and message text: errors are their kinds.
- Frames, manifests and blocks of 2^64 bytes or more, and counters past 64 bits: log sequence numbers, transaction ids and manifest sequences are assumed not to reach the top of their range.
- The sum of segment rows in manifest validation: not limited to 64 bits.
- Catalog encoding, path validation, document limits, and the node and depth limits the engine checks on a finished filter.
- `undefined` in query objects, on which the compiler and Node differ, and properties inherited from a prototype.
- Doubles in query objects: a number is a whole number, another finite double, or not finite, as both parsers sort it.
- What the Node layer makes of a value that is not a plain object where a filter is expected: an arbitrary function, since the compiler refuses those.
- Memory order inside `prepare`: each lock acquisition is one atomic step.
