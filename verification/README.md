# A verified model of vektordb

vektordb is a small vector database: a memory-mapped vector store, an HNSW graph over it, a write-ahead
log, index snapshots, and optional product quantization, wired together as one `Db` over one directory.
This project models its core in Dafny and proves what its documentation and tests promise, or states
exactly when a promise holds. `dafny verify dfyconfig.toml` checks everything.

What is modelled, bottom up:

* **Bytes, log, snapshot, codebook** (`Bytes`, `Log`, `Persist`, `SnapshotFile`, `Codebook`). Framing and
  parsing on byte sequences, with the file cursor, the reader and the running checksum as classes.
* **Graph, search, insertion** (`Graph`, `Search`, `Select`, `Insertion`, `Structure`, `Linking`, `HnswIndex`,
  `Orphan`). The beam
  search, the greedy descent, the selection heuristic and the insert are specified by functions, about which
  the theorems are proved; the class `Hnsw` rewrites its adjacency lists in place and is proved to compute
  those functions. `Linking` says what an insert does to every list in terms of distances and ids alone.
* **Concurrent inserts and searches** (`Concurrent`, `Race`, `Readers`). One atomic step per access to shared
  state; any interleaving.
* **Store** (`Segments`, `SegmentedArray`, `Store`). Doubling segments over arrays, refining a sequence of rows.
* **Brute force, visited set, kernels, quantizer, k-means** (`Neighbors`, `Exact`, `Scratch`, `Kernels`, `Pq`,
  `KMeans`).
* **Crash recovery** (`Recovery`, `Opening`, `Protocol`, `Safety`, `ExactRecovery`, `Operations`, `Racing`, `Database`,
  `Reopening`).
  `Recovery.Recover` is `Db::open` on the durable bytes; `Opening` says for any disk whatever when it succeeds.
  `Protocol` is a state machine whose steps are what the
  locks make atomic, with a crash between any two of them and after any byte of a frame. `Operations` shows
  that each public operation is a sequence of those steps, `Racing` that the protocol's linking step admits
  whatever the concurrent-insert machine leaves. The class `Db` is the operations' code over the
  store, log and index objects, proved to end in the state `Operations` gives; `Reopening` is `open` on the
  files.

## Scope of the claims

* **Durability.** Every session has the log enabled with `SyncPolicy::Always` and the same options. A crash
  keeps everything written to the mapping, the synced log bytes, and any prefix of the frame in flight. After
  a successful reopen the records recovered count as durable.
* **Numbers.** Distances, kernels and k-means are over `real`. Vector components are 32-bit words in the store
  and the codecs. The replay comparison is `f32` equality on those words: NaN differs from itself, the two
  zeros are equal.
* **Parameters.** The checksum, the distance kernel, the level of an id and the code of a vector under a
  codebook are arbitrary functions, except where a module is about them. Levels are at most 63. Random picks
  are arbitrary. For recovery, `ef_construction` fits the 32 bits the snapshot gives it.
* **Heaps** are represented by their contents in ascending order.
* **Faults** (failed writes, syncs, renames, resets) are arguments of the operations they hit.

## What the proofs found

* Recovery refuses a database that holds an acknowledged vector with a NaN component if the crash comes after
  the store's flush and before the snapshot: the row compares unequal to its own log record
  (`ExactRecovery.NanBreaksRecovery`). This and the next point are the only two causes, for every run
  (`Safety.CrashAnywhereRecovers`).
* Racing inserts, those inside `add_batch` included, can leave an adjacency list over its degree bound, because
  a node's own links are added to whatever back-links have already arrived. Such a graph saves, and then the
  loader refuses the snapshot. `Race.RaceBreaksDegreeBound` has the interleaving, `Racing.RaceBreaksRecovery`
  the whole run from an empty database to an `open` that refuses four acknowledged rows, and
  `Persist.LoadSaved` the exact condition. Sequential inserts never do this (`Structure.BuildInvariants`).
* `save` writes `ef_construction` as 32 bits, so a larger setting comes back reduced modulo 2^32
  (`Persist.LoadSaved`).
* The log accepts a record with LSN 2^64 - 1 and then refuses to open, for lack of a next LSN
  (`Log.LastLsnIsLost`, and `Log.WrittenLogOpens` for exactly when). No run of a database gets there
  (`Safety.LastLsnUnreachable`).
* The comment at `vektordb-core/src/hnsw/mod.rs:455-458` says a node without layer-0 in-links is unreachable at
  any `ef`. That holds of nodes that live on layer 0 only (`Search.OrphanNeverFound`). One that also lives on
  layer 1 is found by exactly the queries whose descent ends at it (`Search.OrphanFoundIff`), and six
  sequential inserts can build such a node (`Orphan.UpperLayerOrphanIsFound`).
* Two comments disagree with the code, and the model follows the code. `vektordb-core/src/db.rs:12-14` says
  replay resamples levels; they are a function of the id (`vektordb-core/src/db.rs:30-32`), and so recovery is
  exact. `vektordb-core/src/wal/mod.rs:10-14` calls a full-length tail with a bad checksum torn; the code rejects it.

## Model

All sources are under `vektordb-core/src`.

| member | source | states |
|---|---|---|
| Bytes.FromLeLe | vektordb-core/src/wal/mod.rs:142-155 | Decoding a little-endian encoding gives the number back, for every number that fits the width |
| Bytes.LeFromLe | vektordb-core/src/wal/mod.rs:263-277 | Encoding a decoded field gives the bytes back, so every field has one encoding |
| Bytes.FourBytes | vektordb-core/src/wal/mod.rs:263-277 | A four-byte field is its bytes as base-256 digits, the least significant first |
| Bytes.EightBytes | vektordb-core/src/wal/mod.rs:263-277 | The same for eight bytes |
| Log.FrameParses | vektordb-core/src/wal/mod.rs:221-286 | A frame followed by anything parses to its record and consumes exactly the frame |
| Log.ParsedIsFrame | vektordb-core/src/wal/mod.rs:221-286 | Whatever parses is the frame of the record returned: the parser accepts nothing the writer does not produce |
| Log.CutFrameIsIncomplete | vektordb-core/src/wal/mod.rs:224-249 | A proper prefix of a frame is read as a clean end or a torn tail, never as damage |
| Log.FrameLayout | vektordb-core/src/wal/mod.rs:3-6 | Every byte of a frame: length at 0, checksum of the rest at 4, LSN at 8, opcode 1 at 16, id at 17, dimension at 25, then the components, all little-endian |
| Log.IncompleteIs | vektordb-core/src/wal/mod.rs:224-249 | A tail counts as torn exactly if it is shorter than a header, or than the length its header announces (or is a bare header with an impossible length) |
| Log.DamageRefused | vektordb-core/src/wal/mod.rs:59-111 | After any written records, a complete frame that is no record's frame (wrong checksum, opcode or size) makes the scan refuse the file |
| Log.ScanLog | vektordb-core/src/wal/mod.rs:59-111 | Scanning the log of any records `append` can write, followed by an incomplete tail, returns exactly those records and ends where the tail begins, if and only if none has LSN 2^64 - 1; else it is refused |
| Log.ScanSound | vektordb-core/src/wal/mod.rs:59-111 | An accepted file is, up to the end found, exactly the log of the records returned, the rest is incomplete, and the next LSN is above all of them |
| Log.CutLog | vektordb-core/src/wal/mod.rs:59-111 | After truncation at any byte the scan returns exactly the records whose frames lie wholly inside the cut; it refuses exactly if one of those has the last LSN |
| Log.WholeFramesMaximal | vektordb-core/src/wal/mod.rs:59-111 | The record count of `CutLog` is the largest whose frames fit |
| Log.NextAfterBounds | vektordb-core/src/wal/mod.rs:77-80 | The next LSN is one above the largest recovered LSN |
| Log.ReopenThenAppend | vektordb-core/src/wal/mod.rs:59-175 | A second open finds the same records, and a record appended after a reopen is recovered after the survivors, with a higher LSN; each open fails exactly on the last LSN |
| Log.WrittenLogOpens | vektordb-core/src/wal/mod.rs:59-111 | `open` accepts what `append` wrote exactly when no record has the last LSN |
| Log.LastLsnIsLost | vektordb-core/src/wal/mod.rs:138-175 | At LSN 2^64 - 1 `append` reports success and the file it leaves is refused |
| Log.AppendIs | vektordb-core/src/wal/mod.rs:138-175 | Success exactly if the log is healthy, the record fits and the write and any sync succeed; then the file has gained exactly the frame of (next LSN, id, vector) and the counter has moved by one. On failure at most a beginning of the frame, the LSN not used up, and poison by every failed write or sync and nothing else |
| Log.ReadRecord | vektordb-core/src/wal/mod.rs:221-286 | The byte reader, with its length checks, takes exactly the step the frame grammar gives, and advances only over a whole frame |
| Log.Wal.Open | vektordb-core/src/wal/mod.rs:59-111 | The loop returns the scan's records, keeps exactly the file's good prefix, and leaves a refused file as it was |
| Log.Wal.EnsureLsnAtLeast | vektordb-core/src/wal/mod.rs:132-134 | The LSN counter never falls below the snapshot's watermark and nothing else changes |
| Log.Wal.Append | vektordb-core/src/wal/mod.rs:138-175 | The file gains exactly the record's frame, or the prefix of it that a fault let through and the log is poisoned; a poisoned or oversized append changes nothing |
| Log.Wal.Reset | vektordb-core/src/wal/mod.rs:180-192 | The log is emptied and the LSN counter kept; a failed reset poisons; a poisoned log is untouched |
| Neighbors.SortCorrect | vektordb-core/src/storage/exact.rs:25-32 | Sorting by (distance, id) yields a sorted permutation |
| Neighbors.SortedUnique | vektordb-core/src/storage/exact.rs:25-32 | Two sorted arrangements of the same items are the same sequence, so the order decides every tie |
| Neighbors.TakeInsert | vektordb-core/src/storage/exact.rs:42-51 | Bounded insertion commutes with taking the first k |
| Neighbors.PushIsTopK | vektordb-core/src/storage/exact.rs:42-51 | Pushing onto the bounded heap of a list gives the bounded heap of the longer list |
| Neighbors.MergeIsTopK | vektordb-core/src/storage/exact.rs:79-84 | Pushing the k least of one list, in any order, onto the bounded heap of another gives the k least of both lists |
| Neighbors.TopKWorst | vektordb-core/src/storage/exact.rs:42-51 | Once k items are kept, adding items never makes the worst kept one worse |
| Exact.ScanChunk | vektordb-core/src/storage/exact.rs:63-78 | The heap of a chunk is the k least of its rows |
| Exact.Merge | vektordb-core/src/storage/exact.rs:79-84 | Pushing the second part's heap, in whatever order it is iterated, onto the first part's gives the k least rows of both parts |
| Exact.Reduce | vektordb-core/src/storage/exact.rs:62-84 | Every reduction tree over chunk heaps yields the k least of all their chunks |
| Exact.Drain | vektordb-core/src/storage/exact.rs:86-91 | Popping the worst until empty and reversing yields the items in ascending order |
| Exact.Search | vektordb-core/src/storage/exact.rs:54-92 | For every k, every number of rows and every reduction tree over the chunks the answer is the k nearest of all ids: min(k, n) of them, each at its distance, nearest first, the smaller id first at equal distance, and every id left out after all of them |
| Exact.TopKIsLeast | vektordb-core/src/storage/exact.rs:54-92 | That answer is sorted, has min(k, n) items, and no row left out precedes one kept |
| Scratch.VisitedSet.BeginPass | vektordb-core/src/hnsw/scratch.rs:22-31 | A new pass starts with nothing marked, through generation wrap-around and growth |
| Scratch.VisitedSet.Mark | vektordb-core/src/hnsw/scratch.rs:37-48 | Returns whether the id was marked in this pass, marks it, and leaves every other mark alone; ids past the buffer grow it |
| Scratch.VisitedSet.Pass | vektordb-core/src/hnsw/scratch.rs:22-48 | Over a whole pass the answer is true exactly for repeats |
| Scratch.Passes | vektordb-core/src/hnsw/scratch.rs:22-48 | Over any run of passes each pass behaves as if the set were new |
| Graph.SetLinksNavigable | vektordb-core/src/hnsw/mod.rs:308-325 | Rewriting a list with links to nodes that live on the layer keeps every layer closed |
| Graph.AddNodeNavigable | vektordb-core/src/hnsw/mod.rs:334 | A fresh unlinked node keeps every layer closed |
| Search.SearchLayerCorrect | vektordb-core/src/hnsw/mod.rs:189-243 | Beam search ends with sorted, distinct results, min(max(ef, 1), visited) of them, none farther than a visited node left out, every neighbour of a result visited, every visited node reachable |
| Search.SearchTurns | vektordb-core/src/hnsw/mod.rs:204-243 | The search turn by turn: it starts with the entry alone; each turn takes a nearest open candidate, visits all its links, opens those that enter the results and keeps the closest ef of all visited; it goes on exactly as long as the nearest open candidate is not beyond the worst of a full result list |
| Search.NoNeighbourBeatsResults | vektordb-core/src/hnsw/mod.rs:189-243 | No layer-neighbour of a result that was left out is closer than any result |
| Search.GreedyIsLocalMinimum | vektordb-core/src/hnsw/mod.rs:247-269 | The descent terminates, ends no farther than it began, and no neighbour of where it ends is closer |
| Search.DescendStops | vektordb-core/src/hnsw/mod.rs:351-353 | The descent stops once on every layer from the top down, each time at a local minimum of that layer that the stop before it reaches there, never farther from the query |
| Search.SearchStartStops | vektordb-core/src/hnsw/mod.rs:437-446 | The layer-0 search starts at the last such stop: a local minimum of layer 1 if there is one, and no farther than the entry |
| Search.HitsAreNodes | vektordb-core/src/hnsw/mod.rs:429-453 | Search returns at most k hits, each a node of the index at the oracle's distance, nearest first, the smaller id first at equal distance, no id twice |
| Search.WideBeamFindsAll | vektordb-core/src/hnsw/mod.rs:189-243 | A beam at least as wide as the set reachable from its entry returns all of that set |
| Search.WideSearchIsExact | vektordb-core/src/hnsw/mod.rs:429-453 | When max(ef, k) covers the nodes reachable on layer 0 from the descended entry, search returns exactly the k nearest of them, by distance and then id |
| Search.FullyReachableIsBruteForce | vektordb-core/src/hnsw/mod.rs:429-453 | If moreover every node is reachable, that is brute force's answer |
| Search.ReachedIsNearest | vektordb-core/src/hnsw/mod.rs:429-453 | The same for the reachable set itself, whatever list of it is made |
| Search.TopKIsNearest | vektordb-core/src/storage/exact.rs:54-92 | Sorting and cutting to k gives the k nearest, in plain distances and ids |
| Search.UnlinkedUnreachable | vektordb-core/src/hnsw/mod.rs:475-486 | A node without in-links on a layer is reachable there only from itself |
| Search.OrphanNeverFound | vektordb-core/src/hnsw/mod.rs:475-486 | A layer-0-only node that is not the entry and has no layer-0 in-links is never returned, at any k and ef |
| Search.OrphanFoundIff | vektordb-core/src/hnsw/mod.rs:455-486 | In any sane graph a node without layer-0 in-links is returned at some k and ef if and only if the descent through the upper layers ends at it |
| Orphan.UpperLayerOrphanIsFound | vektordb-core/src/hnsw/mod.rs:455-474 | A graph that six sequential inserts build (M = 2, rows in space) has a node of level 1 without layer-0 in-links, not the entry, that a query returns |
| Orphan.BuiltIsFinal | vektordb-core/src/hnsw/mod.rs:329-420 | The exact graph those six inserts leave, list by list, both full neighbours having dropped the last row again |
| Orphan.NearRowIsKept | vektordb-core/src/hnsw/mod.rs:384-408 | With the sixth row near the hub instead, the exact graph: both full neighbours drop their farthest link for it, one by the diversity rule, one by the top-up |
| Select.SelectCorrect | vektordb-core/src/hnsw/mod.rs:276-304 | Selection returns exactly min(m, candidates) distinct candidate ids, the closest first |
| Select.SiftShape | vektordb-core/src/hnsw/mod.rs:276-295 | On sorted candidates: both parts ascend (so the top-up takes pruned ones in ascending order), the closest is selected, selected ones are pairwise no closer to each other than the later one is to the base, and every pruned one is closer to some selected one than to the base |
| Select.SiftParts | vektordb-core/src/hnsw/mod.rs:276-295 | Selected and pruned are disjoint parts of the candidates, at most m selected; if fewer than m are, no candidate was skipped |
| Select.SiftOrder | vektordb-core/src/hnsw/mod.rs:276-295 | On sorted candidates both parts ascend and the closest candidate comes first |
| Select.SiftDominates | vektordb-core/src/hnsw/mod.rs:283-294 | Selected ones are pairwise spread, and every pruned one is dominated by a selected one, in any candidate order |
| Select.FirstDominates | vektordb-core/src/hnsw/mod.rs:276-304 | If the nearest candidate dominates all others, the heuristic degenerates to the m nearest |
| Select.SpreadFirst | vektordb-core/src/hnsw/mod.rs:276-304 | If the m nearest candidates are spread, exactly they are taken |
| Insertion.BackLinkRange | vektordb-core/src/hnsw/mod.rs:386-407 | A rewritten back-link list holds only old links and the new id |
| Insertion.WithoutPart | vektordb-core/src/hnsw/mod.rs:372-372 | `retain` drops the new node itself from its candidates and nothing else |
| Insertion.DedupAdjacent | vektordb-core/src/hnsw/mod.rs:377-382 | `dedup` loses nothing but elements equal to their predecessor, and leaves none such |
| Linking.SelectReselects | vektordb-core/src/hnsw/mod.rs:276-304 | What the heuristic keeps of the candidates of a base, in distances and ids: min(m, n) of them, the nearest first; a diverse part, ascending, none closer to an earlier one than to the base; then the top-up, ascending, each shadowed by a diverse one; and each one left out is shadowed and after the whole top-up, or after m diverse ones |
| Linking.ReselectedUnique | vektordb-core/src/hnsw/mod.rs:276-304 | That description leaves no choice: at most one list satisfies it |
| Linking.BackLinkLinks | vektordb-core/src/hnsw/mod.rs:386-407 | A neighbour's list with room gains the new id at its end; a full one becomes what the heuristic keeps of its links and the new id |
| Linking.NearerIsKept | vektordb-core/src/hnsw/mod.rs:395-406 | A new node that comes before every link of a full neighbour is kept, in first place |
| Linking.ConnectDownLinks | vektordb-core/src/hnsw/mod.rs:356-410 | Connecting from a layer downwards: on each layer the own list is what the heuristic keeps of the nodes found there, the nodes on it link back, all other lists stay |
| Linking.InsertLinks | vektordb-core/src/hnsw/mod.rs:329-420 | One sequential insert, list by list: the new node's own lists, the lists of the neighbours on them (bounded by 2 * M on layer 0 and M above), all other lists unchanged, and the entry |
| Linking.BuildLinks | vektordb-core/src/hnsw/mod.rs:329-420 | Every row of a sequentially built index was inserted so, at the kernel's distances between the stored rows |
| Linking.WideCandidates | vektordb-core/src/hnsw/mod.rs:357-370 | If a layer is connected and ef_construction covers it, all its nodes are candidates for the new node's list |
| Structure.BackLinkClean | vektordb-core/src/hnsw/mod.rs:386-407 | A back-link rewrite never self-links or duplicates, keeps the bound, and never shortens a list that was within it |
| Structure.ConnectDownClean | vektordb-core/src/hnsw/mod.rs:354-410 | Connecting on all layers keeps every list clean, shortens none, and gives the new node an out-link on each |
| Structure.InsertKeepsLists | vektordb-core/src/hnsw/mod.rs:329-420 | One insert keeps list cleanliness and a top-level entry, also from a graph that racing inserts left over-full |
| Structure.InsertKeepsInvariants | vektordb-core/src/hnsw/mod.rs:329-420 | One sequential insert at any level keeps every structural invariant; older nodes keep their level and no list shrinks |
| Structure.BuildInvariants | vektordb-core/src/hnsw/mod.rs:490-511 | After any sequence of sequential inserts with any levels: no self-links, no duplicates, links only to nodes of the layer, at most 2 * M links on layer 0 and M above, out-links on every connected layer, an entry of maximal level |
| HnswIndex.PackRoundTrip | vektordb-core/src/hnsw/mod.rs:71-79 | A packed entry fits 64 bits, is never the empty marker, unpacks to its id and level, and a higher level packs to a larger word |
| HnswIndex.EncodeDecoded | vektordb-core/src/hnsw/mod.rs:71-79 | Every packed word is the encoding of the entry it decodes to |
| HnswIndex.Hnsw.SearchLayer | vektordb-core/src/hnsw/mod.rs:189-243 | The two-heap loop with the stamped visited set computes the specified beam search |
| HnswIndex.Hnsw.Walk | vektordb-core/src/hnsw/mod.rs:220-240 | One expansion marks each link and admits the unvisited ones to both heaps as the specified expansion does |
| HnswIndex.Hnsw.GreedyDescend | vektordb-core/src/hnsw/mod.rs:247-269 | The loop terminates in the specified local minimum, with its distance |
| HnswIndex.Hnsw.SelectNeighbors | vektordb-core/src/hnsw/mod.rs:276-304 | The loop computes the specified selection from the stored rows |
| HnswIndex.Hnsw.RewriteLinks | vektordb-core/src/hnsw/mod.rs:308-325 | The list named holds the new links; every other list of every node, and every level, is as before |
| HnswIndex.Hnsw.LinkBack | vektordb-core/src/hnsw/mod.rs:384-408 | The neighbour's list becomes the specified back-link list (`Linking.BackLinkLinks` says which), every other list stays |
| HnswIndex.Hnsw.Insert | vektordb-core/src/hnsw/mod.rs:329-420 | The in-place insert leaves exactly the graph the insertion function gives (`Linking.InsertLinks` says which, list by list) |
| HnswIndex.Hnsw.ConnectAll | vektordb-core/src/hnsw/mod.rs:356-410 | The loop over the layers leaves the lists the connecting function gives, from any start on the top layer |
| HnswIndex.Hnsw.ZoomIn | vektordb-core/src/hnsw/mod.rs:351-353 | The descent through the upper layers ends where the specified one does |
| HnswIndex.Hnsw.SearchWithOracle | vektordb-core/src/hnsw/mod.rs:429-453 | The query method returns the specified search result |
| Persist.LoadSaved | vektordb-core/src/hnsw/persist.rs:110-256 | Loading a saved graph gives back levels, ordered adjacency, entry, configuration (ef_construction modulo 2^32) and LSN if and only if every list is within its degree bound; otherwise it is refused |
| Persist.LoadIff | vektordb-core/src/hnsw/persist.rs:170-256 | A file loads as a snapshot if and only if it is the file `save` writes for it, 2 <= M <= 4096, levels are at most 63, lists within 2 * M and M, links name existing nodes, and the entry is absent or names a node of its level |
| Persist.SnapshotLayout | vektordb-core/src/hnsw/persist.rs:3-8 | Every fixed field of a snapshot file at its byte offset, little-endian, the checksum of everything before it at the end |
| Persist.SequentialIsStorable | vektordb-core/src/hnsw/persist.rs:170-256 | A graph with the sequential invariants meets every condition of the loader, the node-count bound by file length included |
| Persist.SaneIsStorable | vektordb-core/src/hnsw/persist.rs:110-166 | Any closed graph with short enough lists can be written and read field by field |
| Persist.BuiltGraphRoundTrips | vektordb-core/src/hnsw/persist.rs:110-256 | Every sequentially built graph, for every M accepted, every vectors and levels up to 63, loads back unchanged, with ef_construction modulo 2^32 |
| SnapshotFile.Save | vektordb-core/src/hnsw/persist.rs:110-166 | The buffered writer with its running checksum produces exactly the specified bytes |
| SnapshotFile.PutNode | vektordb-core/src/hnsw/persist.rs:135-150 | One node's level and lists are appended to the file and to the checksum |
| SnapshotFile.ReadHeader | vektordb-core/src/hnsw/persist.rs:180-191 | Reads the header fields and advances past them, or reports the same corruption the parser does |
| SnapshotFile.ReadNodes | vektordb-core/src/hnsw/persist.rs:206-232 | Reads all nodes as the parser does, list by list |
| SnapshotFile.LoadIndex | vektordb-core/src/hnsw/persist.rs:170-256 | The imperative loader accepts and refuses exactly the files the parser does and fills a fresh index with the parsed graph |
| Concurrent.NextKeepsInv | vektordb-core/src/hnsw/mod.rs:308-420 | Every atomic step of racing inserts keeps: links lead to other initialised nodes of the layer, the entry names an initialised node with its true level, lists exceed their bound by at most the node's own M links |
| Concurrent.NextRaisesEntry | vektordb-core/src/hnsw/mod.rs:413-419 | The entry's level never falls, and the entry changes only to a strictly higher level |
| Concurrent.NextKeepsLevels | vektordb-core/src/hnsw/mod.rs:308-420 | No step takes a node away or changes its level |
| Concurrent.EveryRunSafe | vektordb-core/src/hnsw/mod.rs:327-420 | Both hold over every interleaving, from any graph earlier inserts left |
| Concurrent.SettledGraph | vektordb-core/src/hnsw/mod.rs:327-420 | Once no insert is pending the graph is navigable and the entry has maximal level |
| Concurrent.ResumeInv | vektordb-core/src/hnsw/mod.rs:327-420 | Such a graph is again a valid start |
| Readers.NextKeepsSafe | vektordb-core/src/hnsw/mod.rs:429-453 | A lock-free search step, or any step of any insert beside it, keeps every node and layer the search may read next in existence |
| Readers.SearchesSafe | vektordb-core/src/hnsw/mod.rs:422-453 | Over all interleavings of inserts and searches no search goes to an uninitialised node or a missing layer |
| Race.RaceBreaksDegreeBound | vektordb-core/src/hnsw/mod.rs:377-411 | A concrete interleaving of four inserts, two racing, ends with a layer-1 list of three at M = 2; its snapshot is refused |
| Race.HeuristicLinksBoth | vektordb-core/src/hnsw/mod.rs:276-304 | In that interleaving, with the rows at 0, 1, 10 and 11, the heuristic itself makes the choice the over-full list comes from, by topping up a pruned candidate |
| Racing.LevelRunSafe | vektordb-core/src/db.rs:30-32 | With levels fixed by ids, every state of every run of racing inserts keeps the concurrent invariant and every node its level |
| Racing.SettledIndexOk | vektordb-core/src/hnsw/mod.rs:327-420 | At quiescence that is exactly the index condition the recovery protocol works with |
| Racing.ConcurrentRunAdmitted | vektordb-core/src/db.rs:412-418 | Whatever graph a run of racing inserts leaves, from any index the protocol knows, the protocol's linking step admits it |
| Racing.BatchRealized | vektordb-core/src/db.rs:383-431 | From any quiet state of a protocol run, for any rows and any interleaving of their inserts, a protocol run ends with exactly the index they leave and every row acknowledged |
| Racing.RaceBreaksRecovery | vektordb-core/src/db.rs:357-373 | A run from an empty database: four acknowledged rows race, a checkpoint saves the over-full index, and after any crash `open` refuses |
| Segments.LocateInside | vektordb-core/src/storage/store.rs:56-60 | Every id lies inside its segment, and segment start plus offset is the id |
| Segments.LocateUnique | vektordb-core/src/storage/store.rs:56-65 | Every slot of every segment is located by exactly one id |
| Segments.LocateNoOverflow | vektordb-core/src/storage/store.rs:56-60 | For any u64 id the segment number is at most 54, so the shift and the products stay inside 64 bits, and the offset never goes negative |
| Segments.SegmentsBelow | vektordb-core/src/storage/store.rs:56-65 | The first n segments hold exactly the ids below the n-th start |
| Segments.RowAddress | vektordb-core/src/storage/store.rs:96-107 | Row id is at header + id * stride, whatever its segment |
| Segments.SegmentsContiguous | vektordb-core/src/storage/store.rs:96-107 | Segments follow one another without gap or overlap |
| Segments.Alignment | vektordb-core/src/storage/store.rs:40-44 | With whole-cache-line strides every row is 64-byte aligned and every segment page-aligned |
| Segments.CapacityIsRoom | vektordb-core/src/storage/store.rs:96-134 | A row can be placed exactly when its id is below the capacity the geometry checks leave |
| Segments.CapacityBound | vektordb-core/src/storage/store.rs:40-43 | No store holds more rows than 56-bit ids can name |
| Store.VectorStore.Open | vektordb-core/src/storage/store.rs:181-220 | Opens exactly the files with an aligned stride and all needed segments; the store then shows the header's rows |
| Store.VectorStore.MapNext | vektordb-core/src/storage/store.rs:109-134 | Maps or creates one segment, exactly when its extent fits; every existing row keeps its content |
| Store.VectorStore.EnsureMapped | vektordb-core/src/storage/store.rs:222-241 | Succeeds exactly when the segments fit and may be created; nothing moves |
| Store.VectorStore.Append | vektordb-core/src/storage/store.rs:256-282 | Pushes one row; fails exactly on a wrong dimension or no room, changing no row |
| Store.VectorStore.WriteRow | vektordb-core/src/storage/store.rs:268-278 | Writes one row's words and no other row's |
| Store.VectorStore.RollbackLast | vektordb-core/src/storage/store.rs:285-295 | Pops the last row if it is the one named, else changes nothing |
| Store.VectorStore.Get | vektordb-core/src/storage/store.rs:299-304 | Reads a row back exactly, or reports the id out of range |
| Store.VectorStore.Flush | vektordb-core/src/storage/store.rs:320-330 | The durable count becomes the volatile one; no row changes |
| Store.VectorStore.RoomIsCapacity | vektordb-core/src/storage/store.rs:222-241 | Room for an id is the same as the id being below the capacity |
| SegmentedArray.SegVec.EnsureSegment | vektordb-core/src/hnsw/segvec.rs:55-72 | A missing segment appears empty, existing ones stay, no slot changes |
| SegmentedArray.SegVec.Set | vektordb-core/src/hnsw/segvec.rs:77-88 | One slot gets the value, every other keeps its own, no segment moves, the length is the highest id written plus one |
| SegmentedArray.SegVec.GetUnchecked | vektordb-core/src/hnsw/segvec.rs:96-100 | Reads what was written into the slot |
| SegmentedArray.Fill | vektordb-core/src/hnsw/segvec.rs:74-88 | Writers of ids 0..n in any order end with length n and every slot below it filled |
| Kernels.ScalarL2 | vektordb-core/src/distance/scalar.rs:6-14 | The loop computes the sum of squared differences, component by component |
| Kernels.L2IsGap | vektordb-core/src/distance/scalar.rs:6-14 | The squared distance of two slices of flat buffers, number by number |
| Kernels.ScalarDot | vektordb-core/src/distance/scalar.rs:17-25 | The loop computes the dot product |
| Kernels.ScalarCosineSums | vektordb-core/src/distance/scalar.rs:28-42 | The loop computes the three sums of the cosine distance |
| Kernels.HSum | vektordb-core/src/distance/avx2.rs:23-32 | The shuffles and adds sum all eight lanes |
| Kernels.Avx2L2 | vektordb-core/src/distance/avx2.rs:44-92 | Blocks of 32 and 8 with four accumulators and the scalar tail give the sum of squared differences, for every length, reading only inside the slices |
| Kernels.Avx2Dot | vektordb-core/src/distance/avx2.rs:102-147 | Blocks of 32 and 8 with four accumulators and the scalar tail give the dot product, for every length, reading only inside the slices |
| Kernels.Avx2CosineSums | vektordb-core/src/distance/avx2.rs:159-205 | Blocks of 16 and 8 with two accumulators each and the scalar tail give the three cosine sums, for every length |
| Kernels.SumSplit | vektordb-core/src/distance/avx2.rs:44-213 | A sum over a range is the sum over its parts |
| Pq.Quantizer.Encode | vektordb-core/src/pq/mod.rs:100-116 | For every subspace and every k the code's centroid is no farther than centroid k, and strictly nearer for k below the code; distances read off the flat buffer at (sub * 256 + k) * subDim |
| Pq.Quantizer.CodePicksNearest | vektordb-core/src/pq/mod.rs:100-116 | The same of the specified code, so of every code the database stores |
| Pq.Quantizer.SubDistanceIsFlat | vektordb-core/src/pq/mod.rs:41-44 | The distance to centroid (sub, k) is the sum of squared differences to the numbers at (sub * 256 + k) * subDim of the flat buffer |
| Pq.Quantizer.NearestTo | vektordb-core/src/pq/mod.rs:105-113 | The loop finds that centroid |
| Pq.Quantizer.NearestIsLeast | vektordb-core/src/pq/mod.rs:105-113 | No centroid of the subspace is closer, and none before it is as close |
| Pq.Quantizer.Decode | vektordb-core/src/pq/mod.rs:119-125 | The decoded vector copies, in every subspace, the numbers of the code's centroid from the flat buffer |
| Pq.Quantizer.AdcTable | vektordb-core/src/pq/mod.rs:128-139 | Entry sub * 256 + k is the sum of squared differences between the query's subspace and the numbers of centroid (sub, k) in the flat buffer |
| Pq.Quantizer.AdcDistance | vektordb-core/src/pq/mod.rs:185-202 | The loop with four accumulators and its tail sum the table entries the code picks |
| Pq.Quantizer.AdcIsExact | vektordb-core/src/pq/mod.rs:128-139 | The table sum equals the squared distance from the query to the decoded code, and the sum over subspaces read off the flat buffer, for every m |
| Pq.Quantizer.EncodeIsOptimal | vektordb-core/src/pq/mod.rs:100-116 | No code in 256^m decodes closer to the vector than its own |
| KMeans.Seed | vektordb-core/src/pq/mod.rs:206-239 | Seeding picks 256 data points, each but the first drawn with weight its least squared distance to those before it, and keeps d2[i] equal to that distance |
| KMeans.Tighten | vektordb-core/src/pq/mod.rs:232-238 | Lowering d2 against the new centroid keeps that equality |
| KMeans.PickSeed | vektordb-core/src/pq/mod.rs:215-229 | The draw lands on the point whose weight the drawn number falls into, weights laid end to end; on any point if all weights vanish |
| KMeans.Closest | vektordb-core/src/pq/mod.rs:245-254 | The assignment loop finds the first of the nearest centroids |
| KMeans.Accumulate | vektordb-core/src/pq/mod.rs:256-264 | Sums and counts are the per-cluster totals |
| KMeans.Recenter | vektordb-core/src/pq/mod.rs:265-275 | Each non-empty cluster moves to the mean of its points, each empty one to some data point |
| KMeans.LloydImproves | vektordb-core/src/pq/mod.rs:241-276 | Nearest assignment followed by re-centring never raises the total distortion, the empty-cluster respawn included |
| KMeans.Exchange | vektordb-core/src/pq/mod.rs:241-276 | Summing distortion by points and by clusters gives the same total |
| KMeans.Lloyd | vektordb-core/src/pq/mod.rs:242-276 | One iteration: for the assignment of every point to the first of its nearest centroids, each non-empty cluster's centroid times its count is the coordinate sum of its points, each empty one is a data point; and the total distortion does not rise |
| KMeans.Train | vektordb-core/src/pq/mod.rs:206-278 | From the seeds on every recorded centroid set is such a successor of the one before, as many as iterations; the last is returned; distortion never rises |
| Codebook.BookRoundTrip | vektordb-core/src/pq/mod.rs:144-178 | Parsing a written codebook gives it back |
| Codebook.ParsedBook | vektordb-core/src/pq/mod.rs:157-178 | Whatever parses has consistent dimensions, and writing it gives the bytes parsed |
| Codebook.FileRoundTrip | vektordb-core/src/db.rs:505-549 | The codebook file loads back |
| Codebook.LoadIff | vektordb-core/src/db.rs:528-549 | A codebook file loads if and only if it is the file written for a codebook of consistent non-zero dimensions |
| Codebook.FileLayout | vektordb-core/src/db.rs:505-513 | Every field of the codebook file at its byte offset |
| Recovery.SelfEqual | vektordb-core/src/db.rs:133-137 | A stored vector compares equal to itself exactly when no component is NaN |
| Recovery.ReplayStep | vektordb-core/src/db.rs:117-147 | Replaying a logged record fails exactly on a flushed row that holds a NaN; else it appends what is missing and links what is missing |
| Recovery.ReplayTail | vektordb-core/src/db.rs:117-147 | Replaying the rest of the log restores all logged rows and links them all, or fails on such a row |
| Recovery.ScanGood | vektordb-core/src/db.rs:113-116 | The log any run leaves scans to exactly the logged records |
| Recovery.LoadGood | vektordb-core/src/db.rs:103-107 | The snapshot any run leaves loads exactly when its lists are within bounds |
| Recovery.RecoverGood | vektordb-core/src/db.rs:83-187 | On every disk a run can leave, `open` succeeds exactly under those two conditions, never panics, and restores rows, index, LSN counter, log and codes |
| Recovery.LinkKeepsIndex | vektordb-core/src/db.rs:138-139 | Linking during replay keeps the index well formed even on top of an over-full snapshot |
| Recovery.LinkFromBuilt | vektordb-core/src/db.rs:138-139 | Linking on from the graph of a prefix gives the graph of the whole |
| Opening.OpenedIsExplained | vektordb-core/src/db.rs:83-187 | For any disk at all, damaged or not: if `open` succeeds, the snapshot is one `save` wrote, the log is records and a torn tail, every row the header covers is there, every record from the watermark on is the next row or agrees with one, number by number, store and index are equally long, the next LSN is above all, and every code is that of its row |
| Opening.ExplainedOpens | vektordb-core/src/db.rs:83-187 | Conversely every disk that can be so explained, from a graph that can be walked, opens, with exactly those rows |
| Opening.DisagreementRefused | vektordb-core/src/db.rs:133-137 | A flushed row that differs from its log record in any number, other than in the sign of a zero, is never opened |
| Safety.NextKeepsInv | vektordb-core/src/db.rs:83-224 | Every step of every interleaving of inserts, batches, failed writes, training, checkpoints, crashes and reopenings keeps the protocol's invariant |
| Safety.EveryRunSafe | vektordb-core/src/db.rs:83-224 | So the invariant holds in every state of every run |
| Safety.HistoryGrows | vektordb-core/src/db.rs:191-224 | Over a run logged vectors and acknowledgements only grow |
| Safety.CrashKeeps | vektordb-core/src/wal/mod.rs:138-175 | A crash after any byte of a frame leaves a good disk and takes back nothing logged |
| Safety.SyncKeeps | vektordb-core/src/wal/mod.rs:156-175 | When the sync returns, the log is the log of one more vector |
| Safety.OpenKeeps | vektordb-core/src/db.rs:83-187 | A reopened database is a good running state over the same history |
| Safety.DownRecovers | vektordb-core/src/db.rs:83-187 | In every down state `open` does not panic, succeeds exactly when the two conditions hold, and then returns every logged vector |
| Safety.CrashAnywhereRecovers | vektordb-core/src/db.rs:83-224 | In any run, after a crash at any state keeping any bytes of the frame in flight: `open` never panics; it succeeds exactly under the two conditions; then store and index lengths agree, every acknowledged id reads back its exact vector, and at most the one insert in flight appears beyond what was logged |
| Safety.LastLsnUnreachable | vektordb-core/src/wal/mod.rs:132-175 | No run of the database reaches the last LSN: the next LSN is the number of logged rows |
| Safety.NoNanNoProblem | vektordb-core/src/db.rs:133-137 | Without NaN components the second condition always holds |
| Safety.OverfullSnapshotRefused | vektordb-core/src/db.rs:357-373 | Saving an over-full graph in a checkpoint makes every later crash unrecoverable |
| ExactRecovery.SeqRunSafe | vektordb-core/src/db.rs:30-32 | In every sequential run the index is the graph built from the logged vectors in id order |
| ExactRecovery.SeqSnapshotLoads | vektordb-core/src/db.rs:357-373 | Snapshots of sequential runs always load |
| ExactRecovery.RecoveryIsExact | vektordb-core/src/db.rs:103-157 | After a crash at any step of a sequential run, the recovered levels, ordered adjacency and entry equal those of inserting ids 0..n-1 into an empty index, whatever the watermark |
| ExactRecovery.NanBreaksRecovery | vektordb-core/src/db.rs:133-137 | A run with one acknowledged NaN vector and a crash between flush and snapshot that `open` refuses |
| Operations.LogRowIsSteps | vektordb-core/src/db.rs:433-450 | Store append, log append and rollback are protocol steps, for every fault |
| Operations.LinkNextIsStep | vektordb-core/src/db.rs:208-208 | Linking the next logged row is a protocol step |
| Operations.FinishNextIsStep | vektordb-core/src/db.rs:209-222 | Encoding a row and answering its caller is a protocol step |
| Operations.CheckpointIsSteps | vektordb-core/src/db.rs:357-373 | A checkpoint, failing anywhere or not at all, is a sequence of protocol steps |
| Operations.CheckpointIs | vektordb-core/src/db.rs:357-373 | Under any fault: success exactly if no stage failed and the log was healthy, and then header, codebook, snapshot and empty log are what they must be; the snapshot is replaced only after rows and codebook are safe, the log emptied only behind the new snapshot |
| Operations.LogRowExact | vektordb-core/src/db.rs:433-450 | Logging a row leaves index and snapshot exact for the rows they cover |
| Operations.LinkNextExact | vektordb-core/src/db.rs:208-208 | Linking in id order extends the exact index by one row |
| Operations.CheckpointedExact | vektordb-core/src/db.rs:357-373 | A checkpoint, whatever its fault, leaves an exact snapshot |
| Operations.LeadsKeepsInv | vektordb-core/src/db.rs:191-224 | Any operation keeps the invariant |
| Operations.OperationExtendsRun | vektordb-core/src/db.rs:191-224 | Every state an operation passes through is a state of a protocol run |
| Database.AppendIsLogRow | vektordb-core/src/db.rs:433-450 | The log object's append and the protocol's logging write the same bytes, counter, poison and outcome |
| Database.Db.Quiescent | vektordb-core/src/db.rs:493-501 | At rest store length equals index length and there is one code per row, the encoding of that row |
| Database.Db.ExactIndex | vektordb-core/src/db.rs:30-32 | After sequential use the index object holds exactly the graph that inserting the stored rows, in order, builds |
| Database.Db.PushAndLog | vektordb-core/src/db.rs:433-450 | Row and record appear together or not at all, with the error of the first check that fails |
| Database.Db.InsertRowStorageOnly | vektordb-core/src/db.rs:433-450 | The whole state becomes the specified one; a failed row leaves no trace in memory but the poisoned flag |
| Database.Db.LinkOne | vektordb-core/src/db.rs:208-208 | The index gains exactly the next logged row |
| Database.Db.EncodeOne | vektordb-core/src/db.rs:209-222 | The codes gain exactly that row's code |
| Database.Db.Insert | vektordb-core/src/db.rs:191-224 | Success exactly if the log is healthy, the dimension right, room left and no fault; then the row is stored, logged, linked, encoded and acknowledged under the id returned; on failure rows, index, codes and acknowledgements are unchanged; an exact index stays exact |
| Database.Db.FinishBatch | vektordb-core/src/db.rs:412-431 | Every logged row ends linked, encoded and, if the batch succeeded, acknowledged, through protocol steps only |
| Database.Db.AddBatch | vektordb-core/src/db.rs:383-410 | After the old rows, unchanged, stands row i of the batch for every i below the number done: component j is batch[i * dim + j]. Done is everything, or the rows before the first one that cannot be logged, with that row's error; on success exactly the batch's ids become acknowledged with those rows, on failure none; only protocol states are passed through; an exact index stays exact |
| Database.Db.Checkpoint | vektordb-core/src/db.rs:357-373 | Header, codebook, snapshot and log become what the protocol says for every fault; rows and index stay |
| Database.Db.SaveFiles | vektordb-core/src/db.rs:360-372 | Codebook before snapshot before log reset, each only if everything before it succeeded |
| Database.Db.PublishPq | vektordb-core/src/db.rs:264-272 | Training publishes the codes of exactly the stored rows |
| Database.Db.Get | vektordb-core/src/db.rs:464-466 | An acknowledged id reads back the exact vector inserted |
| Database.Db.Search | vektordb-core/src/db.rs:344-352 | Every hit is a stored row at the kernel's distance from the query, nearest first, at most k, no id twice; when max(ef, k) covers the nodes reachable on layer 0 from the descended entry, the hits are exactly the k nearest of those; a wrong dimension is refused |
| Database.Db.SearchPq | vektordb-core/src/db.rs:302-341 | The search is steered by the exact distance from the query to each row's decoded code, number by number, and fetches k * rerank candidates, or k without re-ranking; with re-ranking the answer is the k nearest of those fetched by the kernel's distance to the stored rows; each refusal has its cause |
| Database.Db.CodeDistances | vektordb-core/src/db.rs:320-332 | The table lookups give every row the squared distance from the query to its decoded code, number by number |
| Database.Db.CodesAreCodes | vektordb-core/src/db.rs:209-222 | At rest every row has a code of the trained quantizer |
| Database.EncodeStore | vektordb-core/src/db.rs:493-501 | The codes of all rows, in id order |
| Reopening.ReplayRecord | vektordb-core/src/db.rs:117-147 | One record is put back into store and index exactly as specified, or refused |
| Reopening.RestoreRow | vektordb-core/src/db.rs:123-137 | A missing row is appended if it fits, one that is there is compared, a gap is refused |
| Reopening.Replay | vektordb-core/src/db.rs:117-147 | The loop ends in the specified store and index, or refuses, and never touches rows already there |
| Reopening.OpenIndex | vektordb-core/src/db.rs:103-107 | The snapshot stage yields the specified index and watermark |
| Reopening.OpenPq | vektordb-core/src/db.rs:160-178 | The codebook stage yields the specified quantizer and codes, or the specified error |
| Reopening.Open | vektordb-core/src/db.rs:83-187 | On the files any run left: opens exactly when the store maps, the dimension agrees and recovery succeeds; the object is then in the protocol's reopened state; a failed open loses nothing durable |
| Reopening.CrashAndReopen | vektordb-core/src/db.rs:754-781 | Killing a database at rest and opening its files again yields, if it opens, every row under its id, every acknowledged vector intact, the same acknowledgements, and an exact index if it was exact |

## Left out

- First-time creation of the directory and its files, the store header's magic and version, mmap and file-system errors other than the faults above, rename and directory sync mechanics.
- Arbitrary page write-back order: the store writes its header count before it syncs its rows, so a power loss between the two is outside the crash model.
- Sessions with the log disabled or with `SyncPolicy::Never`: no durability is claimed. The log's `sync` method and the checkpoint at LSN 0 are not modelled.
- Checksum internals and detection of random corruption: the checksum is an arbitrary function. The second checksum comparison in `load` can never differ from the first on an unchanging file.
- Floating-point rounding, NaN and signed zero in distances, AVX2 detection, the square root and division of the cosine distance.
- Level sampling and seeding probabilities, recall, throughput, orphan rates.
- Epoch reclamation, memory orderings and pointer code: publishing a list is one atomic step. Two racing writers of one list are ordered by its lock.
- What a search returns while inserts run: `Readers` proves that it stays inside the graph, not how good its answer is.
- Database.Db.AddBatch: links the batch in id order; the source links it in parallel. `Racing.BatchRealized` covers every interleaving, at the level of the protocol.
- Database.Db.Insert: the object is used by one caller at a time; interleaved callers are the subject of `Protocol` and `Concurrent`.
- Database.Db.SearchPq: computes the code distances of all rows up front where the source computes each on demand; what number a stored word stands for is an arbitrary function.
- Database.Db.PublishPq: sampling, argument checks and the training call of `train_pq` are left out; `KMeans` proves the training.
- Concurrent.EveryRunSafe: an insert links to at most M of the nodes its list reads could have reached; which of them the beam search and the heuristic pick while lists change under them is left open, so every actual run is one of the model's.
- KMeans.Train: the flat buffers are sequences of rows, and the sums are exact.
- Safety.CrashAnywhereRecovers: the protocol's linking step admits every well-formed graph on the levels the ids fix, so its runs include those of `Racing` and more.
- The in-memory rows beyond the count of a closed store are not tracked: nothing reads them before they are overwritten.
- Python bindings, command line, benchmarks, dataset loader, plots.
