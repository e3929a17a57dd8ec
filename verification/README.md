# libnax in Dafny

A Dafny model of the parts of libnax whose correctness is least obvious, with proofs about
them. `dafny verify dfyconfig.toml` checks everything.

| file | what it models |
|---|---|
| `AvlTree.dfy` | the intrusive AVL tree of `src/avltree.c`, as shapes and on the heap |
| `EvfsCache.dfy`, `EvfsLru.dfy` | the write-back LRU cache of evfs over a plain disk, and which clusters it keeps |
| `EvfsVolume.dfy`, `EvfsView.dfy`, `EvfsFormat.dfy` | clusters, their headers on disk, the idle and busy lists, expansion |
| `EvfsChain.dfy`, `EvfsGaps.dfy`, `EvfsShort.dfy` | the layout of one entry over its cluster chain, reads and writes of it, writes that outgrow it, and writes that the volume has no room for |
| `EvfsEntries.dfy`, `EvfsSteps.dfy`, `EvfsFiles.dfy`, `EvfsOps.dfy`, `EvfsCreate.dfy` | entries over the clusters: writing, reading, making, deleting, and the clusters each takes |
| `EvfsRuns.dfy` | whole runs of the file system against plain byte strings and a count of free clusters |
| `EvfsLoad.dfy`, `EvfsSurvive.dfy`, `EvfsReopen.dfy` | rebuilding the entries from headers, which of them outlive damage, and opening a file again |
| `EvfsRefs.dfy` | references to an entry and when its head is freed, for any number of threads |
| `TcpReceive.dfy` | frame reassembly |
| `TcpSend.dfy`, `TcpWriters.dfy` | direct send, overflow queue and worker, as interleaved steps, with one writer in full and with any number of writers |
| `LoggerPool.dfy` | the asynchronous logger, any number of threads |
| `ByteRing.dfy` | the byte ring with free-running 32-bit cursors |
| `Md5.dfy`, `Crc32.dfy`, `Des.dfy` | MD5 in pieces, table-driven CRC, DES |
| `CipherTables.dfy`, `KeyedCipher.dfy`, `CipherText.dfy` | the keyed cipher of `platform-c++/encrypt.cpp` |
| `Bytes.dfy`, `Arithmetic.dfy`, `BitStrings.dfy` | shared vocabulary |

## The main results

**evfs.** The cache acts on every run of reads, writes, flushes and expansions as the plain disk
it stands in front of (`Cache.Run`), and it holds a cluster if and only if fewer different
clusters than it has blocks have been used since (`CachedIff`). Above it, what one write leaves in
a cluster chain is determined for every layout an entry can have, every offset and every size. It
leaves the layout of the file that a write to a file would leave *if and only if* a condition on
the entry size, the offset and the size holds (`WriteCorrectIff`), and it is reported whole and
seen right by every later read *if and only if* that condition holds or a second one
(`ReadsBackIff`): the write outgrows the last cluster of the entry without starting inside a
cluster, and leaves no seam that a read can start behind. Neither always holds: an append to an
entry that ends inside an element cluster reports its byte, and reading that byte returns nothing
(`AppendExample`); a write that starts inside an element and runs past its end is refused, because
`__evfs_entries_write_element` compares the size with the element's used size and forgets the
offset (`WriteAtRefused`). A client that looks at the condition sees plain files over every run of
making, writing, reading and deleting entries, whatever the size of the volume (`EvfsRuns.Run`).
Free space is part of the files it sees: making an entry fails exactly when no cluster is left, a
write is whole exactly when there are as many clusters as the layout needs, and deleting gives all
of them back. A write that the volume has no room for leaves the file cut off behind its last
cluster, under a size that promises more; what it reports is what it stored, and that reads back
(`ShortWrite`, `ReportedReadsBack`). Closing and opening gives the same files and the same space,
and so does the disk behind the cache alone, once the cache has been asked what the file system
asked of it and has been flushed (`Reopen`, `CloseAndReopen`). The record in the first cluster
always has the sizes of the file, so `evfs_hard_open` takes the file exactly when those are
allowed (`CheckHard`); an expansion does not look at that, and one past 1 GB leaves a file that is
refused (`StaysOpenableIff`, `TooLargeExample`). Loading is total: for any headers, cyclic, shared
or dangling, it ends and puts every cluster in exactly one place (`LoadConserves`). Damage stays
where it is: an entry outlives loading if and only if its own pointers lead to a proper end and no
head of a lower cluster leads into its chain (`SurvivesIff`).

**References.** The counts are right, a busy entry has one holder, and a head is freed at most
once and never while held, from a new head on and over every interleaving (`ReachableSafe`).
Nobody is refused without need: a head in order grants everything but exclusive use while an
operation is under way, and one that is not grants nothing (`NormalGrants`, `OthersRefused`). A
deleted entry can still be freed exactly when no client kept an open handle (`FreedIff`,
`LeakExample`): `evfs_entries_close_one` must first take a new reference, and a head that waits to
close refuses it, so such a handle can no longer be given back. A mandatory delete, as
`evfs_entries_uninit` does it, can free a held head or free it twice exactly when nobody is inside
an operation and somebody holds the head, or it is being freed already (`ForceHarmsIff`).

**AVL tree.** Insertion and removal keep order, balance and cached heights and change the node set
by exactly one node, proved on shapes and carried over to the in-place code.

**TCP.** The user gets the body of every frame, or header and body if asked for, in order, if and
only if no delivery starts inside the header of a frame larger than the receive buffer
(`Reassembly`); a link without a template hands on the stream as it comes (`RawStream`). On the
send side the kernel is given the committed packets in order over all interleavings, and no packet
already begun is refused; while epoll watches, all that is queued can be sent by the worker's
steps alone (`QueueDrains`). The same model shows a lost wake-up: `fifo_pop` changes the epoll
registration after it has left the critical section, and a packet queued in that gap is never sent
(`StallExample`, `StalledForGood`). From a link that cannot stall by itself, queueing a packet in
the gap is the one step after which it can (`OnlyTheGap`); which states those are is decided by
the queue, the registration and the worker alone (`StallsIff`). With several writers on one link
the order is kept as long as nobody looks at the overflow flag, or queues a packet, while another
is between the first and the last byte of its own (`WritersInOrder`); any such step can mix the
packets, and no other can (`MixesIff`, `TwoWritersMix`).

**Logger.** Admission below 500 guarantees a node to every admitted thread; no record is dropped
while fewer than 499 threads are admitted or about to give up, a number that can be reached
(`CountAdmitsIff`, `LimitReachedFromStart`); and queued records are printed once, in order, for
any number of saving and flushing threads, as long as a flusher looks for a record only while no
other is at work on one (`PoolSafety`). `log_flush` does not see to that. The condition is exact:
looking while another flusher is at work can print a record twice and settle for it twice, looking
at any other time can not (`PeekHarmsIff`).

**Ring, digests, ciphers.** First in, first out across cursor wrap-around; MD5 of a message cut in
any way; the CRC table against one bit at a time, and a changed run of up to four bytes always
changes the CRC (`DetectsBursts`); DES decryption against encryption for any round function; the
keyed cipher gives the text back exactly under keys that agree with the one used.

## Modelling decisions

- Where code and documentation disagree, the code is followed: `avlremove` leaves `*rmnode`
  alone when the tree is empty, although its header says it is set to NULL when nothing is
  found; the header comment of `struct evfs_cluster` says that the head id of a head cluster is
  zero, and `evfs_view_set_head` stores its own id.
- AVL keys are integers; the code takes a comparison function, of which this assumes a total
  order.
- `EvfsView` works on the disk that the cache presents, and notes what it asks of the cache.
  That the cache presents a plain disk is `EvfsCache.Cache.Run`; the layers are joined by these
  notes (`EvfsReopen.CloseAndReopen`) and not by one object.
- The client of `EvfsRuns.Run` keeps account of what it has stored. The size on record does not
  tell, once a write was cut short.
- A third byte that `decrypt` copies without having set it (padding in the third place of a
  group) may be any byte, another one in every group.
- How often a file can still be expanded is the field `room`, so that running out of space is a
  case of the model. Memory allocation and disk I/O succeed.
- Recognising a head while loading writes its own id into its header again
  (`evfs_view_set_head`, addons/evfs/entries.c:369). For the heads of a file system in order
  that changes nothing, and the model of loading leaves the disk alone.
- Making an entry is `evfs_entries_create_one` and then `evfs_entries_close_one`: the first
  leaves an open reference (addons/evfs/entries.c:584), and an entry that is still open is not
  freed by deleting it. What open references do is the subject of `EvfsRefs`.
- The rewriting of unchanged headers at the end of
  `__evfs_entries_alloc_idle_elements_for_head` has no effect and is not repeated.
- The parser of a TCP template looks at the header only (`t.cb` bytes), and answers the same for
  the same header.
- Threads interleave between atomic operations and critical sections; atomics are sequentially
  consistent.
- MD5 and DES are stated for any block transform and any round function, so for the ones in the
  source.
- Words of the CRC are sequences of 32 bits; bytes of the keyed cipher are mixed bit by bit.
- In `decrypt` the test for an unknown character compares an unsigned byte with -1 and never
  fires; the model reads such a character as 255, as the code does.

## Model

| member | source | states |
|---|---|---|
| AvlTree.InsertCorrect | src/avltree.c:22-66 | insertion into a valid tree gives a valid tree with exactly the new node added, the same tree for an equal key, and a height that grows by at most one |
| AvlTree.RemoveCorrect | src/avltree.c:68-183 | removal from a valid tree gives a valid tree with exactly the matching node gone, the same tree when there is none, and a height that drops by at most one |
| AvlTree.RebalanceCorrect | src/avltree.c:239-335 | a node whose sides differ by two becomes a valid tree with the same nodes |
| AvlTree.MinNodeIsLeast | src/avltree.c:209-222 | the leftmost node has the least key |
| AvlTree.MinimumNodes | src/avltree.c:14-66 | a valid tree of height h has at least Fib(h + 3) - 1 nodes |
| AvlTree.SizeIsCardinality | src/avltree.c:14-66 | a valid tree has as many nodes as its node set has members |
| AvlTree.RotateLeft | src/avltree.c:239-259 | the pointer rotation changes the shape as the left rotation does, with right heights |
| AvlTree.RotateRight | src/avltree.c:261-281 | the mirror image |
| AvlTree.DoubleRotateLeft | src/avltree.c:283-308 | the double rotation in place is the double rotation of shapes |
| AvlTree.DoubleRotateRight | src/avltree.c:310-335 | the mirror image |
| AvlTree.InsertNode | src/avltree.c:22-66 | the in-place insertion realises Insert on the heap and touches only nodes of the tree |
| AvlTree.RemoveNode | src/avltree.c:68-183 | the in-place removal realises Remove on the heap and reports the removed node |
| AvlTree.RemoveRootNode | src/avltree.c:82-141 | the root is replaced by its in-order successor, or by its only side |
| AvlTree.Search | src/avltree.c:185-207 | the node with the key, or nothing exactly when there is none |
| AvlTree.GetMin | src/avltree.c:209-222 | the node with the least key |
| AvlTree.LowerBound | src/avltree.c:337-355 | the least node not below the key |
| AvlTree.UpperBound | src/avltree.c:357-373 | the least node above the key |
| EvfsCache.Cache.Read | addons/evfs/cache.c:443-473 | a read returns the slice a plain disk would, and changes no content; its cluster is the one used last, and the disk changes only where the oldest has to make room |
| EvfsCache.Cache.Write | addons/evfs/cache.c:482-512 | a write changes that slice of the logical content and nothing else; its cluster is the one used last, and the disk changes only where the oldest has to make room, or at once without blocks |
| EvfsCache.Cache.Evict | addons/evfs/cache.c:335-396 | the oldest block leaves the list and the index, and the disk has what it had; the logical content stays |
| EvfsCache.Cache.WriteHit | addons/evfs/cache.c:248-269 | the slice of the hit cluster changes, its block goes to the end of the list, and lists, index and counts agree |
| EvfsCache.Cache.InstallClean | addons/evfs/cache.c:273-300 | a block filled from disk changes no content and keeps lists, index and counts consistent |
| EvfsCache.Cache.InstallDirty | addons/evfs/cache.c:304-329 | a block filled and written into is dirty and holds the changed cluster |
| EvfsCache.Cache.FlushBlockIfDirty | addons/evfs/cache.c:130-139 | a dirty block goes to its cluster and off the dirty list |
| EvfsCache.Cache.FlushAll | addons/evfs/cache.c:908-923 | afterwards nothing is dirty and the disk is the logical content |
| EvfsCache.Cache.FlushBlock | addons/evfs/cache.c:955-963 | afterwards that cluster on disk is its logical content, and the others on disk are as before |
| EvfsCache.Cache.Expand | addons/evfs/cluster.c:315-346 | new clusters are zero and every cached cluster keeps its content |
| EvfsCache.RunOneMore | addons/evfs/cache.c:443-512 | one more operation on a plain disk goes on from what the ones before have left |
| EvfsCache.Cache.Run | addons/evfs/cache.c:443-512 | every run of reads, writes, flushes and expansions gives the status and the bytes, and leaves the content, of a plain disk; the blocks hold the clusters used last, in order |
| EvfsCache.Cache.Fetch | addons/evfs/cache.c:443-473 | a block with the cluster: a hit moved to the end, an idle block, or the oldest one after it was written back |
| EvfsLru.TouchedIs | addons/evfs/cache.c:218-269 | a hit goes to the end of the list, a miss too, and costs the first once all blocks are in use |
| EvfsLru.CachedIff | addons/evfs/cache.c:335-396 | a cluster is cached if and only if fewer different clusters than there are blocks have been used since its last use |
| EvfsVolume.RunConserves | addons/evfs/view.c:196-363 | over every run of acquire, acquire more, release and expand the idle and busy lists hold each cluster but the first exactly once |
| EvfsVolume.AcquireGrows | addons/evfs/view.c:290-335 | an acquired cluster was not busy before and is zero; the busy clusters keep header and data |
| EvfsVolume.AcquireMoreAllOrNothing | addons/evfs/view.c:337-363 | acquiring more succeeds exactly when there are enough clusters, and a failure leaves the busy clusters as they were |
| EvfsVolume.AcquireUpToCapacity | addons/evfs/view.c:346-352 | exactly as many clusters are handed out as the idle list and the expansions left allow, and so many fewer can be had afterwards |
| EvfsVolume.AcquireMoreCapacity | addons/evfs/view.c:337-363 | what is handed out is gone, and a failed request gives everything back |
| EvfsVolume.AcquireInOrder | addons/evfs/view.c:290-335 | clusters are handed out in the order of the idle list and then of the file, which is expanded only when none is idle |
| EvfsVolume.ReleaseAllReleases | addons/evfs/entries.c:301-331 | a list of clusters goes back to the idle list, each once and in order |
| EvfsVolume.ExpandedSound | addons/evfs/view.c:196-222 | the ids of an expansion follow the old ones and keep the partition |
| EvfsFormat.HeaderRoundTrip | addons/evfs/cluster.h:25-43 | a header comes back from its 12 bytes |
| EvfsFormat.BlankOnDisk | addons/evfs/cluster.c:51-92 | a zeroed cluster is a cluster with a blank header |
| EvfsFormat.Encode32Bytes | addons/evfs/cluster.h:25-43 | a number on disk is the 32-bit value of its bytes, the lowest first |
| EvfsFormat.HeaderBytes | addons/evfs/cluster.h:25-43 | size, next and head stand in this order in the first twelve bytes |
| EvfsFormat.RecordIsOk | addons/evfs/cluster.c:141-149 | a record has magic, cluster size, cluster count and growth in its bytes, in this order behind a header |
| EvfsFormat.HardLegalIff | addons/evfs/cluster.c:187-259 | the test on opening passes a right record if and only if the sizes are allowed |
| EvfsView.Views.WriteHead | addons/evfs/cache.c:863-866 | the header in memory and the one on disk stay the same |
| EvfsView.Views.WriteUserdata | addons/evfs/view.c:380-398 | all bytes are written; or none, for no bytes, past the end of the cluster, or in a cluster that is neither head nor element |
| EvfsView.Views.ReadUserdata | addons/evfs/view.c:400-418 | the bytes of the cluster behind its header, or none past its end or in a cluster that is neither head nor element |
| EvfsView.Views.Expand | addons/evfs/view.c:196-222 | the volume grows as Expand says and the disk with it, and the record in cluster 0 has the new cluster count in its bytes |
| EvfsView.Views.HardExpand | addons/evfs/cluster.c:315-346 | the file size stays cluster size times cluster count, and the record on disk says so |
| EvfsView.Views.AcquireIdle | addons/evfs/view.c:290-335 | the loop expands until a cluster is idle, or gives up |
| EvfsView.Views.AcquireMore | addons/evfs/view.c:337-363 | the loops with their rollback do what AcquireMore says, counters included |
| EvfsView.Views.MoveToIdle | addons/evfs/view.c:270-288 | one busy cluster becomes idle, with a blank header in memory and on disk |
| EvfsView.Views.GiveBack | addons/evfs/entries.c:317-325 | the loop over the clusters of an entry returns each once |
| EvfsView.Views.constructor | addons/evfs/view.c:71-120 | a formatted file has every cluster but the first idle |
| EvfsChain.ReadReturnsSlice | addons/evfs/entries.c:921-1021 | a read returns the slice of the data it asks for, cut at the end, over any number of clusters |
| EvfsChain.WriteCorrectIff | addons/evfs/entries.c:803-919 | a write gives the layout and the count of a file write exactly when it fits |
| EvfsChain.FittingWriteIsCorrect | addons/evfs/entries.c:873-916 | in particular every write to an entry without element clusters, at any offset and size |
| EvfsChain.WriteAtRefused | addons/evfs/entries.c:824-835 | a write that starts inside an element and passes its end reports nothing |
| EvfsChain.WriteKeepsSizes | addons/evfs/entries.c:824-830 | no write at any offset enlarges an element that has a size, or removes one |
| EvfsChain.CannotGrow | addons/evfs/entries.c:824-830 | a layout whose last element is partly used does not become a longer one while elements keep their sizes |
| EvfsChain.LayoutLength | addons/evfs/entries.c:803-844 | how many elements an entry of a size has |
| EvfsChain.PartsRoundUp | addons/evfs/entries.c:803-844 | the elements of n bytes are n over the cluster size, rounded up |
| EvfsGaps.ReadsBackIff | addons/evfs/entries.c:803-1021 | a write is reported whole and every later read is that of a file if and only if it fits, or it outgrows the last cluster without a gap |
| EvfsGaps.OutgrowsAt | addons/evfs/entries.c:887-916 | a write that starts at a cluster or behind the last one leaves all bytes in order, the new ones in clusters of their own |
| EvfsGaps.GapReadsIff | addons/evfs/entries.c:1006-1018 | every read over the seam of such an entry is right exactly when at most one byte lies behind the seam or the cluster before it lacks one byte only |
| EvfsGaps.LosesBytes | addons/evfs/entries.c:824-835 | a write that starts inside an element and outgrows the last one is cut short or leaves too few bytes in use |
| EvfsGaps.AppendExample | addons/evfs/entries.c:824-835 | 30 bytes and then one more, in clusters of 64 bytes: the write reports its byte and reading it returns nothing |
| EvfsChain.HistoryReads | addons/evfs/entries.c:846-1021 | after any history of fitting writes every read returns the slice of the plain byte string |
| EvfsEntries.AddElementKeeps | addons/evfs/entries.c:628-697 | a new element changes nothing outside the chain it joins, costs one cluster, and is missing exactly when there is none |
| EvfsEntries.AddElementNew | addons/evfs/entries.c:628-697 | the new element is empty and zero |
| EvfsEntries.LinkedChain | addons/evfs/entries.c:670-678 | the next pointers of the chain end at the new element |
| EvfsEntries.OtherChains | addons/evfs/entries.c:803-919 | every other entry reads as before |
| EvfsSteps.HeadThenElems | addons/evfs/entries.c:873-916 | the head cluster and the elements together are the entry after the write, and every cluster that is gone is an element of it |
| EvfsSteps.PassElement | addons/evfs/entries.c:890-912 | one round of the walk over the elements is the step of the chain |
| EvfsSteps.WalkStopped | addons/evfs/entries.c:891-896 | a walk that stops for want of a cluster leaves the first elements of those the write comes to, and nothing stored |
| EvfsSteps.TailDone | addons/evfs/entries.c:887-918 | what the walk found and what was written from there on are the elements after the write, or the first of them if clusters ran out, and the count is of the bytes in them |
| EvfsFiles.Files.AddElement | addons/evfs/entries.c:628-697 | the chain is one new element longer if and only if a cluster is to be had, and unchanged otherwise |
| EvfsFiles.Files.WriteElement | addons/evfs/entries.c:803-844 | the recursion over the elements does what the chain does; it stops short only when no cluster is left and the write needs more elements; then the elements are the first of those it comes to, and the count is of the bytes in them |
| EvfsFiles.Files.Walk | addons/evfs/entries.c:887-912 | the loop finds the element a write starts in, stretching the chain; it gives up only when no cluster is left and the write needs more elements, and then the elements are the first of those |
| EvfsFiles.Files.WriteData | addons/evfs/entries.c:846-919 | the entry becomes what the chain makes of it, at the cost of one cluster an element; or no cluster is left, it has the first elements of that, and the count is of the bytes in them; every other entry is unchanged |
| EvfsOps.ReadElement | addons/evfs/entries.c:921-951 | the recursion returns what reading the chain returns |
| EvfsOps.ReadData | addons/evfs/entries.c:953-1021 | the walk and the reads return what reading the chain returns |
| EvfsCreate.CreatedReads | addons/evfs/entries.c:353-386 | a new entry has its name and no data, and the others read as before |
| EvfsCreate.DeletedReads | addons/evfs/entries.c:301-331 | deleting an entry leaves the others as they read |
| EvfsCreate.DeletedInv | addons/evfs/entries.c:279-331 | after a hard delete every busy cluster still belongs to exactly one entry |
| EvfsRuns.CreateOne | addons/evfs/entries.c:528-588 | the model gains an entry with a new id and loses a cluster, or nothing happens, exactly when no cluster is left |
| EvfsRuns.HardDelete | addons/evfs/entries.c:301-331 | each cluster of the chain goes to the idle list once, the head last, and the model loses a closed entry and gains the clusters of its size |
| EvfsShort.ShortWrite | addons/evfs/entries.c:872-919 | a fitting write that finds too few clusters leaves the file cut off behind them, with the whole size on record, and counts the bytes before the cut |
| EvfsShort.SizedWrite | addons/evfs/entries.c:846-919 | a fitting write to an entry that lacks bytes does what it does to a file |
| EvfsShort.SizedRead | addons/evfs/entries.c:953-1021 | every read of an entry that lacks bytes returns the slice of those it has |
| EvfsRuns.WriteEntry | addons/evfs/entries.c:846-919 | a fitting write patches the entry's bytes in the model, cut off behind the last cluster that is to be had, and reports how many of its bytes are stored |
| EvfsRuns.ReportedReadsBack | addons/evfs/entries.c:872-919 | the reported bytes read back from where they were written, and all are reported if and only if there are as many clusters as the new size needs |
| EvfsRuns.RestUnchanged | addons/evfs/entries.c:846-919 | a write leaves the name and every byte outside its slice, fills a gap with zeros, and records the size of the whole |
| EvfsRuns.ReadEntry | addons/evfs/entries.c:953-1021 | a read returns the slice of the bytes that the entry has |
| EvfsRuns.Run | addons/evfs/entries.c:528-1021 | every run to its end answers as plain files with so many clusters to spare would, of which a write takes what it needs, or what there is |
| EvfsLoad.LoadConserves | addons/evfs/entries.c:416-483 | whatever the headers say, every cluster ends in exactly one place, once |
| EvfsLoad.LoadFollows | addons/evfs/entries.c:439-476 | every surviving entry has exactly the elements its next pointers lead to |
| EvfsLoad.LoadRebuilds | addons/evfs/entries.c:439-476 | headers of a file system in order give back its entries, all other clusters idle and none wild |
| EvfsSurvive.SurvivesIff | addons/evfs/entries.c:439-476 | whatever the headers say, an entry outlives loading if and only if its next pointers lead along elements to a proper end and no head of a lower cluster leads to one of them |
| EvfsSurvive.WildIff | addons/evfs/entries.c:439-483 | an element stays wild if and only if no head leads to it |
| EvfsLoad.Recognise | addons/evfs/view.c:122-139 | the loop sorts the clusters into idle, heads and wild elements |
| EvfsLoad.WalkFrom | addons/evfs/entries.c:449-475 | the inner loop ends for any headers and takes the walked elements out of the wild ones |
| EvfsLoad.LoadEntries | addons/evfs/entries.c:439-476 | the loop over the heads is Load |
| EvfsReopen.ReadHeads | addons/evfs/view.c:166-179 | the headers as they stand on disk |
| EvfsReopen.OpenedHolds | addons/evfs/entries.c:500-511 | a file opened again has the same entries with the same content, and as many clusters to spare |
| EvfsReopen.CheckHard | addons/evfs/cluster.c:187-259 | the record that the file system keeps passes the test on opening if and only if cluster and file size are allowed |
| EvfsReopen.StaysOpenableIff | addons/evfs/cluster.c:315-346 | a file that can be opened still can after an expansion if and only if it is then not over 1 GB, which the expansion does not look at |
| EvfsReopen.TooLargeExample | addons/evfs/cluster.c:232-235 | a file of 1 GB opens, and after one expansion it is refused |
| EvfsReopen.Reopen | addons/evfs/entries.c:500-511 | reading the disk alone, the record passes the test exactly when the sizes are allowed, and the headers give back the entries |
| EvfsReopen.Replay | addons/evfs/cache.c:908-923 | a cache that is asked what the views asked, and flushed, has on disk what the views see |
| EvfsReopen.CloseAndReopen | addons/evfs/entries.c:500-511 | after any work through the cache and a flush, the disk behind it alone passes the test exactly when the sizes are allowed, and gives back the entries |
| EvfsRefs.InvStep | addons/evfs/entries.c:145-277 | every critical section of every thread keeps the reference invariant |
| EvfsRefs.ReachSafe | addons/evfs/entries.c:145-277 | the invariant holds in every state that can be reached from one in order |
| EvfsRefs.ReachableSafe | addons/evfs/entries.c:145-277 | from a new head on, mandatory deletes included while they are safe, the count is that of the references out, busy is exclusive, and the head is freed at most once and not while held |
| EvfsRefs.NormalGrants | addons/evfs/entries.c:145-183 | in order, an open and an operation are granted, and exclusive use if and only if no operation is under way |
| EvfsRefs.OthersRefused | addons/evfs/entries.c:145-183 | a head that is busy or waits to close grants nothing and stays as it is |
| EvfsRefs.Told | addons/evfs/entries.c:151-180 | EACCES exactly while a thread has the head to itself or it waits to close, EBUSY exactly for exclusive use during an operation |
| EvfsRefs.GivesBack | addons/evfs/entries.c:222-277 | what is given back is given back once, exclusive use ends with it, and a delete takes no reference away |
| EvfsRefs.LastOneFrees | addons/evfs/entries.c:222-277 | a step has the head freed if and only if it leaves it waiting to close with nobody holding it, for the first time |
| EvfsRefs.CloseWaitGrantsNothing | addons/evfs/entries.c:145-183 | once waiting to close, nothing new is granted in any run |
| EvfsRefs.FreedIff | addons/evfs/entries.c:615-626 | a deleted entry can still be freed exactly when no client kept a handle |
| EvfsRefs.LeakExample | addons/evfs/entries.c:615-626 | a run after which a deleted entry can no longer be freed |
| EvfsRefs.ForceHarmsIff | addons/evfs/entries.c:254-277 | after a mandatory delete some run frees a held head, or frees it twice, if and only if nobody is inside an operation and somebody holds it, or it is being freed |
| EvfsRefs.ForceExample | addons/evfs/entries.c:513-526 | a run to a state in which a mandatory delete is not safe |
| EvfsRefs.Head.CheckReference | addons/evfs/entries.c:145-183 | the in-place fields change, and the answer is, as the step says |
| EvfsRefs.Head.DereferenceHead | addons/evfs/entries.c:222-252 | the in-place fields change as the step says |
| EvfsRefs.Head.TryDeleteHead | addons/evfs/entries.c:254-277 | the in-place fields change as the step says |
| TcpReceive.Reassembly | src/posix/tcpal.c:5-151 | the user gets the bodies, or headers and bodies, of all frames in order if and only if no delivery starts inside the header of a large frame |
| TcpReceive.FramesReassembly | src/posix/tcpal.c:5-151 | then the link ends up as new, with every frame posted |
| TcpReceive.RawStream | src/posix/tcpal.c:34-60 | without a template, what is posted, one after the other, is the stream |
| TcpReceive.ClosesIff | src/posix/tcpal.c:34-105 | a delivery closes the link exactly when it completes a header that the link cannot take, and then posts nothing |
| TcpReceive.BadHeaderCloses | src/posix/tcpal.c:62-105 | such a header closes the link in however many deliveries it comes |
| TcpReceive.ChunkAligned | src/posix/tcpio.c:185-207 | a delivery leaves the link holding exactly the begun part of the next frame |
| TcpReceive.CutHeaderLoses | src/posix/tcpal.c:86-108 | after a cut in a large header fewer bytes are posted than the frames have, for good |
| TcpReceive.CutHeaderExample | src/posix/tcpal.c:86-108 | a concrete stream that loses its frame |
| TcpReceive.RxAllAccounts | src/posix/tcpal.c:5-151 | the link never posts or holds more bytes than it was given, whatever they are |
| TcpReceive.Link.Parse | src/posix/tcpal.c:34-151 | the buffers change in place as the parser step says |
| TcpReceive.Link.ParseMarkedLb | src/posix/tcpal.c:5-32 | a large block takes its bytes and hands back the rest |
| TcpReceive.Link.Receive | src/posix/tcpio.c:185-207 | the parse loop ends and does what a delivery does |
| TcpSend.InvStep | src/posix/tcp.c:965-1012 | every step of writer, worker and kernel keeps order, queue counters and the direct-send rule |
| TcpSend.SendOrder | src/posix/wpool.c:110-157 | over every interleaving the kernel has a prefix of the committed packets in order |
| TcpSend.SendOrderFromStart | src/posix/tcp.c:965-1012 | from a fresh link, and all of them once nothing is queued or in hand |
| TcpSend.LookDecides | src/posix/tcp.c:965-1012 | a packet is sent at once exactly when none is queued |
| TcpSend.SubmitDecides | src/posix/fifo.c:41-74 | a packet, or the rest of one, is queued last exactly when fewer than 100 wait, and then epoll watches; the rest of one always is |
| TcpSend.QueueDrains | src/posix/wpool.c:110-157 | while epoll watches, the worker's steps alone can bring all that is queued to the kernel |
| TcpSend.StalledForGood | src/posix/fifo.c:103-137 | a link that lost its wake-up sends nothing more |
| TcpSend.CalmNeverStalls | src/posix/fifo.c:103-137 | runs that queue nothing between pop and registration change never stall |
| TcpSend.StallsIff | src/posix/fifo.c:103-137 | a link can come to stall by calm steps alone if and only if packets wait and epoll does not watch, or one was queued in the gap |
| TcpSend.OnlyTheGap | src/posix/fifo.c:103-137 | a link that cannot stall can after a step if and only if the step queues a packet in the gap |
| TcpSend.DisarmLosesWakeup | src/posix/fifo.c:103-137 | after the registration change calm steps can stall the link if and only if a packet was queued before it |
| TcpSend.StallExample | src/posix/fifo.c:103-137 | a run that stalls |
| TcpWriters.LineStep | src/posix/tcp.c:965-1012 | every step of any number of writers keeps the packets in order, unless it comes between the first and the last byte of another's packet |
| TcpWriters.WritersInOrder | src/posix/tcp.c:965-1012 | over every run without such a step the kernel is given the committed packets in order and none that was begun is refused |
| TcpWriters.WriterDecides | src/posix/tcp.c:965-1012 | a writer sends at once exactly when none is queued, and is refused exactly when 100 are, never with a begun packet |
| TcpWriters.MixesIff | src/posix/tcp.c:965-1012 | a step can bring packets out of order if and only if it is such a step |
| TcpWriters.TwoWritersMix | src/posix/tcp.c:965-1012 | a run of two writers on a new link that mixes their packets |
| TcpSend.Fifo.Put | src/posix/fifo.c:41-74 | the critical section of fifo_queue, EBUSY at 100 |
| TcpSend.Fifo.Top | src/posix/fifo.c:76-91 | the front of the queue, or ENOENT |
| TcpSend.Fifo.Pop | src/posix/fifo.c:93-137 | the critical section of fifo_pop |
| TcpSend.Txn | src/posix/tcpio.c:245-269 | the partial-send loop gives the kernel the next bytes in order, as many as the answers before the first refusal take, and succeeds when that is all |
| LoggerPool.PoolSafety | src/logger.c:395-459 | for any threads, one flusher at a time being at work: at most 499 admitted, every admitted thread gets a node, records printed once and in order |
| LoggerPool.CountAdmitsIff | src/logger.c:395-402 | a thread is admitted if and only if fewer than 499 are admitted or about to give up |
| LoggerPool.LimitReachedFromStart | src/logger.c:395-402 | a run from the start admits 499 threads |
| LoggerPool.FlushPrintsAll | src/logger.c:434-459 | a flush that starts while no other is at work can print all that is queued |
| LoggerPool.RunInv | src/logger.c:395-459 | every such run keeps the counter, pool and order invariants |
| LoggerPool.AdmittedFindsNode | src/logger.c:204-224 | an admitted thread never finds the pool empty |
| LoggerPool.EveryNodePlaced | src/logger.c:204-233 | every node of the pool is in exactly one place |
| LoggerPool.PeekHarmsIff | src/logger.c:434-459 | a flusher that looks for a record can cause a double print or a wrong counter if and only if another is at work |
| LoggerPool.SecondPeek | src/logger.c:434-459 | from any state in order with a flusher at work, a second one that looks prints the same record again and settles for it again |
| LoggerPool.TwoFlushersPrintTwice | src/logger.c:434-459 | a run from the start that prints a record twice |
| ByteRing.IsPowerOf2Exact | include/compiler.h:225 | the size test accepts exactly the powers of two |
| ByteRing.MaskAdvances | src/cfifo.c:18-40 | the mask follows a wrapping cursor around the ring |
| ByteRing.FirstInFirstOut | src/cfifo.c:13-40 | over every history the bytes taken out and left are the bytes accepted, in order |
| ByteRing.Ring.Put | src/cfifo.c:30-40 | appends as many bytes as there is room for |
| ByteRing.Ring.Take | src/cfifo.c:18-28 | takes out the oldest bytes |
| ByteRing.Ring.Get | src/cfifo.c:87-102 | the same, and an emptied ring starts over |
| ByteRing.Ring.Run | src/cfifo.c:13-116 | every history of calls is that history on a bounded queue |
| ByteRing.Init | src/cfifo.c:42-62 | a ring exactly for power-of-two sizes |
| Md5.PaddedIsWhole | src/hash.c:523-538 | the padded message is whole blocks |
| Md5.PaddedParts | src/hash.c:523-538 | behind the message come one bit, as few zeros as will do, and its length in bits, the lowest byte first |
| Md5.EncodedWords | src/hash.c:438-449 | the digest has the four words in order, each with its lowest byte first |
| Md5.InitBytes | src/hash.c:479-494 | the state at first is the bytes that RFC 1321 lists |
| Md5.FoldBlocks | src/hash.c:496-521 | the blocks go through the transform one after the other, the first one first |
| Md5.FoldAppend | src/hash.c:496-521 | digesting a message in two pieces is digesting it whole |
| Md5.CountAdds | src/hash.c:500-505 | the two-word bit count is right modulo 2^64 |
| Md5.IndexFromCount | src/hash.c:500-500 | the buffer position can be read off the count |
| Md5.Context.Update | src/hash.c:496-521 | the message grows by the input |
| Md5.Context.Final | src/hash.c:523-543 | the digest is the fold over the padded message, and the context is new |
| Md5.DigestOf | src/hash.c:479-543 | any cut of a message into updates gives the digest of the message |
| Crc32.LookupIsEightBits | src/hash.c:116-118 | one table lookup does what eight single bits do |
| Crc32.Chained | src/hash.c:108-122 | the CRC of one non-empty part fed into the next is the CRC of both |
| Crc32.DetectsBursts | src/hash.c:108-122 | messages that differ only within four bytes in a row have different CRCs |
| Crc32.PolyTerms | src/hash.c:87-104 | the constant of the table is the polynomial of ITU-T V.42, the highest terms lowest |
| Crc32.InitialTable | src/hash.c:87-104 | the loops fill the table with the shifted indexes |
| Crc32.Crc | src/hash.c:108-122 | the loop computes the CRC that takes in one bit at a time |
| Crc32.CrcOfParts | src/hash.c:108-122 | two calls over two non-empty parts |
| Des.IpTable | src/hash.c:549-554 | the initial permutation is the table |
| Des.Ip1Table | src/hash.c:557-562 | the final permutation is the table |
| Des.PermutationsCancel | src/hash.c:743-762 | the two permutations undo each other |
| Des.ToBitsAt | src/hash.c:658-692 | bit i of byte j is bit 8 j + i of the block, the lowest first |
| Des.RoundsRecur | src/hash.c:829-856 | the halves follow the recurrence of a Feistel network |
| Des.UnpackPacked | src/hash.c:658-692 | bits packed into bytes come back |
| Des.PackUnpacked | src/hash.c:658-692 | bytes unpacked into bits come back |
| Des.RoundsUndone | src/hash.c:829-895 | the rounds with reversed keys undo the rounds, for any round function |
| Des.CipherUndone | src/hash.c:829-895 | decrypting an encrypted block gives the block |
| Des.DecryptInvertsEncrypt | src/hash.c:898-954 | decrypting an encrypted buffer gives the buffer |
| Des.RunRounds | src/hash.c:840-856 | the loop over the rounds in place is the rounds |
| Des.CipherBuffer | src/hash.c:898-954 | the block loop, with the error for empty and ragged buffers |
| Des.RoundTrip | src/hash.c:898-954 | both loops one after the other give every buffer back |
| CipherTables.TablesInverse | platform-c++/encrypt.cpp:6-30 | the two tables are inverse and no symbol is the padding |
| KeyedCipher.MixBack | platform-c++/encrypt.cpp:53-58 | interleaved bits come apart again |
| KeyedCipher.MixedBit | platform-c++/encrypt.cpp:53-58 | odd bits come from the first byte, even ones from the second |
| KeyedCipher.GroupValue | platform-c++/encrypt.cpp:84-97 | four characters are the digits of three bytes to the base 64 |
| KeyedCipher.UngroupGroup | platform-c++/encrypt.cpp:84-97 | four characters give back their three bytes |
| KeyedCipher.UngroupPadded | platform-c++/encrypt.cpp:99-101 | a padded group gives back the bytes that were data |
| CipherText.BlendedBits | platform-c++/encrypt.cpp:46-60 | each byte becomes two, with its odd bits and with its even bits, between those of the key byte in turn |
| CipherText.PagesAt | platform-c++/encrypt.cpp:80-97 | group i of the text is the group of the i-th three bytes |
| CipherText.TextShape | platform-c++/encrypt.cpp:62-104 | a text has a whole number of groups, and one padding character at its end for every byte missing |
| CipherText.DecryptEncryptIff | platform-c++/encrypt.cpp:32-198 | decryption gives the text back if and only if the key agrees with the one used, and refuses otherwise |
| CipherText.RoundTrip | platform-c++/encrypt.cpp:32-198 | with the tables of the source and the same key the text comes back, whatever the bytes hold that decrypt does not set |
| CipherText.EncryptText | platform-c++/encrypt.cpp:32-119 | the loops of encrypt, with its error cases |
| CipherText.DecryptText | platform-c++/encrypt.cpp:121-198 | the loops of decrypt, with its error cases; a byte that the code does not set may be any |

## Left out

- Sockets, epoll, files, threads, clocks and mutexes themselves: foreign calls, replaced by nondeterministic answers, a disk, or atomic steps.
- The task hand-off threads of evfs: the operations they execute are modelled in sequence.
- `evfs_entries_truncate`: it sizes elements independently of the layout, so entries it has touched are outside the layout of the chain model.
- Entry names: a name is the first 32 bytes of an entry; the name index and the refusal of duplicate names are not modelled.
- Negative offsets in `evfs_entries_write_data`: the code does not refuse them, and the model's offsets are natural numbers.
- Disposal of wild elements after loading: `__evfs_entries_free_element` reads a field that was never set for them; the model stops with the list of wild clusters.
- `__evfs_cache_set_block_num`, `evfs_cache_add_block` and `evfs_cache_write_directly`: resizing and bypassing do not keep the agreement of cache and disk.
- `evfs_hard_open` is modelled as its test of the record (`EvfsReopen.CheckHard`); what it does with locks and file handles is not.
- The UDP send path, the other hashes, base64, `proto_vector_t` and its relatives, the priority task threads, matrices and the Windows sources: easier members or outside the core.
- The E, S and P tables and the key schedule of DES: the inverse holds for any round function and any subkeys, so they are parameters.
- The block transform of MD5: the streaming result holds for any transform, so it is a parameter.
- Des.RunRounds: decryption counts its rounds down; the model runs the same loop over the keys in reverse order.
- EvfsRuns.HardDelete: covers entries that nobody holds, which are freed at once; when an entry that is held is freed is the subject of `EvfsRefs`.
- EvfsFiles.Files.WriteData: a write that finds no cluster on its walk is answered by the code with an error status; the model reports no bytes, as for one that finds none at its end.
- EvfsFiles.Files.AddElement: asks for one cluster at a time, as writes do; the larger requests come from truncation only.
- LoggerPool.PoolSafety: covers the runs in which flushers do not work at the same time; `LoggerPool.PeekHarmsIff` shows that the others are not safe.
- TcpSend.SendOrder: covers one writer per link; `TcpWriters.MixesIff` says when several keep the order.
- TcpWriters.WritersInOrder: packets are their number and their length there, and the worker and epoll are reduced to sending from the queue at any time.
