# DataSpaces in Dafny

A verified model of the parts of DataSpaces that its correctness rests on:

- **Indexing.** How a box of an n-dimensional domain becomes intervals on the Hilbert curve (`include/sfc.h`, `src/bbox.c`), how those intervals are dealt to servers, and why a put and a get of the same data meet at a server (`src/ss_data.c`).
- **Locks.** The custom, generic and version 3 lock services with their clients (`src/ds_gspace.c`, `src/dc_gspace.c`), over whole runs with any number of clients.
- **Transport.** The dissemination barrier (`dart/ib/dart_rpc_ib.c`) and credit flow control (`dart/gni/dart_rpc_gni.c`), over whole runs.
- **Array assembly.** Strided copies between boxes, byte by byte (`src/ss_data.c`), and the single-read fast path of DIMES (`src/dimes_client.c`).
- **Stores.** The DIMES buffer allocator and location metadata (`src/dimes_data.c`), and the version-binned object store (`src/ss_data.c`).

`dafny verify dfyconfig.toml` checks everything.

## How it is organised

| files | subject |
|---|---|
| `Bits`, `Words` | words as natural numbers, bit by bit; multiplication and division by repeated addition |
| `BitTranspose`, `LogTranspose` | the two variants of `bitTranspose` |
| `HilbertCurve`, `HilbertCube`, `HilbertNeighbours`, `HilbertCode` | the rotation/flip automaton, the curve as a bijection that keeps cubes together, neighbours on the curve, the C routines |
| `Intervals`, `Bbox`, `BboxIntervals`, `BboxRing` | interval tables, boxes, the decomposition of a box, the ring-buffer variant |
| `BoxVolume`, `DhtPartition`, `SpaceHashV1`, `SpaceHashV2`, `SpaceBalance` | volumes, shares of the servers, routing with its cache, how even the shares are |
| `LockClients`, `LockCustom`, `LockCustomRuns`, `LockGeneric`, `LockGenericRuns` | clients and messages, the lock objects, whole runs |
| `Barrier`, `BarrierRuns`, `Credit` | the transport protocols |
| `BoxOffset`, `BoxCopy`, `BoxCopyCorrect`, `BoxCopyCode`, `DimesRead` | layout of boxes in buffers, strided copies, remote reads |
| `Allocator`, `Metadata`, `VersionStore` | the stores |

Code that updates things in place is a method or a class; its postcondition ties it to a function or relation, and the lemmas are about that. Protocols are state machines whose steps use the same functions as the classes; a run is any sequence of steps, with no assumption on the states in between. Machine words are natural numbers with explicit truncation. `Mul`, `Quo` and `Rem` are `*`, `/` and `%` (`Words.MulIsProduct`, `Words.QuoRemIsDivMod`).

Boxes are inclusive: `lb[d] <= c[d] <= ub[d]`.

## Model

| member | source | states |
|---|---|---|
| BitTranspose.TransposeAt | include/sfc.h:102-118 | bit b of field d moves to bit d of field b, the meaning of the transpose |
| BitTranspose.TransposeTwice | include/sfc.h:53-119 | transposing with swapped arguments undoes the transpose |
| BitTranspose.BitTransposeSimple | include/sfc.h:102-118 | the bit-by-bit loops compute the transpose |
| LogTranspose.BitTransposeLog | include/sfc.h:58-101 | the log-step variant computes the same transpose for every number of dimensions and bits, odd field widths included |
| HilbertCode.RotateLeft | include/sfc.h:49-50 | the macro is a rotation of nDims bits |
| HilbertCode.RotateRight | include/sfc.h:47-48 | the macro is the opposite rotation |
| HilbertCode.AdjustRotation | include/sfc.h:35-43 | the macro adds the position of the lowest one bit below nDims-1, plus one, modulo nDims |
| HilbertCode.XorScan | include/sfc.h:162-163 | the doubling shifts compute the word whose s-shifted difference is the input |
| HilbertCurve.GrayInverse | include/sfc.h:153-166 | Gray coding and prefix xor are inverse |
| HilbertCurve.RotInverse | include/sfc.h:45-50 | the two rotations are inverse |
| HilbertCurve.DigitsOfRows | include/sfc.h:135-229 | decoding then encoding a digit sequence through the shared rotation/flip automaton gives it back |
| HilbertCurve.RowsOfDigits | include/sfc.h:135-229 | and the other way round |
| HilbertCode.HilbertC2I | include/sfc.h:188-229 | the C code computes `Index`, the curve index of a cell |
| HilbertCode.HilbertI2C | include/sfc.h:135-173 | the C code stores `CellAt`, the cell at an index, and touches no other element of the array |
| HilbertCube.CellAtIndex | include/sfc.h:121-229 | the cell at the index of a cell is that cell |
| HilbertCube.IndexOfCellAt | include/sfc.h:121-229 | the index of the cell at an index is that index, and the cell is in range |
| HilbertCube.IndexInjective | include/sfc.h:175-229 | different cells have different indices |
| HilbertNeighbours.ConsecutiveNeighbours | include/sfc.h:135-173 | what makes it a Hilbert curve: the cells of indices i and i+1 differ by one in exactly one coordinate, for every number of dimensions and bits |
| HilbertCube.CubeIsRun | include/sfc.h:199-227 | the cells of an aligned cube are exactly those whose index starts with the index of the cube: one contiguous range |
| Bbox.IncludesCells | src/bbox.c:105-136 | the inclusion test is inclusion of cells |
| Bbox.MeetsCells | src/bbox.c:138-166 | the intersection test is sharing a cell, for non-empty boxes |
| Bbox.BboxInclude | src/bbox.c:117-136 | computes the inclusion test |
| Bbox.BboxDoesIntersect | src/bbox.c:154-166 | computes the intersection test |
| Bbox.BboxIntersect | src/bbox.c:172-181 | the result holds exactly the cells of both boxes |
| Bbox.ChildCells | src/bbox.c:74-100 | each cell of a box is in exactly the part its coordinates select |
| Bbox.BboxDivide | src/bbox.c:78-100 | fills the 2^n parts in place and leaves the rest of the table alone |
| Bbox.CornerIndices | src/bbox.c:229-266 | both ends of a cube's index range are attained at corners, and the maximum never at corner 0 |
| Bbox.InRun | src/bbox.c:229-266 | an index is in the range of a cube exactly if its cell is in the cube |
| Bbox.BboxFlat | src/bbox.c:229-266 | the loop with its `else if` returns exactly that range |
| Intervals.SortDetermined | src/bbox.c:268-278 | the order of disjoint intervals under intv_compar is unique, so any sort gives the same table |
| Intervals.CompactCorrect | src/bbox.c:280-297 | merging adjacent intervals covers each index as often as before and leaves gaps between intervals |
| Intervals.IntvCompact | src/bbox.c:280-297 | the in-place loop computes that; on an empty table it returns 1 |
| BboxIntervals.DecomposeCount | src/bbox.c:303-380 | the splitting loop emits each index of a cell of the box exactly once, and no other |
| BboxIntervals.TableExact | src/bbox.c:303-380 | the interval table covers exactly the indices of the cells of the box |
| BboxIntervals.TableParts | src/bbox.c:303-380 | the table is sorted, disjoint and non-adjacent |
| BboxIntervals.ComputeBits | src/bbox.c:212-222 | the number of bits of its argument |
| BboxIntervals.BboxToIntv | src/bbox.c:303-380 | the loop terminates and returns that table |
| BboxRing.PopHead | src/bbox.c:386-474 | taking an entry off the ring drops the first live entry and keeps the invariant |
| BboxRing.PushGroup | src/bbox.c:386-474 | a group written at the tail overwrites no live entry and is appended |
| BboxRing.Grow | src/bbox.c:386-474 | enlarging the ring keeps the live entries in order and the group alignment |
| BboxRing.BboxToIntv2 | src/bbox.c:386-474 | up to eleven dimensions the same table as BboxToIntv; with twelve, unless the box is the whole cube, one interval that was never written |
| BboxRing.RingIntervals | src/bbox.c:386-459 | the loop over the ring finds what the queue finds; with twelve dimensions it loses every part of the cube and finds nothing |
| BboxRing.TwelveWrong | src/bbox.c:434-474 | so with twelve dimensions the result is wrong for some content of the unwritten interval, whatever the box |
| BboxRing.MoreThanTwelve | src/bbox.c:426-434 | with more, the first split replaces the ring by a table without slots |
| BoxVolume.BboxVolume | src/bbox.c:200-210 | the product of the sides |
| BoxVolume.CellSetSize | src/bbox.c:200-210 | the volume is the number of cells |
| BoxVolume.TableVolume | src/ss_data.c:457-468 | the table of a box lists as many indices, in increasing order, as the box has cells |
| DhtPartition.ConstructHash | src/ss_data.c:457-506 | server i gets the i-th slice of floor(volume/n) indices of the ordered domain list; neither table is overrun |
| DhtPartition.SharesCover | src/ss_data.c:457-506 | an index has a server exactly if it is among the n*floor(volume/n) lowest |
| DhtPartition.SharesDisjoint | src/ss_data.c:457-506 | and then only one |
| DhtPartition.Leftover | src/ss_data.c:457-506 | the rest of the domain list, exactly volume mod n highest indices, is owned by no server |
| SpaceHashV1.DhtIntersect | src/ss_data.c:430-441 | the two-step test decides whether an interval holds an index of the server |
| SpaceHashV1.ServersExact | src/ss_data.c:557-585 | a server is reported exactly if it owns the index of some cell of the box |
| SpaceHashV1.Rendezvous | src/ss_data.c:557-585 | the owner of a shared cell is reported for both boxes |
| SpaceHashV1.ShFind | src/ss_data.c:147-161 | a hit is an entry for that box, a miss means there is none |
| SpaceHashV1.NextPow2 | include/bbox.h:81-96 | the least power of two above its argument |
| SpaceHashV1.CubeBitsLeast | src/ss_data.c:526-534 | the side of the virtual cube is the least power of two above all upper bounds and above 1 |
| SpaceHashV1.SspaceV1.constructor | src/ss_data.c:508-548 | the shares of a new space are the slices above, the cache is empty |
| SpaceHashV1.SspaceV1.Hash | src/ss_data.c:557-585 | the answer, cached or not, is the computed set of servers, after any number of calls |
| SpaceHashV1.SpaceRendezvous | src/ss_data.c:457-585 | on an allocated space any put and get that share an assigned cell have a server in common |
| SpaceHashV2.DivideIn2OnDim | src/bbox.c:62-72 | every cell of the box is in exactly one half, also when a half is empty |
| SpaceHashV2.MaxDimSize | src/ss_data.c:318-332 | the first longest side |
| SpaceHashV2.SplitLevel | src/ss_data.c:620-636 | the boxes of a level are, in order, the two halves of each box along its first longest side |
| SpaceHashV2.Bisect | src/ss_data.c:587-637 | as many levels of this as it takes to have a box for each server; each cell of the domain in exactly one box |
| SpaceBalance.Balanced | src/ss_data.c:587-637 | if all sides are powers of two, each of the 2^e boxes has exactly volume/2^e cells |
| SpaceBalance.EvenShares | src/ss_data.c:587-678 | and a power-of-two number of servers hold one box each, so equal shares of the cells |
| SpaceHashV2.DealBoxes | src/ss_data.c:655-678 | server j holds boxes j, j+n, j+2n, ... and no others; no table overflows |
| SpaceHashV2.OneServer | src/ss_data.c:587-678 | each cell of the domain is held by exactly one server, any other cell by none |
| SpaceHashV2.RendezvousV2 | src/ss_data.c:587-730 | any put and get that share a cell of the domain have a server in common |
| SpaceHashV2.ReportedShares | src/ss_data.c:704-730 | a server whose boxes are not empty is reported only if it shares a cell |
| SpaceHashV2.SspaceV2.constructor | src/ss_data.c:587-695 | the boxes of a new space are this bisection of the domain, dealt round-robin |
| SpaceHashV2.SspaceV2.Hash | src/ss_data.c:704-730 | the answer, cached or not, is the computed set of servers, after any number of calls |
| LockClients.DcgLock.Lock | src/dc_gspace.c:785-816 | sends the request with the current lock number and waits |
| LockClients.DcgLock.Service | src/dc_gspace.c:824-842 | the grant sets the lock number and ends the wait |
| LockClients.DcgLock.Unlock | src/dc_gspace.c:785-816 | sends the release with the current lock number |
| LockClients.TakeGrantKeeps | src/ds_gspace.c:608-636 | granting a request that arrives keeps every client in a consistent state and adds one holder |
| LockClients.WaitGrantKeeps | src/ds_gspace.c:608-636 | granting a waiting request does the same |
| LockCustom.SemLock.ProcessRequest | src/ds_gspace.c:719-770 | the counters and epochs after each request |
| LockCustom.DrainFifo | src/ds_gspace.c:773-811 | of two waiting requests of one kind and round the earlier is granted first |
| LockCustom.SemLock.ProcessWaitList | src/ds_gspace.c:772-811 | one pass grants every waiting request it can, in order |
| LockCustom.SemLock.Service | src/ds_gspace.c:927-956 | grant, wait or wake up, as the request demands |
| LockCustomRuns.ServeAgrees | src/ds_gspace.c:927-956 | the server of the runs is the lock object's Service |
| LockCustomRuns.StepKeeps | src/ds_gspace.c:719-811 | every step keeps: tokens + holding readers + releases = rd_max in the read phase, one writer token otherwise; no waiting request could be granted |
| LockCustomRuns.RunSafe | src/ds_gspace.c:562-575 | in every reachable state readers and writers exclude each other; the reads of round e follow write release e+1, write e+1 follows all rd_max releases of round e, no client is granted twice in a round; a read of the current round waits only if rd_max readers had it, a write only for a writer |
| LockCustomRuns.NoDeadlock | src/ds_gspace.c:719-811 | with one writer and rd_max readers some client can always proceed |
| LockGeneric.GenericLock.ProcessRequest | src/ds_gspace.c:638-679 | states and counters after each request, version 3 (lines 813-855) included |
| LockGeneric.GenericLock.ProcessWaitList | src/ds_gspace.c:681-717 | grants from the head until one has to wait |
| LockGeneric.GenericLock.Service | src/ds_gspace.c:895-925 | grant, wait or wake up, as the request demands |
| LockGenericRuns.ServeAgrees | src/ds_gspace.c:895-925 | the server of the runs is the lock object's Service |
| LockGenericRuns.StepKeeps | src/ds_gspace.c:638-717 | every step keeps exclusion, arrival order, and a blocked head of the wait list (no lost wake-up) |
| LockGenericRuns.RunSafe | src/ds_gspace.c:638-717 | in every reachable state: never a reader with a writer, nor two writers; who waits, waits for a holder, and a read at the head of the list for a writer; grants follow arrival order. Version 3: no read before the first write release, arrival order within each kind |
| LockGenericRuns.ReadShared | src/ds_gspace.c:644-651 | a read that arrives with nobody waiting and no writer is granted, however many readers hold the lock |
| LockGenericRuns.AllRead | src/ds_gspace.c:638-717 | any number of clients can hold the lock for reading at once |
| LockGenericRuns.NoDeadlock | src/ds_gspace.c:813-893 | no client can move exactly if, in version 3 and before any write release, all wait to read; the generic lock always lets somebody move |
| LockGenericRuns.StuckRun | src/ds_gspace.c:813-893 | version 3 does reach that state, with any number of clients |
| Barrier.Log2Ceil | dart/ib/dart_rpc_ib.c:83-100 | the least k with 2^k >= n; -1 for 0 |
| Barrier.RpcServer.Enter | dart/ib/dart_rpc_ib.c:910-920 | number of the next barrier, first round |
| Barrier.RpcServer.SendRound | dart/ib/dart_rpc_ib.c:141-156 | to whom the number goes in this round |
| Barrier.RpcServer.Poll | dart/ib/dart_rpc_ib.c:936-938 | the wait ends when the partner's number is the own or the next one, modulo 256 |
| Barrier.RpcServer.Arrive | dart/ib/dart_rpc_ib.c:102-106 | the sender's slot holds the number, no other slot changes |
| BarrierRuns.PassKnows | dart/ib/dart_rpc_ib.c:924-938 | after c rounds a rank knows that the 2^c ranks up to it have entered |
| BarrierRuns.Unambiguous | dart/ib/dart_rpc_ib.c:936 | a rank in barrier k sees the number of barrier k-1, k or k+1, so the comparison modulo 256 decides whether the partner has reached k |
| BarrierRuns.StepKeeps | dart/ib/dart_rpc_ib.c:910-947 | every step of every rank keeps the invariant |
| BarrierRuns.RunSafe | dart/ib/dart_rpc_ib.c:910-947 | no rank leaves barrier k before all have entered it |
| BarrierRuns.Progress | dart/ib/dart_rpc_ib.c:910-947 | when all have entered the barrier a rank is in, some rank or message can step |
| BarrierRuns.InnerEnds | dart/ib/dart_rpc_ib.c:910-947 | steps inside barriers come to an end |
| BarrierRuns.QuietMeansLeft | dart/ib/dart_rpc_ib.c:910-947 | when none is left and all have entered the same barrier, all have left it |
| Credit.Node.ProcessSendList | dart/gni/dart_rpc_gni.c:1103-1152 | a server posts the front of its queue, a credit for each message, until the queue is empty or the credits are used up |
| Credit.PassIsSends | dart/gni/dart_rpc_gni.c:1103-1152 | such a pass is a sequence of send steps of the runs |
| Credit.Node.Receive | dart/gni/dart_rpc_gni.c:1833-1843 | counting messages, returning credits and taking returned credits |
| Credit.StepKeeps | dart/gni/dart_rpc_gni.c:1103-1212 | every step keeps: credits + messages under way + received since the last return + returned credits under way = SENDCREDIT, in both directions, and loses or reorders no message |
| Credit.RunSafe | dart/gni/dart_rpc_gni.c:1103-1212 | with at least ten buffers, in every reachable state: the balance above, no mailbox overflow, the cap never bites, and a sender without credits has a message or a credit return under way |
| Credit.DeadForever | dart/gni/dart_rpc_gni.c:1103-1212 | below ten buffers, a sender without credits and with nothing under way stays so in every continuation |
| Credit.Stalls | dart/gni/dart_rpc_gni.c:52-53 | with four to nine buffers a run leads to such a state: the sender is out of credits for good |
| Credit.Overflows | dart/gni/dart_rpc_gni.c:52-53 | with fewer than four, nothing keeps it from overrunning the mailbox |
| BoxOffset.CellAfterOff | src/ss_data.c:246-285 | the row-major position determines the cell |
| BoxOffset.OffAfterCell | src/ss_data.c:246-285 | and every position below the volume is that of a cell of the box |
| BoxOffset.OffStride | src/ss_data.c:246-285 | a step along dimension d moves the position by the product of the sides below d |
| BoxCopy.MatrixInit | src/ss_data.c:181-198 | sides and relative bounds |
| BoxCopy.MovesSound | src/ss_data.c:200-302 | every memcpy of the nested loops is that of a row of the common box, with matching positions |
| BoxCopy.MovesComplete | src/ss_data.c:200-302 | and every row of the common box has its memcpy |
| BoxCopyCorrect.AllMovesFit | src/ss_data.c:200-302 | every memcpy stays inside both buffers |
| BoxCopyCorrect.MovesCorrect | src/ss_data.c:200-302 | together they write every byte of every shared cell with the byte of the same cell of the source, and change no other byte |
| BoxCopyCorrect.TenthDimension | src/ss_data.c:244-249 | with ten dimensions and different lower bounds in the last, the first row is read from the wrong place and no other move writes there |
| BoxCopyCorrect.TenthExact | src/ss_data.c:200-302 | with ten dimensions the moves stay in bounds and copy every buffer rightly if and only if the last lower bounds agree |
| BoxCopyCode.CopyDim | src/ss_data.c:200-302 | the nested loops do these moves in place |
| BoxCopyCode.SsdCopy | src/ss_data.c:851-868 | the destination buffer afterwards, byte by byte |
| BoxCopyCode.SsdCopyList | src/ss_data.c:872-894 | the destination buffer after all pieces |
| BoxCopyCode.CopiedCell | src/ss_data.c:851-868 | a shared cell comes from the piece, any other is as it was |
| BoxCopyCode.Rebuild | src/ss_data.c:872-894 | pieces that agree with one array and cover the query rebuild that array |
| DimesRead.ScheduleDim | src/dimes_client.c:1340-1463 | the nested loops schedule the same moves as reads |
| DimesRead.IsRemoteDataContiguous | src/dimes_client.c:1507-1530 | true exactly if all dimensions but the last are taken in full |
| DimesRead.CalculateOffset | src/dimes_client.c:1532-1549 | the byte offset of the first wanted cell |
| DimesRead.SingleRead | src/dimes_client.c:1684-1697 | one read at that offset fetches byte for byte what the source has in the wanted box, as the strided reads do |
| DimesRead.StridedReads | src/dimes_client.c:1340-1463 | the strided reads fetch what the source has in the wanted box |
| DimesRead.ScheduleRdmaReads | src/dimes_client.c:1465-1505 | so do its two branches |
| DimesRead.FetchReads | src/dimes_client.c:1684-1697 | either way the wanted box is fetched, with one read if it is contiguous |
| Allocator.InsertBlock | src/dimes_data.c:404-423 | the list stays sorted by size and gains the block, in front of blocks of its size |
| Allocator.DimesBuffer.constructor | src/dimes_data.c:480-504 | one free block, the whole buffer |
| Allocator.DimesBuffer.InsertToFreeList | src/dimes_data.c:429-475 | the block merged with both free neighbours |
| Allocator.DimesBuffer.Alloc | src/dimes_data.c:523-589 | best fit, the first on the list; NULL exactly if no free block is large enough; otherwise exactly the bytes from the returned address become used, none of which was; the lists stay sorted |
| Allocator.AllocFree | src/dimes_data.c:523-624 | releasing what was just allocated restores the buffer |
| Allocator.DimesBuffer.Free | src/dimes_data.c:591-624 | releases the used block that starts there, and does nothing for any other address |
| Allocator.SplitKeeps | src/dimes_data.c:523-589 | allocation keeps the tiling and leaves no adjacent free blocks |
| Allocator.MergeKeeps | src/dimes_data.c:429-475 | so does release |
| Allocator.RunSafe | src/dimes_data.c:480-624 | after any sequence of both the blocks tile the buffer, no two free ones are adjacent, and if nothing is in use one free block is the whole buffer |
| Metadata.LiveAfter | src/dimes_data.c:137-174 | a put stays on its list until a later put of that name to that bin meets its box |
| Metadata.Disjoint | src/dimes_data.c:137-174 | the boxes on one list share no cell |
| Metadata.LatestPut | src/dimes_data.c:137-174 | the location that covers a cell is that of the latest put to the bin that covered it |
| Metadata.MetadataStorage.AddObjLocation | src/dimes_data.c:137-174 | after any sequence of puts each list holds exactly the live ones |
| Metadata.MetadataStorage.FindObjLocation | src/dimes_data.c:176-205 | returns exactly the live puts of that name and version that meet the box |
| VersionStore.AddedStored | src/ss_data.c:990-1013 | adding stores the object; only an object of that name and bin that meets its box can be displaced |
| VersionStore.AddedBinned | src/ss_data.c:990-1013 | objects stay in the bin of their version |
| VersionStore.Storage.FindNoVersion | src/ss_data.c:1154-1170 | the first object of the bin with that name whose box meets |
| VersionStore.AddedReplaces | src/ss_data.c:990-1013 | the first object of the bin with that name whose box meets is removed, or marked if in use; the new object comes first; no other bin changes |
| VersionStore.ReplacedSize | src/ss_data.c:990-1013 | the bin keeps its size exactly if an unused object was replaced, and grows by one otherwise |
| VersionStore.Storage.AddObj | src/ss_data.c:990-1013 | the bins, as AddedReplaces says, and the object count afterwards |
| VersionStore.EarlyExit | src/ss_data.c:1091-1117 | an object within one round of bins is found at its own offset, so nothing earlier was skipped |
| VersionStore.Storage.FindNext | src/ss_data.c:1091-1117 | the first object in its bin of that name with the least later version in the whole store, or none if there is none |

## Scope of the statements

- Hilbert routines: `nDims * nBits <= 64`, as the source requires. With 32 dimensions of 2 bits the source shifts a 32-bit value by 32, which C leaves undefined; that single combination is excluded.
- `bitTranspose`: fields of at most 63 bits, and in the bit-by-bit variant at most 63 dimensions, because a shift by 64 is undefined in C. The log-step variant needs an input below 2^(nDims*nBits), as its callers give it.
- Box decomposition: the box is non-empty and inside the virtual cube (otherwise the source loops forever on an empty box and returns one meaningless interval for a box outside), and the cube has a side of at most 2^31 because `bbox_divide` computes midpoints as `int`. At most 30 dimensions, because the source computes `1 << ndims` as an `int`.
- The ring-buffer variant works for up to exactly eleven dimensions, so that its 4096 entries hold two groups; `BboxToIntv2`, `TwelveWrong` and `MoreThanTwelve` say what happens beyond. Version 1 of the hash uses this variant and has the same limit.
- The number of servers is at most the volume of the domain; the source divides by it and assumes a positive share.
- The answer cache is keyed by the box alone, so it is stated for one space per process.
- Custom lock: the number of readers rd_max is at least 1.
- Credit flow: `RunSafe` holds from ten buffers on; `Stalls` and `Overflows` show that it fails below.
- Strided copies: the boxes meet. With ten dimensions the source uses the destination's last coordinate for the source; `TenthExact` says exactly when that does no harm. The single read of DIMES is not affected.
- Allocator: sizes are positive; a request for 0 bytes would put an empty block on the used list.
- Metadata: versions are below 2^31, because the source takes them as `int` to choose the bin.
- `ls_find_next` keeps its best version in an `int` that starts at INT_MAX, so it sees versions below INT_MAX only; `FindNext` says so and otherwise assumes nothing of the stored versions.

## Left out

- Memory allocation failures and error codes.
- Message delivery is first-in first-out per channel; the network, RDMA, MPI and registration calls are not part of this model.
- Credit.Node.ProcessSendList: the client variant, which processes events while it has no credits, appears only as steps of the runs.
- The resend path of the Gemini transport that zeroes the credits, and its separate credits for system messages.
- `qsort` is modelled by insertion sort; `Intervals.SortDetermined` shows that the result does not depend on the algorithm.
- The growth of the interval table by `realloc` is appending to a sequence.
- `ls_find_latest`, whose loop reads one bin past the table and a null pointer.
- Intersection tests between boxes with different numbers of dimensions; objects of one name have the same number.
- Overflow of lock numbers, epochs and 64-bit offsets.
- Checkpoint and restart of the allocator, shared-memory variants, the API wrappers, and remote code execution: they would add easy members or leave the invariants above.
- The Hilbert comparison, vertex and next-in-box routines of `include/sfc.h`, which the index does not use.
- LockClients.DcgLock.Lock: the barrier among the processes of an application around a lock call is left out; one client stands for one application.
- Several locks with different names: locks do not interact, so one is modelled.
