# Overlaybd: a verified model of its concurrent and data-preserving core

Overlaybd serves layered container images as block devices. This Dafny project models the
parts of it where many threads meet or where bytes must survive a transformation, and
proves for every run or every input that they do what they are for.

- **TCMU completion** (`TcmuCompletion`, `TcmuDispatch`): handlers publish responses, elect one
  notifier, collapse notifications and drop the device; the destructor frees it when nothing
  is in flight. Batches of commands are started on vCPUs with 48 slots each.
- **QCOW2** (`Qcow2Format`, `Qcow2Reading`, `Qcow2Layout`, `Partitions`, `Qcow2Convert`): the reader
  finds at every guest offset what was written for it, and refines a
  byte-by-byte view of the disk, and a conversion, of the whole disk or of its root
  partitions, preserves what the guest sees, backing file and encryption included, exactly
  where it can. The cluster descriptors are those of the section "Cluster mapping" of the QEMU
  qcow2 image format specification. `Qcow2Samples` has images that come out wrong.
- **ublk devices** (`HotSwap`, `HotSwapOutcome`, `DeviceLifecycle`, `MountLocks`, `MountOutcome`): the
  hot-swap handshake, the life of a device with every failure point of its start, and the locks
  that keep a writable image from being mounted twice.
- **ublkd** (`LeaseTable`, `LeaseGrants`, `WarmPool`, `PoolServer`): the lease table under handlers
  that yield, and the warm pool with its handlers, one request at a time.
- **Background download** (`Download`, `DownloadOutcome`, `DownloadBlob`, `DownloadQueue`): verified
  copy, switch to the local file, retry queue.
- **Prefetch** (`PrefetchSlices`, `PrefetchTrace`, `PrefetchReplay`): extents cut into reads, the
  checksummed trace, recording and replaying threads.

Concurrent protocols are step functions on values (`Runs`): `Step` says whether an event can
happen in a state and what follows, and a run is any sequence of events that can happen one
after the other, so a lemma about every run covers every interleaving. Beside what every run
keeps, each protocol has its results exactly (a call fails, a request is refused, a mount fails
if and only if one of the named reasons came up in the run) and a lemma that from every reachable
state the work can be finished. Sequential code is classes and methods with loops. What the environment decides (a failing call, a short read,
a timeout, the kernel's choice of a device id) is left open. Assumptions on the environment
are listed at the end.

Results that differ from what the code or its comments suggest, each with its exact condition:

- `swap_image` can return -1 although its target is installed, exactly in the runs where its
  retraction or its second timeout falls inside the queue thread's load-install-clear-signal
  block (`HotSwap.BetrayedIffDisturbed`, example `HotSwap.RetractionRace`). In exactly those runs
  the queue thread has a request in hand whose call has returned, and with it the stack frame
  the request lies in (`HotSwap.DanglesIffDisturbed`).
- `target_` can disagree with the dispatch target when two swap calls overlap
  (`HotSwap.OverlapDisagrees`); at rest it does so exactly when another call was installed and
  recorded between the install and the record of the call that recorded last
  (`HotSwap.DisagreementIsOverlap`). A call is handed back the file behind the dispatch target,
  which the caller then deletes, exactly when the call that installed and recorded last did both
  between its own install and record (`HotSwap.HandedBack`, same example).
- An L2 table that cannot be read in full is taken as empty, so its data is lost without an
  error (`Qcow2Format.TruncatedTableLosesData`); the descriptor read is the stored one exactly
  when the table can be read or the stored descriptor is zero (`Qcow2Format.SeenIsStored`).
- `open` reads the header's backing file and encryption fields and uses neither. A cluster the
  backing file should fill reads as zero and is left out of a conversion, and encrypted clusters
  are copied as stored (`Qcow2Samples.BackingIsIgnored`, `Qcow2Samples.EncryptionIsIgnored`). A
  compressed cluster whose range runs past the end of the file is refused although the guest can
  read it (`Qcow2Format.CutRangeIsRefused`). The reader's byte is the guest's exactly when the
  backing file has nothing but zero there, the payload is not encrypted to another byte, and the
  range is not cut off or the guest cannot have the byte either (`Qcow2Format.SeenIsGuest`).
- The L1 index is kept in 32 bits, so reads from 2^32 L2 tables on return the bytes of the wrapped
  offset (`Qcow2Reading.Qcow2Reader.ReadData`, example `Qcow2Samples.WrapReadsLow`); the descriptor
  is the right one exactly below that, or where the L1 or L2 word at the wrapped index is zero
  (`Qcow2Reading.WrapExactly`).
- Cluster offsets are computed in 64 bits: the list of clusters is ascending exactly when the L1
  table covers at most 2^64 bytes or the disk is empty
  (`Qcow2Reading.Qcow2Reader.GetClusterMappings`, example `Qcow2Samples.ListsTwice`).
- An output offset table is a bijection exactly when the ranges are disjoint
  (`Partitions.BijectionIffDisjoint`, example `Partitions.OverlapCollides`).
- A synchronous DEL that returns an error leaves the kernel device in place, and the code does
  not notice (`DeviceLifecycle.UblkDevice.CtrlDelAndDeinit`).
- A download item that starts with no tries is attempted 2^32 times when it keeps failing, so the
  bound on attempts holds exactly when every item starts with a try
  (`DownloadQueue.BoundExactly`, `DownloadQueue.FailingAttempts`).
- A write cut short inside an allocation unit leaves bytes allocated that it did not write, and a
  resumed download takes them for downloaded (`DownloadBlob.CutWriteMisleads`); the temporary file
  can be resumed from exactly when the remote file is zero there (`DownloadBlob.Download`).
- A remote file that is longer than the expected size cannot be downloaded, however often it is
  tried, exactly when the expected size is not a multiple of the block size: the read of the last
  block brings more than is written, which is taken for a short write (`DownloadBlob.Download`,
  example `DownloadBlob.TooLongFails`).
- The slot of a pooled device is lost exactly when its lease is torn down instead of parked
  (`PoolServer.UblkdServer.Handle`, `PoolServer.UblkdServer.Serve`, example `PoolServer.LoseASlot`).
- The pool serves read-only images on devices announced writable, although the comment at
  `src/ublk/ublkd_main.cpp:81-83` says only writable ones are pooled; the mode announced is the
  image's exactly when the image is writable (`PoolServer.UblkdServer.LeasePooled`, example
  `PoolServer.ServeReadOnly`).
- A replay worker reads into a buffer of 1 MiB whatever the trace asks for, so every read of every
  run fits exactly when no read in the trace is longer (`PrefetchReplay.BufferExactly`, example
  `PrefetchReplay.LongRead`).

## Model

| member | source | states |
|---|---|---|
| TcmuCompletion.OneNotifier | src/main.cpp:164-189 | in every reachable state exactly one handler is in the notify loop when `pending_wakeups` is positive and none when it is zero; `inflight` is the number of commands fetched and unfinished |
| TcmuCompletion.NoLostNotification | src/main.cpp:174-184 | when a notifier leaves its loop, every response counted before has had a `processing_complete` after its publication, although the store of 1 discards counts |
| TcmuCompletion.EveryResponseAnswered | src/main.cpp:164-184 | at every moment each published response has been notified since, is still uncounted, or the current notifier owes one more `processing_complete` |
| TcmuCompletion.QuiescentMeansNotified | src/main.cpp:164-184 | with `pending_wakeups` zero no counted response waits for a notification |
| TcmuCompletion.FreeIsSafe | src/main.cpp:373-380 | when the destructor frees the device every command was published, counted and dropped exactly once and notified, and no handler event is possible any more |
| TcmuCompletion.RunTally | src/main.cpp:164-189 | each command is fetched, published, counted and dropped at most once, as far as its handler has come |
| TcmuCompletion.DrainMeasureDecreases | src/main.cpp:373-380 | once intake has stopped every event before the free strictly decreases a natural measure |
| TcmuCompletion.DrainIsBounded | src/main.cpp:373-380 | after intake stops a run has at most nine events per outstanding command, three per pending wakeup, and the free |
| TcmuCompletion.DrainProgress | src/main.cpp:373-380 | in service or not, no device is stuck: while a command is outstanding some handler can act, and when none is and intake has stopped the destructor can |
| TcmuCompletion.EveryCommandServed | src/main.cpp:164-189 | from every reachable state every fetched command is answered and done after at most six more events, all its own but for the holder of the ring lock leaving the critical section; no intake, stop or other handler is needed |
| TcmuCompletion.Burst | src/main.cpp:164-184 | while a notifier is in its loop any number of new commands can be fetched, published and counted |
| TcmuCompletion.ManyCollapse | src/main.cpp:174-184 | however many responses are counted while one notifier is in its loop, they collapse into one more round |
| TcmuCompletion.CollapseRun | src/main.cpp:174-184 | for every m a run in which m counted responses collapse |
| TcmuCompletion.EveryDeviceFreed | src/main.cpp:373-380 | from every reachable state intake can stop, the outstanding commands be answered and the device freed |
| TcmuCompletion.ExtraRoundsArePaid | src/main.cpp:174-184 | after intake stops the notifier goes round again at most once per command outstanding then |
| TcmuDispatch.StartKeepsBalance | src/main.cpp:327-331 | taking a slot and starting a handler keeps free slots plus active handlers at 48 on each vCPU and the count equal to the running handlers |
| TcmuDispatch.FinishKeepsBalance | src/main.cpp:301-302 | a finishing handler gives its slot back; the active count cannot underflow |
| TcmuDispatch.WorkPool.StartCommand | src/main.cpp:327-331 | a command with a free slot is started once and does not block |
| TcmuDispatch.WorkPool.StartLocal | src/main.cpp:317-318 | the local prefix is started on this vCPU without blocking on the semaphore |
| TcmuDispatch.WorkPool.QueueRest | src/main.cpp:320-324 | the rest of the batch is handed to the pool, each command once |
| TcmuDispatch.WorkPool.DispatchCommands | src/main.cpp:310-325 | every command of a batch is started here or queued, exactly once, and the balance of every vCPU is kept |
| TcmuDispatch.WorkPool.TakeQueued | src/main.cpp:320-331 | a queued command is started on any vCPU, or blocks there when no slot is free |
| TcmuDispatch.WorkPool.FinishHandler | src/main.cpp:301-302 | a finished handler frees its slot and the balance is kept |
| Qcow2Format.FieldsFill62Bits | src/tools/qcow2converter.cpp:736-742 | the offset and sector fields of a compressed descriptor exactly fill bits 0 to 61 for every cluster size |
| Qcow2Format.DecodeEncode | src/tools/qcow2converter.cpp:736-742 | decoding an encoded compressed descriptor gives its fields back whatever bits 62 and 63 hold |
| Qcow2Format.EncodeDecode | src/tools/qcow2converter.cpp:815-820 | encoding the decoded fields with the two top bits gives the descriptor back |
| Qcow2Format.CompressedRange | src/tools/qcow2converter.cpp:741-742 | the compressed byte range is non-empty and ends on a 512-byte boundary |
| Qcow2Format.SeenIsStored | src/tools/qcow2converter.cpp:652-681 | the descriptor the reader uses is the one stored exactly when the table can be read in full or the stored one is zero |
| Qcow2Format.ClassifyIsFormat | src/tools/qcow2converter.cpp:725-761 | the reader's order of tests classifies every descriptor with clear reserved bits as the format does |
| Qcow2Format.SeenIsGuest | src/tools/qcow2converter.cpp:770-876 | with readable tables and clear reserved bits the reader's view of a byte is the guest's exactly when the backing file shows nothing but zero there, the payload is not encrypted to another byte, and no compressed range is cut off by the end of the file unless the guest cannot have the byte; without encryption and backing content, what is delivered is always the guest's |
| Qcow2Format.CutRangeIsRefused | src/tools/qcow2converter.cpp:822-828 | a concrete image with a compressed range past the end of the file that the guest reads and the reader refuses |
| Qcow2Format.TruncatedTableLosesData | src/tools/qcow2converter.cpp:657-663 | a concrete image with a truncated L2 table whose allocated data is seen as zero |
| Qcow2Layout.OffsetField | src/tools/qcow2converter.cpp:54 | a host offset on a 512-byte boundary is bits 9 to 55 of a word, whatever the other bits are |
| Qcow2Layout.OffsetRest | src/tools/qcow2converter.cpp:54 | every word is its offset field, eight bits above and nine below |
| Qcow2Layout.FlagFields | src/tools/qcow2converter.cpp:725-761 | bits 63, 62 and 0 of a descriptor are the copied, compressed and zero flags |
| Qcow2Layout.FeatureFields | src/tools/qcow2converter.cpp:592-617 | dirty and corrupt are ignored, bit 4 makes entries extended, any other feature bit is refused |
| Qcow2Layout.Be64Law | src/tools/qcow2converter.cpp:639-641 | a 64-bit word survives being written big-endian and read |
| Qcow2Layout.Be64Back | src/tools/qcow2converter.cpp:639-641 | eight bytes survive being read and written: none is ignored |
| Qcow2Layout.Be32Law | src/tools/qcow2converter.cpp:564-579 | a 32-bit header field survives being written big-endian and read |
| Qcow2Layout.Be32Back | src/tools/qcow2converter.cpp:564-579 | four bytes survive being read and written: none is ignored |
| Qcow2Layout.HeaderIsRead | src/tools/qcow2converter.cpp:558-643 | a file whose header was written with these fields is accepted exactly when they are in range, the features are supported and header and L1 table can be read, and the image has just these fields |
| Qcow2Layout.FoundThere | src/tools/qcow2converter.cpp:780-785 | byte k of the cluster behind entry j of the table of L1 entry i is looked up just there |
| Qcow2Layout.EveryOffset | src/tools/qcow2converter.cpp:780-785 | every guest offset has one such place |
| Qcow2Layout.EntryRead | src/tools/qcow2converter.cpp:783-807 | the descriptor the reader uses is the one that was written to the file at that place |
| Qcow2Layout.NormalIsRead | src/tools/qcow2converter.cpp:864-872 | a descriptor written for any host offset below 2^56 is read there: each guest byte is the byte of the file at that offset |
| Qcow2Layout.ZeroIsRead | src/tools/qcow2converter.cpp:857-862 | a descriptor with the zero flag reads as zeros |
| Qcow2Layout.CompressedIsRead | src/tools/qcow2converter.cpp:813-849 | a descriptor written for a range of sectors reads as the data that range inflates to, zero past its end, an error when it is longer than a cluster |
| Qcow2Reading.Qcow2Reader.Open | src/tools/qcow2converter.cpp:549-643 | open succeeds exactly on an acceptable header with supported features and a readable L1 table, and sets the geometry and table from it |
| Qcow2Reading.Qcow2Reader.ReadFeatures | src/tools/qcow2converter.cpp:592-617 | the version 3 feature bits decide extended entries and rejection; a short extension is ignored |
| Qcow2Reading.Qcow2Reader.DecodeWords | src/tools/qcow2converter.cpp:639-641 | decoding a buffer gives the big-endian words stored at each entry |
| Qcow2Reading.Qcow2Reader.ReadL2Table | src/tools/qcow2converter.cpp:652-681 | the table holds the stored descriptors, or zeros when it cannot be read in full |
| Qcow2Reading.Qcow2Reader.MapEntry | src/tools/qcow2converter.cpp:725-761 | each mapping has the flags and, for compressed clusters, the byte range of its descriptor's class |
| Qcow2Reading.Qcow2Reader.MapL1Entry | src/tools/qcow2converter.cpp:689-764 | the clusters of one L1 entry are appended in order up to the virtual size, with offsets in 64 bits |
| Qcow2Reading.Qcow2Reader.GetClusterMappings | src/tools/qcow2converter.cpp:683-768 | the list has every cluster below both the virtual size and the L1 coverage exactly once, ascending, classified as the reader takes it, if the coverage fits in 64 bits; it is ascending exactly then, or on an empty disk |
| Qcow2Reading.Qcow2Reader.ReadCompressed | src/tools/qcow2converter.cpp:822-849 | a compressed cluster is the inflated bytes padded to the cluster, or an error when the read is short or inflating fails |
| Qcow2Reading.Qcow2Reader.ReadEntry | src/tools/qcow2converter.cpp:807-872 | a chunk has the bytes of its descriptor's class, short only past the host's end |
| Qcow2Reading.Qcow2Reader.ReadChunk | src/tools/qcow2converter.cpp:780-872 | the bytes of one cluster are those of the reader's view |
| Qcow2Reading.Qcow2Reader.ReadData | src/tools/qcow2converter.cpp:770-876 | for every offset and count the first r bytes of the buffer are the byte view from the wrapped offset on, across any mix of clusters; fewer than asked only at a short host read; -1 only when the view has no such byte; the rest of the buffer is untouched |
| Qcow2Reading.WrapExactly | src/tools/qcow2converter.cpp:783-789 | the descriptor at the wrapped offset is that of the offset asked for exactly below 2^32 L2 tables, or where the L1 word at the wrapped index or the L2 word it leads to is zero, and then the bytes agree |
| Qcow2Reading.BeyondTable | src/tools/qcow2converter.cpp:786-789 | past the L1 table the view is zero, so the early exit is right |
| Qcow2Reading.DeliveredOrNot | src/tools/qcow2converter.cpp:770-876 | a read is never both delivered in full and undeliverable |
| Partitions.ThereAndBack | src/tools/qcow2converter.cpp:368-379 | an offset in a range is found again from its output offset, which is below the total |
| Partitions.BackAndThere | src/tools/qcow2converter.cpp:368-379 | with disjoint ranges every output offset below the total is reached from the offset it belongs to |
| Partitions.ToOutputDefined | src/tools/qcow2converter.cpp:368-379 | an offset has an output exactly when some range covers it |
| Partitions.BijectionIffDisjoint | src/tools/qcow2converter.cpp:358-379 | the map onto the outputs below the total is a bijection exactly when the ranges are pairwise disjoint |
| Partitions.OverlapCollides | src/tools/qcow2converter.cpp:368-379 | two overlapping ranges with an output offset that its disk offset is not written to |
| Partitions.ClusterMovesWhole | src/tools/qcow2converter.cpp:368-379 | with aligned ranges all bytes of a cluster keep their distance from its start in the output |
| Partitions.PartitionFilter.OverlapsRootfs | src/tools/qcow2converter.cpp:344-355 | whether a byte interval meets any range; everything passes without a filter |
| Partitions.PartitionFilter.TotalRootfsSize | src/tools/qcow2converter.cpp:358-365 | the sum of the range lengths |
| Partitions.PartitionFilter.ToOutputOffset | src/tools/qcow2converter.cpp:368-379 | the loop finds the first covering range's output offset, or UINT64_MAX |
| Qcow2Convert.Target.Pwrite | src/tools/qcow2converter.cpp:967-972 | a full write overlays the bytes, anything else is reported and counted as a fault |
| Qcow2Convert.Target.PunchHole | src/tools/qcow2converter.cpp:948-954 | a punched range reads as zero and nothing else changes; anything else is reported and counted as a fault |
| Qcow2Convert.SkipKeepsProgress | src/tools/qcow2converter.cpp:932-945 | a cluster that is unallocated or has no place may be skipped: its bytes are right already |
| Qcow2Convert.WriteKeepsProgress | src/tools/qcow2converter.cpp:946-973 | writing a cluster puts its bytes in place and disturbs no other cluster's |
| Qcow2Convert.PaddedRead | src/tools/qcow2converter.cpp:956-966 | a short final read padded with zeros is the cluster's content |
| Qcow2Convert.ConvertCluster | src/tools/qcow2converter.cpp:929-980 | one turn of the loop puts one more cluster in place, exactly when no write fails and no byte to be written cannot be had |
| Qcow2Convert.Convert | src/tools/qcow2converter.cpp:881-989 | with an L1 table of at most 2^64 bytes, ranges on cluster boundaries and an all-zero target, a return of 0 means every byte with a place in the output has arrived there, and it fails exactly when there is nothing to extract, a write fails or a byte to be written cannot be had |
| Qcow2Convert.ConvertForGuest | src/tools/qcow2converter.cpp:881-989 | without encryption and without anything but zeros in the backing file, a return of 0 makes the target the guest's disk byte by byte, or exactly the concatenation of disjoint ranges' guest bytes; it fails exactly as Convert does |
| Qcow2Convert.FullDiskPreserved | src/tools/qcow2converter.cpp:881-989 | a target on which every byte has arrived is the guest's disk, where nothing is encrypted and the backing file has only zeros to show |
| Qcow2Convert.ExtractAt | src/tools/qcow2converter.cpp:368-379 | the concatenation of the ranges' guest bytes, position by position |
| Qcow2Convert.RootfsPreserved | src/tools/qcow2converter.cpp:929-970 | under the same conditions a target on which every byte has arrived is exactly the concatenation of disjoint ranges' guest bytes in table order |
| Qcow2Samples.BackingIsIgnored | src/tools/qcow2converter.cpp:549-643 | for every backing file name offset, an image `open` accepts on which the guest sees the backing byte where the reader and a conversion have zero |
| Qcow2Samples.EncryptionIsIgnored | src/tools/qcow2converter.cpp:549-643 | for every encryption method, an image `open` accepts on which the guest sees plain text where the reader and a conversion have the stored byte |
| Qcow2Samples.WrapReadsLow | src/tools/qcow2converter.cpp:783-789 | an accepted image on which a read inside the disk delivers the byte of offset 0 |
| Qcow2Samples.ListsTwice | src/tools/qcow2converter.cpp:683-768 | an accepted image whose list of clusters is not ascending |
| HotSwap.OneTargetPerIo | src/ublk/ublk_device.cpp:160-185 | an I/O keeps the target it was dispatched with until it completes |
| HotSwap.ResultsAreHonest | src/ublk/ublk_device.cpp:906-944 | without interference 0 means the request was applied, and -1 that it was not and will not be |
| HotSwap.BetrayedIffDisturbed | src/ublk/ublk_device.cpp:308-321 | a failed call whose target is or will be installed exists exactly when the control side acted inside the queue thread's block |
| HotSwap.AtomicIsUndisturbed | src/ublk/ublk_device.cpp:308-321 | with the block as one step no run is disturbed |
| HotSwap.ReplacedIsUnused | src/ublk/ublk_device.cpp:308-321 | the target an applied request replaced is neither dispatched to nor held by a running I/O, in any run |
| HotSwap.RunKeepsQueue | src/ublk/ublk_device.cpp:308-321 | the one pending request is a posted one and is applied at most once |
| HotSwap.DisagreementIsOverlap | src/ublk/ublk_device.cpp:906-944 | in an undisturbed run with no active call `target_` disagrees with the dispatch target exactly when another call was installed and recorded between the install and the record of the call that recorded last |
| HotSwap.AgreementExactly | src/ublk/ublk_device.cpp:938-943 | in any run they agree exactly when the last recording call is the last installed |
| HotSwap.DanglesIffDisturbed | src/ublk/ublk_device.cpp:310-316 | the queue thread has the request of a returned call in hand at some moment exactly when the control side interfered |
| HotSwap.QuiescentAgreement | src/ublk/ublk_device.cpp:906-944 | with calls one at a time and no interference they agree whenever no call is active |
| HotSwap.OverlapDisagrees | src/ublk/ublk_device.cpp:906-944 | a run of two overlapping calls that ends in disagreement and hands the file in use back for deletion |
| HotSwap.HandedBack | src/ublk/ublk_device.cpp:938-943 | the file handed back to a recording call is used by no I/O unless it is the one behind the dispatch target, and it is that exactly when the call that installed and recorded last did both between the install and the record of this one |
| HotSwap.RetractionRace | src/ublk/ublk_device.cpp:926-932 | a run where a retracted request is installed all the same |
| HotSwapOutcome.LostExactly | src/ublk/ublk_device.cpp:906-937 | in every run a call has returned -1 if and only if the queue had exited when it entered, another call's request was pending when it posted, it took its own request back, or its second wait timed out; I/O in flight is no reason |
| HotSwapOutcome.TimedOutFirst | src/ublk/ublk_device.cpp:924-937 | a call takes its request back or waits again only after its first wait has timed out |
| HotSwapOutcome.EveryCallReturns | src/ublk/ublk_device.cpp:906-944 | whatever the queue thread and other calls do, a call returns after at most five more steps of its own |
| HotSwapOutcome.AnyCallEnters | src/ublk/ublk_device.cpp:906-911 | a call can be made at any time and goes on to post exactly when the queue has not exited |
| HotSwapOutcome.AnyIoServed | src/ublk/ublk_device.cpp:160-185 | while the queue thread polls, any I/O is accepted, run on the current target and finished, swap pending or not |
| HotSwapOutcome.SwapGoesThrough | src/ublk/ublk_device.cpp:308-321 | in every undisturbed run, as long as the queue has not exited, a call that has not returned can still succeed, whatever I/O is in flight and whatever is pending |
| DeviceLifecycle.UblkDevice.Start | src/ublk/ublk_device.cpp:946-1060 | it succeeds exactly when every step does; whichever step fails, no thread, device, ctrl handle, image or target remains, and exactly an added kernel device is deleted or its deletion pending, unless the synchronous DEL failed |
| DeviceLifecycle.UblkDevice.OpenImage | src/ublk/ublk_device.cpp:946-983 | the lock, image and wakeup channel are acquired once, exactly as far as the steps succeed, and a failure leaves no image or target |
| DeviceLifecycle.UblkDevice.StartQueue | src/ublk/ublk_device.cpp:1019-1058 | 0 exactly when the device, the thread and START_DEV come up; any failure leaves nothing |
| DeviceLifecycle.UblkDevice.CtrlDelAndDeinit | src/ublk/ublk_device.cpp:421-447 | exactly one DEL is sent, the handle is gone, and the kernel device is deleted, being deleted or, after a failed synchronous DEL, still there |
| DeviceLifecycle.UblkDevice.CleanupFailedStart | src/ublk/ublk_device.cpp:681-695 | everything acquired so far is released once |
| DeviceLifecycle.UblkDevice.Stop | src/ublk/ublk_device.cpp:118-122 | stop only asks and may be repeated |
| DeviceLifecycle.UblkDevice.Wait | src/ublk/ublk_device.cpp:1062-1074 | wait joins the thread and releases the device once, and may be repeated |
| DeviceLifecycle.UblkDevice.Teardown | src/ublk/ublk_device.cpp:1076-1104 | teardown acts once and sends the DEL exactly when the owner asked for the stop or the queue still runs |
| DeviceLifecycle.UblkDevice.Destroy | src/ublk/ublk_device.cpp:132-142 | after the destructor every resource is settled |
| DeviceLifecycle.UblkDevice.WaitThenTeardown | src/ublk/ublk_device.cpp:1076-1104 | a device stopped from outside is not deleted by its owner |
| DeviceLifecycle.AnyLife | src/ublk/ublk_device.cpp:946-1104 | over start, any sequence of stop, wait and teardown, and the destructor each resource is released exactly once, at most one DEL is sent, a started device keeps its kernel device exactly when its teardown came after an end the owner had not asked for, or the DEL failed, and a failed start leaves one exactly when it was added and the DEL failed |
| MountLocks.OneHolder | src/ublk/ublk_device.cpp:522-558 | in every run each image and instance directory has at most one holder |
| MountLocks.WritableOpenOnce | src/ublk/ublk_device.cpp:560-755 | in every run a writable image is open in at most one device, CLI or daemon |
| MountLocks.LockAsAsked | src/ublk/ublk_device.cpp:586-755 | a device holds the lock its request calls for: a writable image `inst0`, an explicit request the valid instance it named, an automatic one a numbered slot; an explicit instance of a writable image is refused and only a daemon opens a read-only image without a lock |
| MountLocks.LowestFreeSlot | src/ublk/ublk_device.cpp:624-635 | an automatic mount holds a slot below 64, each lower slot having been found held when it was tried; a mount that fails for lack of slots found all 64 held |
| MountOutcome.SlotNamesDiffer | src/ublk/ublk_device.cpp:624-626 | two slots never share a directory |
| MountOutcome.AutoMount | src/ublk/ublk_device.cpp:624-638 | an automatic mount at any moment gets the lowest slot free then, and fails exactly when all 64 are held |
| MountOutcome.ManyHeld | src/ublk/ublk_device.cpp:624-638 | up to 64 automatic mounts of one image can be held at once, each in its own directory |
| MountOutcome.FailedExactly | src/ublk/ublk_device.cpp:560-638 | in every run a mount stands failed if and only if it named an invalid instance or one of a writable image, its lock or the last slot was held, or a file could not be made, and it has not gone since |
| MountOutcome.AnyMountBegins | src/ublk/ublk_device.cpp:560-755 | any device can ask for any image at any time |
| MountOutcome.EveryMountDecided | src/ublk/ublk_device.cpp:560-755 | whatever other devices do, a mount is open or failed after at most 65 steps of its own |
| MountOutcome.ExitFrees | src/ublk/ublk_device.cpp:522-543 | a device can go away at any time and exactly its lock is free then |
| LeaseTable.OneSharedDevice | src/ublk/ublkd_main.cpp:316-489 | in every run an image has at most one running shared device, the index points exactly at it, and it is never writable |
| LeaseTable.RefcountIsLeases | src/ublk/ublkd_main.cpp:316-489 | the reference count of a running device is the leases granted less those given back, and at least one |
| LeaseTable.TornDownOnce | src/ublk/ublkd_main.cpp:222-264 | a listed device is in the table or erased, never both, is torn down and erased at most once in that order, and while stopping has exactly one draining handler, which still has its entry |
| LeaseTable.IndexedIsRunning | src/ublk/ublkd_main.cpp:340-361 | in every run an indexed device is listed, shared, running and of the path it is indexed under, so the stopping and stale branches of acquire are never taken |
| LeaseTable.StepKeepsInv | src/ublk/ublkd_main.cpp:173-489 | every request and every resumption keeps the guard, the index and the draining discipline |
| LeaseTable.StepKeepsLeases | src/ublk/ublkd_main.cpp:173-489 | every request and every resumption keeps the account of device objects and leases |
| LeaseGrants.SharedOnlyIfAsked | src/ublk/ublkd_main.cpp:316-434 | in every run two handlers ever granted one device both asked to share with sharing on; one that did not has a device of its own with an entry that is not shared; each is granted the image it asked for |
| LeaseGrants.RefusedExactly | src/ublk/ublkd_main.cpp:173-489 | in every run a handler was refused with a code if and only if a reason for that code came up: unknown config, another start of the image under way and no shared device to be had, a failed start, a writable image to be shared, a device not listed, shared or going away |
| LeaseGrants.GrantedExactly | src/ublk/ublkd_main.cpp:316-434 | in every run a handler was granted a lease if and only if it asked to share and its image had a running shared device, which it then got, or the device it started came up and was not a writable one to be shared |
| LeaseGrants.AnyRequestTaken | src/ublk/ublkd_main.cpp:173-489 | any request can be made at any time |
| LeaseGrants.EveryRequestAnswered | src/ublk/ublkd_main.cpp:173-489 | whatever other handlers do, a request is answered after at most two more steps of its own, and a device being started can come up under any free id |
| LeaseGrants.StartMayFail | src/ublk/ublkd_main.cpp:206-211 | a failed start is answered with 500 and the image can be started again |
| LeaseGrants.RestIsClean | src/ublk/ublkd_main.cpp:173-489 | once every request has been answered no image is guarded and no device is going away |
| LeaseGrants.RunningIffHeld | src/ublk/ublkd_main.cpp:441-489 | a device ever listed runs exactly as long as not all its leases have been given back |
| WarmPool.Park | src/ublk/ublkd_main.cpp:582-613 | parking a new device keeps ownership, slots and capacity |
| WarmPool.Take | src/ublk/ublkd_main.cpp:501-533 | moving an idle device to the lease table keeps ownership, slots and capacity |
| WarmPool.Return | src/ublk/ublkd_main.cpp:539-569 | parking a lease on its own placeholder keeps ownership, slots and capacity |
| WarmPool.DropIdle | src/ublk/ublkd_main.cpp:515-525 | destroying an idle device frees its slot |
| WarmPool.DropLease | src/ublk/ublkd_main.cpp:480-485 | destroying a lease keeps everything else, and exactly the slot of a pooled one is lost |
| WarmPool.SlotDropLease | src/ublk/ublkd_main.cpp:480-485 | tearing a lease down keeps the account of slots and adds exactly a pooled lease's slot to the lost ones |
| WarmPool.SlotCount | src/ublk/ublkd_main.cpp:501-613 | free, parked, leased and lost slots together are all the slots ever taken |
| PoolServer.OneOwner | src/ublk/ublkd_main.cpp:316-613 | between requests a live device is leased under its own id or parked, never both, and once |
| PoolServer.EverySlot | src/ublk/ublkd_main.cpp:501-613 | between requests slots of parked devices, pooled leases, the free list and lost ones are pairwise distinct, below the next slot, and add up to it |
| PoolServer.UblkdServer.constructor | src/ublk/ublkd_main.cpp:84-88 | the high mark is never below the low mark |
| PoolServer.UblkdServer.TakePooled | src/ublk/ublkd_main.cpp:501-533 | the first idle device that matches gets the image exactly when the swap goes through; when it fails that device is destroyed and its slot freed; when none matches nothing changes; no slot is lost |
| PoolServer.UblkdServer.ReturnToPool | src/ublk/ublkd_main.cpp:539-569 | a device is parked exactly below the high mark with nothing in the way, on its own placeholder; otherwise nothing changes |
| PoolServer.UblkdServer.TakeSlot | src/ublk/ublkd_main.cpp:585-591 | the slot is the last freed one, or a new one when none is free |
| PoolServer.UblkdServer.RefillOne | src/ublk/ublkd_main.cpp:583-612 | one more device is parked exactly when its placeholder and its start succeed; otherwise the slot is free |
| PoolServer.UblkdServer.RefillPool | src/ublk/ublkd_main.cpp:582-613 | refilling never exceeds the low mark, stays below it only because the next device fails, disturbs no device and keeps the invariant on every failure |
| PoolServer.UblkdServer.LeasePooled | src/ublk/ublkd_main.cpp:371-390 | an exclusive lease comes from the pool exactly when an idle device matches and the swap goes through, on the first that matches, and then the announced mode is the image's exactly when the image is writable |
| PoolServer.UblkdServer.LeaseNew | src/ublk/ublkd_main.cpp:392-434 | a new device is leased exactly when it starts and is not a writable one to be shared |
| PoolServer.UblkdServer.LeaseDevice | src/ublk/ublkd_main.cpp:364-412 | the reply is exactly that of the pool try and, failing that, of the start: 500 when the image does not open for the pool or the start fails, 400 for a writable image to be shared, otherwise the device; a device that could not be swapped is gone |
| PoolServer.UblkdServer.HandleAcquire | src/ublk/ublkd_main.cpp:316-439 | the reply is exact for every state and environment; a grant is one more holder of the path's shared device with the path's image behind it, exactly when there is one, or a fresh lease on a device with that image, after which the pool is refilled; a refusal changes no lease; no slot is lost |
| PoolServer.UblkdServer.HandleAdd | src/ublk/ublkd_main.cpp:173-220 | a grant is a fresh lease on a device started for the image |
| PoolServer.UblkdServer.HandleRelease | src/ublk/ublkd_main.cpp:441-489 | one holder less, or the last lease parked on its own placeholder exactly when that is possible, else destroyed and a pooled one's slot lost; no other device is touched |
| PoolServer.UblkdServer.HandleDelete | src/ublk/ublkd_main.cpp:222-264 | an exclusive device is destroyed and a pooled one's slot lost, a shared or unknown one is refused and nothing changes |
| PoolServer.UblkdServer.RemoveDevice | src/ublk/ublkd_main.cpp:481-485 | the device is gone, and a slot is lost exactly when the lease was pooled |
| PoolServer.UblkdServer.Handle | src/ublk/ublkd_main.cpp:173-489 | the reply to each request is exact, and a lease is torn down exactly by a delete of an exclusive device or by a last release that does not park it |
| PoolServer.UblkdServer.Shutdown | src/ublk/ublkd_main.cpp:94-113 | no device is left |
| PoolServer.UblkdServer.Serve | src/ublk/ublkd_main.cpp:173-613 | any sequence of requests keeps the invariant and the id and announced capacity of every device, the image behind each has that capacity, and the slots lost are exactly those of the pooled leases torn down, each by a request that names its id |
| PoolServer.LoseASlot | src/ublk/ublkd_main.cpp:474-485 | a run after which a slot is neither free, parked nor leased |
| PoolServer.ServeReadOnly | src/ublk/ublkd_main.cpp:501-533 | a run in which a device announced writable has a read-only image behind it |
| PoolServer.Daemon | src/ublk/ublkd_main.cpp:84-113 | a whole life of the daemon leaves no device behind |
| Download.SwitchFile.SetSwitchFile | src/switch_file.cpp:77-100 | a commit file with the layer's digest shows what the remote file shows; the switch fails exactly when the file cannot be opened or a step it needs goes wrong, and leaves the reader on the file it had |
| Download.SwitchFile.Read | src/switch_file.cpp:117-124 | a read returns the range of the remote file, switched or not |
| Download.SwitchedIsVerified | src/bk_download.cpp:59-63 | in every run the commit file a downloader switches to has the digest the switch asks for |
| Download.CommitIsVerified | src/bk_download.cpp:65-130 | in every interleaving a commit file the downloaders made hashes to the layer's digest, and one already there never changes |
| Download.SwitchIsTransparent | src/bk_download.cpp:59-130 | when the digest determines the content, every reader sees the remote file's bytes before and after the switch |
| Download.RunKeeps | src/bk_download.cpp:117-130 | at most one downloader is inside a directory, it finds no commit file while it copies, and its sum is that of the temporary file |
| DownloadOutcome.CommittedExactly | src/bk_download.cpp:65-102 | in every run a directory has a commit file if and only if it had one at the start or a temporary file with the layer's digest was renamed |
| DownloadOutcome.SwitchedExactly | src/bk_download.cpp:59-63 | in every run a reader is on the local copy if and only if its downloader opened the commit file, which is there whenever one tries |
| DownloadOutcome.RunKeepsHeld | src/bk_download.cpp:117-130 | a directory is locked only while some downloader is inside |
| DownloadOutcome.EveryDownloadEnds | src/bk_download.cpp:104-130 | from every reachable state a downloader can end; at most the holder of its directory has to leave first |
| DownloadOutcome.EveryLayerArrives | src/bk_download.cpp:65-130 | from every reachable state a waiting downloader of a layer with the right bytes can bring it: the copy is committed and its reader is on it |
| DownloadBlob.LocalFile.SeekHole | src/bk_download.cpp:172-177 | everything between the offset and the hole found lies in allocated units, and the hole does not |
| DownloadBlob.WriteAgrees | src/bk_download.cpp:197-205 | after a write the allocated bytes are still the remote file's exactly when it is zero wherever the write allocated more than it wrote |
| DownloadBlob.SoundIsAgrees | src/bk_download.cpp:197-205 | where all bytes written are the remote file's, all allocated ones are exactly when it is zero at those never written |
| DownloadBlob.WriteSound | src/bk_download.cpp:197-205 | a write of remote bytes, cut short or not, keeps every byte written the remote file's |
| DownloadBlob.NoStray | src/bk_download.cpp:197-205 | a write between unit boundaries or to the end of the file allocates nothing it does not write |
| DownloadBlob.CutWriteMisleads | src/bk_download.cpp:172-205 | a cut write that leaves a block without a hole and not the remote file's |
| DownloadBlob.CopyBlock | src/bk_download.cpp:180-206 | without a short read a block copied successfully is the remote file's and what was written stays so in any case; nothing outside changes; a copy fails only after two failures or when the read brings more than the block, and without trouble exactly then |
| DownloadBlob.Download | src/bk_download.cpp:132-210 | without short reads a file whose allocated bytes are the remote file's is such a file again on every exit exactly when the remote file is zero wherever bytes are allocated and were never written, of which none are new unless the highest write stopped inside a unit; a success, forced or resumed, is the remote file; without trouble it succeeds exactly when the remote file is not too long or the last block is complete, and otherwise fails only after two failures or when the image was closed; a block without a hole is not fetched again |
| DownloadBlob.TooLongFails | src/bk_download.cpp:179-205 | a copy that fails although nothing goes wrong, because the remote file is longer than expected |
| DownloadQueue.BkDownloadProc | src/bk_download.cpp:212-268 | on every schedule each item is freed exactly once, attempts and lock-winning iterations are those of the iterations one by one, and at most what the items are good for |
| DownloadQueue.Conserved | src/bk_download.cpp:221-257 | after every schedule each item is in the queue or freed, once |
| DownloadQueue.Spent | src/bk_download.cpp:221-257 | after every schedule attempts made and attempts left are at most what the items started with |
| DownloadQueue.NoneGivenUpEarly | src/bk_download.cpp:221-257 | on every schedule, while the image is open, items leave the queue only because one was downloaded or found there, or because all their tries were spent on attempts |
| DownloadQueue.BusyRotates | src/bk_download.cpp:236-239 | an item whose lock is taken goes behind all others, so every item comes first in its turn |
| DownloadQueue.FailingAttempts | src/bk_download.cpp:132-134 | when every download fails each item is attempted exactly as often as it has tries, and 2^32 times when it has none |
| DownloadQueue.BoundExactly | src/bk_download.cpp:132-134 | on every schedule attempts stay within the initial tries, exactly when every item starts with at least one |
| PrefetchSlices.AlignUp | src/prefetch.cpp:445 | the least multiple of 512 not below the size |
| PrefetchSlices.SliceExtent | src/prefetch.cpp:458-474 | an extent is queued as reads of 1 byte to 1 MiB that cover it byte by byte in order |
| PrefetchSlices.GetExtents | src/prefetch.cpp:432-477 | the queued reads cover exactly the first min(aligned size, total length) bytes of the extents in order, or of those before replay was stopped |
| PrefetchTrace.RecordRoundTrip | src/prefetch.cpp:200-205 | a record survives its 24-byte layout |
| PrefetchTrace.BytesRoundTrip | src/prefetch.cpp:200-205 | every 24 bytes are the layout of the record read from them, padding included |
| PrefetchTrace.HeaderRoundTrip | src/prefetch.cpp:207-211 | the header survives its 24-byte layout |
| PrefetchTrace.TraceRoundTrip | src/prefetch.cpp:231-315 | a dumped trace is accepted and holds exactly the records dumped |
| PrefetchTrace.WriteTrace | src/prefetch.cpp:250-273 | the file is the whole trace exactly when no write fails, and empty otherwise |
| PrefetchTrace.Prefetcher.Dump | src/prefetch.cpp:231-284 | a dump with an open file writes the whole trace exactly when no write fails, leaves the file empty otherwise, closes it either way, and reports 0 exactly when the trace is written and the marker made; with the file closed it does nothing |
| PrefetchTrace.Prefetcher.Reload | src/prefetch.cpp:285-320 | a trace is accepted exactly when no read fails and header, size and checksum fit, and then the queue is its records; a refused one leaves the queue empty unless a read failed midway |
| PrefetchTrace.DumpAndReload | src/prefetch.cpp:231-320 | a successful dump reloads to exactly the recorded sequence unless a read fails; without failures both succeed |
| PrefetchReplay.RunKeepsDump | src/prefetch.cpp:96-103 | while a dump runs nothing is recorded and no other dump runs; the destructor dumps only after the watcher has ended |
| PrefetchReplay.TraceWrittenOnce | src/prefetch.cpp:322-337 | in every run watcher and destructor write the trace at most once between them, never at the same time, with every accepted record |
| PrefetchReplay.RecordsAreNotes | src/prefetch.cpp:127-134 | in every run the records are exactly what was noted before recording stopped, in order |
| PrefetchReplay.LockGoneWrites | src/prefetch.cpp:322-337 | whenever the watcher finds the lock file gone it writes exactly those records |
| PrefetchReplay.EveryRecorderEnds | src/prefetch.cpp:96-103 | from every reachable state a recorder can be destroyed within five actions |
| PrefetchReplay.PoppedOnce | src/prefetch.cpp:172-193 | with any number of workers popped records and queue make the reloaded sequence; a worker that finishes without a stop has seen every record popped exactly once |
| PrefetchReplay.ReadExactly | src/prefetch.cpp:172-193 | in every run the reads begun are exactly the reads of registered layers among the records popped, in order |
| PrefetchReplay.EveryRecordReplayed | src/prefetch.cpp:172-193 | from every reachable state one worker alone can get through the rest of the trace and end |
| PrefetchReplay.BufferExactly | src/prefetch.cpp:172-193 | every read of every run fits the worker's buffer if and only if no read in the reloaded trace asks for more than 1 MiB |
| PrefetchReplay.LongRead | src/prefetch.cpp:172-193 | a trace that reload accepts and a run over it with a read longer than the buffer |

## Left out

- Integer widths: `pending_wakeups`, `inflight`, reference counts, sizes and file offsets are unbounded; the L1 index, the cluster offsets of the mapping list, `try_cnt` and the trace's fields have their widths.
- Qcow2Convert.Convert: nothing is promised for ranges off cluster boundaries, because the converter moves whole clusters and skips one whose start is outside every range; `RootfsPreserved` also needs disjoint ranges.
- Sub-cluster bitmaps of extended L2 entries: the reader uses only the descriptor, so equality with the guest's view is stated for standard entries.
- MBR and GPT parsing and filesystem probing: they only supply the list of ranges.
- Inflate, CRC32C, SHA-256, tar and ZFile, the contents of a backing file and decryption are uninterpreted functions; host files are read deterministically.
- HotSwap: I/O events of the queue's vCPU cannot fall inside the apply block, since it does not yield; control-side events can. The second wait is taken not to time out once its semaphore has been signalled. The request of a returned call stays readable in the model; `DanglesIffDisturbed` says when the source would read a dead frame.
- Fairness: the progress lemmas say that from every reachable state the work can be finished, by whose steps and how soon; that a scheduler takes those steps is not modelled.
- Memory ordering of the atomics: every atomic access is one step in one global order.
- TcmuCompletion: deleting the event loop is taken to stop intake at once.
- MountLocks: an image's writability and canonical path are fixed, and images handed out by the pool's fast path, which takes no image lock, are not covered.
- LeaseTable: the kernel is assumed to return an id that is not in the table, and paths are fixed; the pool is off.
- PoolServer: handlers run one at a time, so the stopping mark and the in-flight guard, which no request then observes, and acquire's stale-index branch, which the invariant rules out, are left out; a slot's placeholder and a path's config always open to the same image.
- Online resize and live snapshots: they depend on LSMT and ext4 code and change the capacity the pool relies on.
- DownloadBlob.Download: truncating the temporary file is taken to succeed and the block size to be positive; for a short read, whose stale bytes the checksum catches later, nothing is promised.
- Download: other processes that write to the same directory are not modelled.
- PrefetchSlices.GetExtents: sizes are taken to be far enough below 2^63 that no sum wraps.
- LSMT, registry, cache, credentials, HTTP, JSON, command line, metrics, logging, sleep lengths and throttling.
