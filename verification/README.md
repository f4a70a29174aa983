# Blob stores and transports of the OpenIO client library

A Dafny model of the storage core of oio-sds-cpp, with proofs. Five parts:

- **Striping over Kinetic drives** (`Digits`, `KeyOrder`, `KineticKeys`, `Drives`,
  `KineticListing`, `KineticRemoval`, `KineticUpload`, `KineticDownload`, `KineticRoundTrip`).
  An upload cuts its bytes into blocks, names them `chunk-sequence-size` and deals them over the
  drives; a download lists the keys page by page on every drive, parses and sorts them, and
  fetches the blocks through a window of four.
- **The RPC multiplexer of one drive** (`RpcProtocol`, `RpcHistory`, `RpcClient`). A waiting queue, a pending
  list matched by sequence number, tokens that wake a producer up, deadlines, reconnections.
- **Publishing on a local file system** (`LocalPublish`, `LocalKernel`, `LocalBlob`,
  `LocalRoundTrip`). An exclusive temporary file, a check of the final path, a rename; any number
  of uploads, removals and downloads, interleaved at every system call.
- **Byte transport** (`Sockets`, `Frames`, `ChunkedHttp`). Sends and reads over system calls that
  move as few bytes as they like, Kinetic frames, chunked HTTP bodies.
- **The in-memory store** (`MemStore`, `MemOwnership`, `MemRun`).

Objects whose methods update their fields are classes; each method is proved against a
specification function or relation, and what the source promises is proved about those, over all
inputs or all runs. Every result is stated without bounds on sizes, numbers of drives, pages or
steps; those about striping rest on the first assumption below, which covers replies of any size.

## Assumptions of the model

- Every Kinetic RPC of the blob layer succeeds (the code does not look at the status of PUT, GET
  and DELETE), and takes effect when it is issued, so that one drive serves its RPCs in order. A
  drive answers a listing with any non-empty initial part of the range, of a length it picks on
  each call, up to the page limit. "Succeeds" includes replies longer than `max_frame_size`, which
  `Frame::Read` would refuse with E2BIG: a block larger than that could be stored and not fetched.
- `start_rpc` is one step of the RPC machine: the frame of an RPC is on the wire when its write
  has returned success. A reply acknowledges frames of the connection it comes from.
- The kernel side of a socket is a finite script of results (bytes moved, interruption, EAGAIN
  with the outcome of the wait, failure), after which every call is served in full. Deadlines
  appear only as the outcome of a wait.
- The kernel side of a local file system is a script of answers too: a call moves some bytes, is
  interrupted, has to wait, or is refused with an errno. Only reads and writes are interrupted or
  wait. A read that fails leaves its buffer as it was.
- No blob path is the `.pending` path of another blob. Inodes are not reused. Calls on the objects
  of `LocalBlob` run one at a time, on a file system that any number of others use too; calls that
  overlap are the interleavings of `LocalPublish`.
- The rendered extended attributes of a Kinetic upload are an arbitrary byte string.
- Sequence numbers, block numbers and byte counts are unbounded integers, except where the source
  converts them: `std::stoi`, its conversion to `uint32_t`, and the 32-bit lengths of a frame are
  modelled as such.

## What turned out not to hold, and exactly when it does

- `KineticUpload::Prepare` never advances the index of its requests
  (src/oio/blob/kinetic/coro/blob.cpp:657-661): with more than one drive it always returns a
  network error. Results about several drives start from the prepared step.
- A download returns the bytes written if and only if the rendered attributes are shorter than a
  block; otherwise their full blocks are read back behind the data (`KineticRoundTrip.StoreThenFetch`).
- A download succeeds if and only if every block number and size fits an `int`; past that the
  parser throws (`RoundTrip`, `ParseDataKey`).
- The listed interval isolates dash-free names. `IntrudersExactly` gives all the data keys of any
  other name that fall into it.
- Aborting a Kinetic upload restores the drives if and only if no block key was there before
  (`AbortExact`): Prepare only looks for the manifest. On a drive that holds a block and no
  manifest, Prepare answers OK and Abort loses that block (`AbortLosesBlock`).
- `Frame::Read` returns EAGAIN with the header gone exactly when the wait for the first byte of the
  message, or of the value, is in vain (`FrameEagainIff`, and `EagainAfterHeader` for a script of
  two results). The consumer loop reads on: the next call finds the frame if and only if the first
  wait of the call before, for the first byte of the header, was the one in vain (`RetryIff`,
  `ReadAgain`).
- A published local file holds what its upload was given to write if and only if no write failed
  with bytes left to write (`PublishedIsGiven`, `LostNothing`); a failed write is reported to
  nobody, and an upload whose only write fails publishes an empty file (`FailedWriteIsPublished`).
- A local download delivers the file it opened if and only if no read fails: the buffer of a failed
  read, an interrupted one included, is delivered by the next call as one batch of zeros
  (`DownloadIsWhole`, `ReadFile`, `InterruptedIsNoisy`).
- A local removal unlinks the file its Prepare found if and only if no other removal of the name
  has unlinked since (`UnlinksWhatItSaw`); otherwise it takes whatever was published after that
  (`RemovalTakesAnother`).
- A temporary file outlives its upload exactly when the unlink fails (`OrphanIff`), and then blocks
  its name for ever (`OrphanBlocks`).
- In the memory store, a write by an upload that is not prepared breaks ownership if and only if
  it has bytes for a pending name (`StrayWrite`); two uploads of one name are enough for the first
  to commit what it never wrote (`StrayWriteHappens`). A download of a pending name sees the
  unfinished bytes (`DownloadSees`).
- `abort_stalled_rpc` erases from the vector it iterates over
  (src/oio/blob/kinetic/coro/CoroutineClient.cpp:203-208), which C++ leaves undefined. The model
  follows the header (CoroutineClient.h:104-108): it goes over a copy and aborts exactly the
  pending RPCs whose deadline has passed.

## Model

| member | source | states |
|---|---|---|
| `KineticRoundTrip.StoreThenFetch` | src/oio/blob/kinetic/coro/blob.cpp:87-169 | from a prepared upload, any writes and a commit, then a download of the same name, read to the end, give back exactly the concatenated writes if and only if the attributes are shorter than a block; any number of drives, any block size, any page sizes; the download fails exactly when a number does not fit an `int` |
| `KineticRoundTrip.RoundTrip` | src/oio/blob/kinetic/coro/blob.cpp:103-140 | from any complete listing of a committed upload, in any order of drives and pages, the sorted download queue fetches blocks 0..n-1 in order, without the manifest |
| `KineticRoundTrip.RemovalUndoesUpload` | src/oio/blob/kinetic/coro/blob.cpp:401-431 | deleting a complete listing of a committed upload puts every drive back exactly as it was before the upload |
| `KineticRoundTrip.ListedKeys` | src/oio/blob/kinetic/coro/blob.cpp:600-624 | what is listed on a drive after a commit is its share of the block keys, and the manifest on one drive |
| `KineticRoundTrip.SortedQueue` | src/oio/blob/kinetic/coro/blob.cpp:133-138 | sorting the parsed blocks by number yields each block once, in order, whatever the order of the listing |
| `KineticRoundTrip.CollectedIs` | src/oio/blob/kinetic/coro/blob.cpp:103-132 | the parse loop succeeds exactly when no key throws, and keeps exactly the data keys, once each |
| `KineticRoundTrip.WriteAll` | src/oio/blob/kinetic/coro/blob.cpp:574-597 | after any writes, blocks and buffer depend only on the concatenated input |
| `KineticRoundTrip.ReadAll` | src/oio/blob/kinetic/coro/blob.cpp:143-169 | reading until IsEof delivers all that was left to deliver, in order |
| `KineticRoundTrip.FetchBack` | src/oio/blob/kinetic/coro/blob.cpp:87-169 | listing, parsing, sorting and windowed reading on drives that hold a committed upload return its blocks concatenated, or fail exactly when unreadable |
| `KineticRoundTrip.CommittedBytes` | src/oio/blob/kinetic/coro/blob.cpp:528-555 | the blocks of a commit hold the data, then what the attributes spill, which is nothing exactly when they are shorter than a block |
| `KineticRoundTrip.ManifestHolds` | src/oio/blob/kinetic/coro/blob.cpp:528-555 | the manifest is on the drive after the last block's, with what the attributes left |
| `KineticUpload.KineticUpload.Write` | src/oio/blob/kinetic/coro/blob.cpp:574-597 | the loop emits the full blocks of buffered plus written bytes, keeps the rest, ends, and keeps the drives equal to the striped blocks |
| `KineticUpload.KineticUpload.TriggerUpload` | src/oio/blob/kinetic/coro/blob.cpp:600-624 | the buffer becomes the next block, on the next drive, under its own key, and its PUT is recorded |
| `KineticUpload.KineticUpload.TriggerPut` | src/oio/blob/kinetic/coro/blob.cpp:608-624 | one PUT of the buffer on drive `next_client` modulo the number of drives; the buffer is left empty |
| `KineticUpload.KineticUpload.Commit` | src/oio/blob/kinetic/coro/blob.cpp:528-555 | flush, attributes through Write, manifest: the whole content of the drives afterwards; refused in any other step |
| `KineticUpload.KineticUpload.Abort` | src/oio/blob/kinetic/coro/blob.cpp:557-572 | deletes the block keys from the striped drives, which are back as they were if and only if no block key was there before |
| `KineticUpload.AbortLosesBlock` | src/oio/blob/kinetic/coro/blob.cpp:557-572 | on any drive that holds the first block key and no manifest, Prepare answers OK and Abort deletes that key for good |
| `KineticUpload.KineticUpload.Prepare` | src/oio/blob/kinetic/coro/blob.cpp:638-677 | network error with several drives; with one, OK exactly when the manifest is absent |
| `KineticUpload.KineticUpload.SendProbes` | src/oio/blob/kinetic/coro/blob.cpp:646-663 | only the first request is ever answered |
| `KineticUpload.CutIsExact` | src/oio/blob/kinetic/coro/blob.cpp:574-597 | full blocks and rest concatenate to the input |
| `KineticUpload.CutSizes` | src/oio/blob/kinetic/coro/blob.cpp:574-597 | every block has exactly the limit, the rest is shorter |
| `KineticUpload.CutIsUnique` | src/oio/blob/kinetic/coro/blob.cpp:574-597 | there is no other way to cut the input like that |
| `KineticUpload.CutAppend` | src/oio/blob/kinetic/coro/blob.cpp:574-597 | cutting in two writes is cutting in one |
| `KineticUpload.StripeHolds` | src/oio/blob/kinetic/coro/blob.cpp:608-624 | block i is on drive i mod c under its key, and no later block overwrites it |
| `KineticUpload.StripeKeeps` | src/oio/blob/kinetic/coro/blob.cpp:608-624 | every other key of every drive is untouched |
| `KineticUpload.AbortExact` | src/oio/blob/kinetic/coro/blob.cpp:557-572 | the deletes of an abort undo the PUTs exactly when the keys were fresh |
| `KineticUpload.AbortResult` | src/oio/blob/kinetic/coro/blob.cpp:557-572 | after an abort each drive has lost exactly its block keys |
| `KineticListing.KineticListing.Prepare` | src/oio/blob/kinetic/coro/blob.cpp:232-295 | the paged listing ends, and holds each key of the open interval once for each drive that has it, none missing; not found exactly when there is none |
| `KineticListing.KineticListing.TakePages` | src/oio/blob/kinetic/coro/blob.cpp:271-289 | one round moves the markers of the drives that answered and retires the others; a drive still ready has listed something new |
| `KineticListing.KineticListing.RequestPages` | src/oio/blob/kinetic/coro/blob.cpp:253-269 | each ready drive is asked past its own marker |
| `KineticListing.KineticListing.Next` | src/oio/blob/kinetic/coro/blob.cpp:297-306 | the items come out once each, in order |
| `KineticListing.TakePage` | src/oio/blob/kinetic/coro/blob.cpp:276-288 | a page leaves no gap and repeats nothing: the drive is listed up to its last key |
| `KineticListing.RoundShrinks` | src/oio/blob/kinetic/coro/blob.cpp:244-290 | the measure of the loop: keys not yet listed, then ready drives |
| `Drives.Drive.GetKeyRange` | src/oio/blob/kinetic/coro/RPC.cpp:236-281 | any initial part of the range, at least one key if there is any, at most the limit |
| `Drives.PageIsInitial` | src/oio/blob/kinetic/coro/RPC.cpp:247-253 | a page is ascending and holds every key of the range up to its last |
| `KineticDownload.KineticDownload.Prepare` | src/oio/blob/kinetic/coro/blob.cpp:87-141 | the queue is the sorted blocks of a complete listing; not found, or a throw that leaves the queue untouched |
| `KineticDownload.KineticDownload.Read` | src/oio/blob/kinetic/coro/blob.cpp:145-169 | delivers the next block in queue order and keeps the window filled; nothing left leaves the caller's buffer untouched |
| `KineticDownload.KineticDownload.StartFetches` | src/oio/blob/kinetic/coro/blob.cpp:148-159 | the window holds four fetches, or all that is left, and what is to be delivered does not change |
| `KineticDownload.KineticDownload.IsEof` | src/oio/blob/kinetic/coro/blob.cpp:143 | true exactly when nothing is left to deliver |
| `KineticDownload.KineticDownload.ParseAll` | src/oio/blob/kinetic/coro/blob.cpp:103-132 | each listed key is parsed once; the loop stops at the first that throws |
| `KineticDownload.SortIs` | src/oio/blob/kinetic/coro/blob.cpp:133-135 | the sort orders by number and permutes |
| `KineticDownload.SortIsStable` | src/oio/blob/kinetic/coro/blob.cpp:133-135 | blocks with the same number stay in the order they had |
| `KineticDownload.LaterFirst` | src/oio/blob/kinetic/coro/blob.cpp:128-138 | so of two blocks with the same number the one listed later is delivered first |
| `KineticRemoval.RollingDelete` | src/oio/blob/kinetic/coro/blob.cpp:372-386 | each operation is started once and waited for once, in order, within the window, and the drives lose exactly the listed keys |
| `KineticRemoval.ReplayCounts` | src/oio/blob/kinetic/coro/blob.cpp:372-386 | at every moment the operations in flight are consecutive and no more than the window |
| `KineticRemoval.ReplayMeans` | src/oio/blob/kinetic/coro/blob.cpp:366-369 | no operation is started twice, and none is waited for before it is started |
| `KineticRemoval.DeleteAllIs` | src/oio/blob/kinetic/coro/blob.cpp:372-386 | the order of the deletes does not matter: each drive loses the keys listed for it |
| `KineticRemoval.KineticRemoval.Prepare` | src/oio/blob/kinetic/coro/blob.cpp:401-422 | queues a complete listing, or reports not found exactly when the interval is empty |
| `KineticRemoval.KineticRemoval.Commit` | src/oio/blob/kinetic/coro/blob.cpp:424-431 | the drives lose exactly the queued keys; refused in any other step |
| `KineticRemoval.KineticRemoval.Abort` | src/oio/blob/kinetic/coro/blob.cpp:433-439 | changes the step and nothing else |
| `KineticRemoval.RemoveChunk` | src/oio/blob/kinetic/coro/blob.cpp:401-431 | Prepare then Commit: not found exactly when the drives hold nothing of the chunk, otherwise each drive keeps exactly what lies outside the interval |
| `KineticRemoval.RemovalExact` | src/oio/blob/kinetic/coro/blob.cpp:401-431 | after a removal each drive holds exactly what it held outside the interval |
| `KineticRemoval.RemovalSparesOthers` | src/oio/blob/kinetic/coro/blob.cpp:401-431 | between dash-free names, no key of another chunk is removed or changed |
| `KineticKeys.InRangeIff` | src/oio/blob/kinetic/coro/blob.cpp:240-264 | the open interval is exactly the proper extensions of `name-` whose next byte is below 'X' |
| `KineticKeys.OwnKeysInRange` | src/oio/blob/kinetic/coro/blob.cpp:600-614 | every data and manifest key of a name is in its interval |
| `KineticKeys.IntervalIsolation` | src/oio/blob/kinetic/coro/blob.cpp:236-265 | for dash-free names, a key of another name is never in the interval |
| `KineticKeys.IntrudersExactly` | src/oio/blob/kinetic/coro/blob.cpp:236-265 | for any names, exactly which data keys of another name are in the interval |
| `KineticKeys.ManifestIntrudersExactly` | src/oio/blob/kinetic/coro/blob.cpp:236-265 | for any names, exactly when the manifest of another name is |
| `KineticKeys.ParseDataKey` | src/oio/blob/kinetic/coro/blob.cpp:103-132 | printing then parsing a key gives its numbers back exactly when both fit an `int`, and throws otherwise; dashes in the name do not matter |
| `KineticKeys.ParseManifestKey` | src/oio/blob/kinetic/coro/blob.cpp:111-113 | the manifest is recognised and skipped |
| `KineticKeys.DataKeyInjective` | src/oio/blob/kinetic/coro/blob.cpp:600-617 | different blocks have different keys |
| `KineticKeys.KeyText` | src/oio/blob/kinetic/coro/blob.cpp:600-614 | the keys and the bounds of the interval as text |
| `KineticKeys.ParseOneDash` | src/oio/blob/kinetic/coro/blob.cpp:103-122 | a key with one dash is malformed, unless what follows the dash is no `int`: that throws before the second dash is looked for |
| `KineticKeys.ParseTwoDashes` | src/oio/blob/kinetic/coro/blob.cpp:103-127 | a key with two dashes or more names a block exactly when both numbers read as `int`, and throws otherwise |
| `KineticKeys.ParseHash` | src/oio/blob/kinetic/coro/blob.cpp:111-113 | any key with # behind its last dash passes for a manifest |
| `Digits.StoiOfDec` | src/oio/blob/kinetic/coro/blob.cpp:115-122 | `std::stoi` inverts the printing of a number up to the largest `int` |
| `Digits.ValueOfPrint` | src/utils/http.cpp:268-270 | printing in base 10 or 16 then reading gives the number |
| `Digits.DecimalText` | src/oio/blob/kinetic/coro/blob.cpp:616-617 | decimal text: the last digit behind the others, no leading zero |
| `Digits.HexText` | src/utils/http.cpp:268-270 | hexadecimal text, in lower case |
| `Digits.StoiOfNegative` | src/oio/blob/kinetic/coro/blob.cpp:115-122 | what `std::stoi` makes of a sign and of what follows the digits |
| `KeyOrder.BetweenExtensions` | src/oio/blob/kinetic/coro/blob.cpp:260-264 | in bytewise order, whatever lies between a key and its extension extends it |
| `RpcProtocol.RunKeeps` | src/oio/blob/kinetic/coro/CoroutineClient.cpp:68-98 | after every run of issues, replies, failed writes, sweeps and reconnections: RPCs are conserved, signalled once exactly when completed, numbered soundly, started in issue order, and never left without a token |
| `RpcProtocol.ExactlyOnePlace` | src/oio/blob/kinetic/coro/CoroutineClient.cpp:178-220 | each issued RPC is in exactly one of waiting, pending and completed |
| `RpcProtocol.AckExact` | src/oio/blob/kinetic/coro/CoroutineClient.cpp:83-98 | a reply completes exactly the pending RPC whose frame carried its number on this connection, and an unknown number completes none |
| `RpcProtocol.CompletedIsFinal` | src/oio/blob/kinetic/coro/PendingExchange.cpp:50-69 | no run signals a completed RPC again or changes its outcome |
| `RpcProtocol.DisconnectCompletesAll` | src/oio/blob/kinetic/coro/CoroutineClient.cpp:186-201 | when the agents have ended both queues are empty and every RPC issued so far has been signalled once |
| `RpcProtocol.DrainStartsAll` | src/oio/blob/kinetic/coro/CoroutineClient.cpp:222-241 | taking the tokens in the channel starts every waiting RPC, in issue order |
| `RpcProtocol.SweepExact` | src/oio/blob/kinetic/coro/CoroutineClient.h:104-108 | a sweep completes exactly the RPCs whose deadline has passed |
| `RpcProtocol.StartSequences` | src/oio/blob/kinetic/coro/PendingExchange.cpp:71-77 | a fresh number keeps pending numbers positive, distinct, below the counter, and equal to those of the frames on the wire |
| `RpcHistory.Deadlines` | src/oio/blob/kinetic/coro/PendingExchange.cpp:26-30 | in every run each RPC is due ten seconds after the event that issued it |
| `RpcHistory.TimesOut` | src/oio/blob/kinetic/coro/CoroutineClient.cpp:203-209 | so a sweep leaves pending exactly the RPCs issued at most ten seconds ago, and ends the others with ETIMEDOUT, one signal each |
| `RpcHistory.NewOutcomes` | src/oio/blob/kinetic/coro/CoroutineClient.cpp:83-220 | how an RPC ends is told by the event that ends it: its reply, the errno of its write, a timeout past its deadline, or ECONNRESET |
| `RpcHistory.DisconnectOrder` | src/oio/blob/kinetic/coro/CoroutineClient.cpp:186-201 | the end of a connection tells pending RPCs before waiting ones, each in order |
| `RpcHistory.ProducerStops` | src/oio/blob/kinetic/coro/CoroutineClient.cpp:226-241 | after a failed write nothing more is started or sent until the connection ends, in any run; the others keep waiting in order |
| `RpcHistory.StartsOnlyWhenUp` | src/oio/blob/kinetic/coro/CoroutineClient.cpp:222-241 | only the producer of an open connection starts RPCs, the oldest first, one for each token |
| `RpcHistory.NumbersCount` | src/oio/blob/kinetic/coro/CoroutineClient.cpp:263-300 | the numbering starts at one with each connection and counts every issue and every start since |
| `RpcHistory.FrameCarries` | src/oio/blob/kinetic/coro/PendingExchange.cpp:71-77 | a frame carries the next number, which is the one its reply is matched with |
| `RpcHistory.FirstFrame` | src/oio/blob/kinetic/coro/RPC.cpp:54-57 | the first frame of a new connection carries number one |
| `RpcClient.CoroutineClient.RPC` | src/oio/blob/kinetic/coro/CoroutineClient.cpp:287-300 | the new RPC waits behind the others with one more token sent |
| `RpcClient.CoroutineClient.PopRpc` | src/oio/blob/kinetic/coro/CoroutineClient.cpp:68-81 | takes out the first pending RPC with the number, or nothing |
| `RpcClient.CoroutineClient.Manage` | src/oio/blob/kinetic/coro/CoroutineClient.cpp:83-98 | does to the objects what the machine does on a reply |
| `RpcClient.CoroutineClient.AbortRpc` | src/oio/blob/kinetic/coro/CoroutineClient.cpp:178-184 | the RPC itself leaves the pending list, told its error and signalled |
| `RpcClient.CoroutineClient.AbortAllRpc` | src/oio/blob/kinetic/coro/CoroutineClient.cpp:186-201 | both queues are emptied, pending first, each RPC told of the reset and signalled once |
| `RpcClient.CoroutineClient.AbortStalledRpc` | src/oio/blob/kinetic/coro/CoroutineClient.cpp:203-209 | keeps the live RPCs in order and fails the expired ones |
| `RpcClient.CoroutineClient.StartRpc` | src/oio/blob/kinetic/coro/CoroutineClient.cpp:211-220 | pending under the next number, or failed at once if the write fails |
| `RpcClient.CoroutineClient.TakeOne` | src/oio/blob/kinetic/coro/CoroutineClient.cpp:226-241 | a token starts the oldest waiting RPC; a failed start stops the producer |
| `RpcClient.CoroutineClient.EndConnection` | src/oio/blob/kinetic/coro/CoroutineClient.cpp:270-278 | the end of a connection fails everything |
| `RpcClient.CoroutineClient.Reconnect` | src/oio/blob/kinetic/coro/RPC.cpp:54-57 | a new connection restarts the numbering at one |
| `RpcClient.CoroutineClient.Perform` | src/oio/blob/kinetic/coro/CoroutineClient.cpp:222-300 | every event on the objects is the event of the machine and keeps its invariant |
| `RpcClient.RunClient` | src/oio/blob/kinetic/coro/CoroutineClient.cpp:263-285 | every run of the objects is a run of the machine |
| `RpcClient.PendingExchange.SetSequence` | src/oio/blob/kinetic/coro/PendingExchange.cpp:44-48 | the number replies are matched with is the one the frame carries |
| `LocalPublish.RunKeeps` | src/oio/blob/local/blob.cpp:311-438 | the invariant of files, uploads and downloads holds after every interleaving of system calls |
| `LocalPublish.PublishSafety` | src/oio/blob/local/blob.cpp:311-379 | one owner at most of each temporary file; a rename never replaces a final file and moves the upload's own bytes; a final path leads to a file unchanged since it was published, complete exactly when its upload lost no bytes |
| `LocalPublish.PublishedForever` | src/oio/blob/local/blob.cpp:350-373 | a published file never changes afterwards |
| `LocalPublish.CommitPublishes` | src/oio/blob/local/blob.cpp:365-368 | a successful rename links the bytes written at the final path and touches no other path |
| `LocalPublish.PublishedIsGiven` | src/oio/blob/local/blob.cpp:311-438 | whatever run leads to the rename and whatever run follows, the file at the final path holds for ever exactly what the events gave the upload to write, if and only if no write failed with bytes left |
| `LocalPublish.Accounts` | src/oio/blob/local/blob.cpp:412-438 | over any run, what an upload was given and what it lost are what the writes of the run say, whatever the others do |
| `LocalPublish.LostNothing` | src/oio/blob/local/blob.cpp:419-438 | nothing is lost exactly when no write fails with bytes left to write |
| `LocalPublish.DownloadIsWhole` | src/oio/blob/local/blob.cpp:66-173 | a download that reaches the end has read one published file entirely, whatever was removed meanwhile, and delivered it with nothing else if and only if no buffer of a failed read went out with it |
| `LocalPublish.PendingIffOwned` | src/oio/blob/local/blob.cpp:288-293 | unless an unlink fails, no run leaves a temporary file behind: it exists exactly while one upload owns it |
| `LocalPublish.OrphanIff` | src/oio/blob/local/blob.cpp:288-293 | the unlink of a given-up upload leaves a temporary file that no one owns exactly when it fails |
| `LocalPublish.OrphanBlocks` | src/oio/blob/local/blob.cpp:311-332 | after any run such a file is still there, no upload of the name is prepared, and nothing more is published under it |
| `LocalPublish.FinalChangesOnlyBy` | src/oio/blob/local/blob.cpp:223-237 | only a rename onto a free path, or the unlink of a prepared removal of that name, ever changes a final path |
| `LocalPublish.UnlinksWhatItSaw` | src/oio/blob/local/blob.cpp:212-230 | the file at the final path is the one a stat found if and only if no removal of the name has unlinked since |
| `LocalPublish.RemovalTakesAnother` | src/oio/blob/local/blob.cpp:212-230 | two removals that saw one file: the second unlinks what was published after the first |
| `LocalPublish.FailedWriteIsPublished` | src/oio/blob/local/blob.cpp:412-438 | from any start where the name is free, the run that prepares, fails its only write, and commits, publishes an empty file |
| `LocalPublish.FailThenCommit` | src/oio/blob/local/blob.cpp:419-438 | a failed write is followed by a commit up to the rename as any other, with nothing changed on disk |
| `LocalKernel.PrepareMeans` | src/oio/blob/local/blob.cpp:311-348 | Prepare succeeds only on two free paths, always does when nothing is refused, never removes another's temporary file, and leaves none of its own when it fails and nothing is refused |
| `LocalKernel.MissingParents` | src/oio/blob/local/blob.cpp:317-326 | a missing parent directory is created and the open tried again |
| `LocalKernel.NoParents` | src/oio/blob/local/blob.cpp:317-326 | parents that cannot be created, or are missing still, end in Forbidden after two tries at most |
| `LocalKernel.RefusedOpen` | src/oio/blob/local/blob.cpp:327-334 | the status of a refused creation |
| `LocalKernel.StatDecides` | src/oio/blob/local/blob.cpp:335-343 | with a free temporary path the stat decides: prepared, already there, or its errno; the temporary file stays behind exactly if its unlink is refused |
| `LocalKernel.RenameDecides` | src/oio/blob/local/blob.cpp:365-373 | a commit ends as its rename does, and drops the temporary file otherwise |
| `LocalKernel.AbortDecides` | src/oio/blob/local/blob.cpp:375-379 | an abort is OK whatever becomes of its unlink |
| `LocalKernel.RemovalStatus` | src/oio/blob/local/blob.cpp:212-230 | a removal of a missing file is not found; a refusal gives its mapped errno |
| `LocalKernel.WillingWrite` | src/oio/blob/local/blob.cpp:418-437 | a write only fails when a call is refused or a wait runs out: short counts, interruptions and waits that end well are retried |
| `LocalKernel.WriteFailsIff` | src/oio/blob/local/blob.cpp:418-437 | a write fails if and only if the kernel refuses, or lets a wait run out, before it has taken all the bytes |
| `LocalKernel.WriteGivesUp` | src/oio/blob/local/blob.cpp:418-437 | it then stops at the first such answer, with what was taken before written, and tries nothing more |
| `LocalKernel.WillingTaken` | src/oio/blob/local/blob.cpp:412-438 | when neither happens any series of writes gets every byte through |
| `LocalKernel.TakenAllIff` | src/oio/blob/local/blob.cpp:412-438 | a series of writes gets every byte through if and only if no write that has bytes is denied |
| `LocalKernel.StoreMeans` | src/oio/blob/local/blob.cpp:311-438 | when nothing is refused, prepare, writes and commit succeed exactly on a free name and store all that was written |
| `LocalKernel.ServingIsQuiet` | src/oio/blob/local/blob.cpp:66-108 | reads that are all served, however short, deliver nothing but the file |
| `LocalKernel.LoadFailsIff` | src/oio/blob/local/blob.cpp:66-86 | a batch is loaded if and only if the kernel serves the read after at most five waits that end well; nothing else is tried again |
| `LocalKernel.InterruptedIsNoisy` | src/oio/blob/local/blob.cpp:66-108 | one interruption adds a whole batch of bytes of no file |
| `LocalBlob.LocalUpload.Prepare` | src/oio/blob/local/blob.cpp:311-348 | is a run of the machine that moves no other upload; the status, whether a temporary file is left, and the answers used are those of PrepareEnding, with the retry once the parents are created |
| `LocalBlob.LocalUpload.Commit` | src/oio/blob/local/blob.cpp:350-373 | is a run of the machine; the status is OK or the mapped errno of the rename, the temporary file is gone unless its unlink failed too, and on success the final path, free until then, leads to the very bytes this upload wrote |
| `LocalBlob.LocalUpload.Abort` | src/oio/blob/local/blob.cpp:375-379 | is a run of the machine; the temporary file is gone exactly if its unlink worked, and the final path is untouched |
| `LocalBlob.LocalUpload.Write` | src/oio/blob/local/blob.cpp:412-438 | the bytes appended to the upload's own file, those lost, whether a call failed and the answers used are what the answers of the kernel say, and no other file changes |
| `LocalRoundTrip.StoreThenFetch` | src/oio/blob/local/blob.cpp:66-438 | prepare, any writes and commit, then a download read to the end, on a file system others use: one run of the machine, its status, and what is delivered: the bytes the writes got through plus the noise of failed reads, which are the concatenated writes if and only if no write was denied by the kernel before its last byte, that is, if no write failed with bytes left; all of it succeeds on a free name when every call is served |
| `LocalBlob.LocalRemoval.Commit` | src/oio/blob/local/blob.cpp:223-230 | is one unlink of the machine, with the mapped errno for status |
| `LocalBlob.LocalRemoval.Prepare` | src/oio/blob/local/blob.cpp:212-221 | prepared exactly when the stat finds the final path; otherwise the mapped errno |
| `LocalBlob.LocalDownload.Read` | src/oio/blob/local/blob.cpp:66-173 | is one read of the machine: the next bytes of the file, the end exactly when there are none left, nothing when the read fails, and after that the stale buffer |
| `LocalRoundTrip.ReadFile` | src/oio/blob/local/blob.cpp:160-173 | reading until IsEof ends, and returns the whole file with one batch of zeros for each failed read: exactly the file if and only if none failed |
| `Sockets.Socket.Send` | src/utils/net.cpp:402-453 | the bytes sent are a prefix of the concatenated vectors, the whole of them exactly on success; the errno, how much is sent and the results used are those of Give |
| `Sockets.Advance` | src/utils/net.cpp:434-448 | stepping over the bytes taken never runs out of vectors |
| `Sockets.Socket.SendFlat` | src/utils/net.cpp:455-492 | the same for a flat buffer |
| `Sockets.GiveFailsIff` | src/utils/net.cpp:402-492 | a send fails if and only if a hard error or a wait in vain comes before the last byte is taken |
| `Sockets.GiveHalts` | src/utils/net.cpp:402-492 | it then stops at the first one, with ETIMEDOUT for the wait and its own errno for the error, having sent what was moved before and nothing more |
| `Sockets.TakeFailsIff` | src/utils/net.cpp:347-385 | a read of bytes that are there fails if and only if a hard error, a wait in vain or the end of the stream comes before the last of them |
| `Sockets.TakeStops` | src/utils/net.cpp:347-385 | it then stops at the first one, with the errno of that, having read what was moved before |
| `Sockets.Socket.ReadExactly` | src/utils/net.cpp:347-385 | ends, takes and leaves what Take says: all the bytes asked for, or fewer and an errno; ETIMEDOUT only if some was read |
| `Sockets.EagainIff` | src/utils/net.cpp:364-377 | a read gives EAGAIN exactly when the wait for its very first byte is in vain, and has then consumed nothing |
| `Sockets.FlowingTake` | src/utils/net.cpp:347-385 | while bytes flow, a read succeeds exactly when all it asks for is there, and otherwise meets the end of the stream |
| `Frames.DecodeEncode` | src/oio/blob/kinetic/coro/RPC.cpp:104-153 | a frame within the limit decodes to itself and leaves what follows |
| `Frames.EncodeDecode` | src/oio/blob/kinetic/coro/RPC.cpp:122-153 | a frame that decodes took exactly its own encoding |
| `Frames.StreamRoundTrip` | src/oio/blob/kinetic/coro/RPC.cpp:104-153 | frames written back to back decode to the same list with nothing left |
| `Frames.FrameEagainIff` | src/oio/blob/kinetic/coro/RPC.cpp:122-147 | the two cases of EAGAIN: nothing came and nothing is consumed, or a part of the body was waited for in vain and at least the header is gone |
| `Frames.EagainAfterHeader` | src/oio/blob/kinetic/coro/RPC.cpp:140-142 | the header then silence gives EAGAIN with nine bytes consumed, for every frame with a message |
| `Frames.RetryIff` | src/oio/blob/kinetic/coro/RPC.cpp:122-153 | after an EAGAIN the next read finds the frame and leaves what follows it if and only if the wait for the first byte of the header was the one in vain |
| `Frames.FlowingFrame` | src/oio/blob/kinetic/coro/RPC.cpp:122-153 | while bytes flow, a frame is read, refused or cut short exactly as the decoder says |
| `Frames.ReadAgain` | src/oio/blob/kinetic/coro/RPC.cpp:122-153 | two calls in a row, on the objects: the condition of RetryIff |
| `Frames.Be32RoundTrip` | src/oio/blob/kinetic/coro/RPC.cpp:104-106 | the length read back is the size modulo 2^32 |
| `Frames.FrameIsUnique` | src/oio/blob/kinetic/coro/RPC.cpp:104-116 | a byte string is the encoding of a frame exactly when it is an F, the two lengths with their most significant byte first, the message and the value |
| `Frames.FrameIsRead` | src/oio/blob/kinetic/coro/RPC.cpp:122-153 | whatever lays out like that, within the limit, is read as that frame |
| `Frames.RefusedIff` | src/oio/blob/kinetic/coro/RPC.cpp:129-135 | EBADMSG exactly for another first byte than F, E2BIG exactly when a length, read big-endian, is over the limit |
| `Frames.WriteFrame` | src/oio/blob/kinetic/coro/RPC.cpp:80-120 | the bytes on the wire are a prefix of the frame, the whole of it exactly on success, laid out byte by byte as a drive reads it, with or without payload; on failure the errno is that of the send |
| `Frames.ReadFrame` | src/oio/blob/kinetic/coro/RPC.cpp:122-153 | the outcome of its three reads; success only on the encoding of a frame within the limit; on a flowing socket a bad magic gives EBADMSG and an oversize length E2BIG, always |
| `Frames.ReadStream` | src/oio/blob/kinetic/coro/RPC.cpp:122-153 | any fragmentation gives the frames sent and leaves nothing |
| `Frames.StreamFrames` | src/oio/blob/kinetic/coro/RPC.cpp:80-153 | a list of frames sent over one socket under any partial writes and read from another under any partial reads: exactly the frames sent whole arrive, in order, then the end of the stream; all of them unless a write fails |
| `Frames.PrefixIsShort` | src/oio/blob/kinetic/coro/RPC.cpp:122-147 | a frame cut short at any byte is never taken for a frame nor refused |
| `ChunkedHttp.DecodeChunks` | src/utils/http.cpp:253-295 | any writes then the last chunk decode, by section 4.1 of RFC 7230, to the concatenated body with what follows left untouched; empty writes emit nothing |
| `ChunkedHttp.DecodeOneChunk` | src/utils/http.cpp:267-279 | one chunk decodes to its data |
| `ChunkedHttp.Request.Write` | src/utils/http.cpp:253-282 | what reaches the wire in either mode, and the count of bytes sent, on success and on failure |
| `ChunkedHttp.Request.FinishRequest` | src/utils/http.cpp:284-318 | the last chunk, or the check of the declared length |
| `ChunkedHttp.SendBody` | src/utils/http.cpp:253-318 | a whole chunked body over a socket that makes progress decodes to what was written |
| `ChunkedHttp.SendInline` | src/utils/http.cpp:253-291 | a whole inline body puts exactly the pieces on the wire, and finishes well if and only if they add up to the declared length |
| `ChunkedHttp.ChunkText` | src/utils/http.cpp:267-274 | a chunk as text: the size in hexadecimal, CR LF, the data, CR LF |
| `MemOwnership.RunKeeps` | src/oio/blob/mem/blob.cpp:121-265 | ownership holds after every interleaving in which uploads write only while prepared |
| `MemOwnership.PendingIffOwned` | src/oio/blob/mem/blob.cpp:40-79 | a name is pending if and only if exactly one upload of it is prepared |
| `MemOwnership.CommitSucceeds` | src/oio/blob/mem/blob.cpp:48-56 | a prepared upload always commits, and stores exactly what the cache took from it |
| `MemOwnership.UploadPreparedIff` | src/oio/blob/mem/blob.cpp:129-136 | an upload prepares if and only if its name is neither stored nor being written; otherwise Already, and nothing changes |
| `MemOwnership.AbortFrees` | src/oio/blob/mem/blob.cpp:58-66 | an abort of a prepared upload is OK and frees the name, whatever was written |
| `MemOwnership.OutOfTurn` | src/oio/blob/mem/blob.cpp:129-150 | calls out of turn are refused and change nothing |
| `MemOwnership.WritesAccepted` | src/oio/blob/mem/blob.cpp:69-80 | every write of an upload that is prepared, and neither committed nor aborted, is accepted in any obeying run: it has written all the run gave it |
| `MemOwnership.StoredIsWhatWasWritten` | src/oio/blob/mem/blob.cpp:121-252 | prepare, any obeying run, commit, any obeying run without a removal of the name: the item is exactly the bytes the upload was given |
| `MemOwnership.StoredUntilRemoved` | src/oio/blob/mem/blob.cpp:239-252 | a stored value does not change until a removal of its name commits |
| `MemOwnership.RemovalPreparedIff` | src/oio/blob/mem/blob.cpp:228-237 | a removal prepares if and only if a value is stored under its name, NotFound otherwise |
| `MemOwnership.RemovalCommitsIff` | src/oio/blob/mem/blob.cpp:239-252 | it commits if and only if the value is still there, and takes out that name alone |
| `MemOwnership.RemovedForGood` | src/oio/blob/mem/blob.cpp:228-252 | prepare on a stored value, any obeying run without another removal of it, commit: both OK, and the value is gone |
| `MemOwnership.StrayWrite` | src/oio/blob/mem/blob.cpp:152-154 | exactly when a write out of turn breaks ownership |
| `MemOwnership.StrayWriteHappens` | src/oio/blob/mem/blob.cpp:152-154 | two uploads of one name, one stray byte, and the owner commits a value it never wrote |
| `MemOwnership.DownloadSees` | src/oio/blob/mem/blob.cpp:92-101 | a read returns the committed value, or the owner's unfinished bytes when the name is pending |
| `MemStore.MemUpload.Prepare` | src/oio/blob/mem/blob.cpp:129-136 | prepared exactly when the name was free, which is then pending and empty; refused in any other step |
| `MemStore.MemUpload.Commit` | src/oio/blob/mem/blob.cpp:138-143 | done whatever the cache answers; the item stops being pending and keeps its bytes |
| `MemStore.MemUpload.Abort` | src/oio/blob/mem/blob.cpp:145-150 | done whatever the cache answers; a pending item is gone, a committed one is kept |
| `MemStore.MemUpload.Write` | src/oio/blob/mem/blob.cpp:152-154 | appends to the item of the name if it is pending, in any step of the upload |
| `MemStore.CommittedLife` | src/oio/blob/mem/blob.cpp:40-79 | created once, written until committed once, then closed to every other call, with the status of each |
| `MemStore.AbortedLife` | src/oio/blob/mem/blob.cpp:40-79 | aborted, an item leaves nothing; a free name cannot be written or committed |
| `MemStore.MemRemoval.Prepare` | src/oio/blob/mem/blob.cpp:228-237 | prepared exactly when the item is there and not pending |
| `MemStore.MemRemoval.Commit` | src/oio/blob/mem/blob.cpp:239-252 | looks at the item again, and removes it or stays prepared |
| `MemStore.MemDownload.Prepare` | src/oio/blob/mem/blob.cpp:182-189 | copies the bytes of the item, pending or not |
| `MemStore.MemDownload.Read` | src/oio/blob/mem/blob.cpp:195-203 | the whole value once, then -1 with the buffer untouched |
| `MemRun.RunStore` | src/oio/blob/mem/blob.cpp:34-265 | every run of upload and removal objects on one cache is a run of the ownership machine, and keeps the ownership if every upload writes in turn |

## Left out

- RpcClient.CoroutineClient.AbortStalledRpc: goes over a copy of the pending list, because erasing from the vector being iterated is undefined in C++.
- RpcClient.CoroutineClient.StartRpc: the yield inside the write is not modelled; the write is one step with the errno it returns.
- RpcClient.CoroutineClient.Perform: the destructor and its stop signal, the connection id taken from replies and the wrap-around of the 64-bit counter are not modelled.
- KineticUpload.KineticUpload.constructor: requires at least one drive and a positive block size; without them the source has nothing to write to, or never ends.
- KineticUpload.KineticUpload.TriggerPut: the 32-bit wrap-around of `next_client` is not modelled; the download already fails past 2^31 blocks.
- KineticUpload.KineticUpload.Commit: the rendering of the attributes to JSON is an arbitrary byte string; waiting for the PUTs has no effect since they succeed when issued.
- KineticDownload.KineticDownload.Prepare: two concurrent users of one chunk are not modelled.
- LocalBlob.LocalUpload.Prepare: directories and permissions are not modelled; creating the missing parents either works or not, and has no other effect.
- LocalBlob.LocalUpload.Commit: extended attributes are not modelled.
- LocalBlob.LocalDownload.Read: ranges (`SetRange`, the seek and the size check of Prepare) are not modelled.
- Sockets.Socket.ReadExactly: a run in which the kernel interrupts for ever does not end and is not covered.
- Frames.ReadFrame: the parts of the body are returned rather than filled in place.
- Extended attributes of the memory store, which follow the same rule as its writes.
- Protobuf, HMAC, SHA and JSON contents: opaque bytes.
- HTTP headers, trailers, replies and their external parser.
- The erasure-coding, router, rawx and HTTP blobs, and the directory, container and content clients: thin layers over foreign libraries and services.
- Socket set-up, address parsing, coroutine scheduling and clocks.
