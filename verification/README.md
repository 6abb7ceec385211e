# A verified model of trctl's hand-written algorithms

trctl is a small hub/unit remote-control system built on libuv and nanopb. Most of it is plumbing;
this project models the parts that are algorithms of its own and proves what they are for:

- **Messages over TCP.** `cobs_spec.dfy` states Consistent Overhead Byte Stuffing block by block.
  `cobs.dfy` proves the program's encoder (which patches code bytes in afterwards) and decoder (an
  8-bit countdown, run in place on its own input) against it. `framing.dfy` says what a stream of
  zero-terminated frames means, and `receiver.dfy` proves sender, receiver and a whole session.
- **Recursive delete.** `fixed_str.dfy` is the fixed path buffer, `filesystem.dfy` the file system
  as seen through libuv and the reading of path strings, `rm_rf_spec.dfy` what a delete has to do,
  and `rm_rf.dfy` the callback state machine with its bounded stack and single buffer.
- **Lifetimes and queues.** `async_storage.dfy` and `async_map.dfy` are reference counting with
  deferred destruction by one worker, `async_storage_runs.dfy` what holds of all its runs; `sender_fifo.dfy` the one-at-a-time fifo with operations that
  complete while they are started; `async_queue.dfy` and `process.dfy` the matching of items and
  waiters and the event stream of a child process.
- **File transfer.** `chunks.dfy` is the assembly of a file from chunks in any order,
  `transfer.dfy` the hash and the transfer slot with its file handle.

`basics.dfy` holds small helpers. Where the program updates objects in place the model is a class
whose methods follow the program's branches; what they compute is stated by functions and predicates
over values, about which the lemmas speak. Sequences named as history (`received`, `delivered`,
`arrived`, `released`, ...) record what happened and decide nothing: no branch reads them, and only
`process.dfy` copies from one, the answers to its requests from the deliveries of its stream.

Results that differ from what one might expect of the code:

- `async_map` announces "all destroyed" exactly if a tick comes while the last queued core is still
  being destroyed (`AnnouncedExactly`): for a core created, released and started, the next tick does
  so if its destroy is running, and does not if it has completed (`OneCoreAnnounced`). If every
  destroy completes before the next tick, everything is deleted and nothing announced (`NeverAnnounced`).
- The sizes of accepted chunks adding up to the file size does not mean that the file is complete;
  it does exactly if no two chunks overlap (`Pigeonhole`, `OverlapLeavesHole`).
- The hashing loop of a transfer ends exactly for files of at most 2^32 - 4096 bytes (`HashLoopEnds`).
- Output of a process that has exited has been reported exactly if there had been a request for it
  before the exit (`ReportedExactly`): output, exit, and then a request gives only the exit status
  (`UnreadAtExit`).
- The size check of a transfer adds 64-bit numbers. It is right exactly if their sum does not wrap
  around, or is larger than the file size even then (`SizeCheckExact`).
- Appending to the path buffer cuts off what does not fit, without notice (`AppendSpells`).
- The check for a trailing slash in the constructor of `_fs_rm_rf` looks at the NUL behind the path,
  so a slash is always appended; path strings are read with empty components left out.

## Model

| member | source | states |
|---|---|---|
| CobsSpec.RoundTrip | src/cobs.hpp:61-141 | decoding the encoding of any byte string gives it back, with runs of 254 and more non-zero bytes and ends at the rollover included |
| CobsSpec.EncodeZeroFree | src/cobs.hpp:20-49 | an encoding contains no zero byte |
| CobsSpec.EncodedLength | src/cobs.hpp:20-49 | its length is one more than the message plus one per full block, and there are at most n/254 of those |
| CobsSpec.EncodeZero | src/cobs.hpp:25-29 | a zero byte closes the block of the bytes before it, whatever follows |
| CobsSpec.EncodeFull | src/cobs.hpp:36-40 | so does the 254th byte of a run, with code 255 and no implied zero |
| CobsSpec.ReEncode | src/cobs.hpp:61-141 | re-encoding a decoded zero-free frame changes only its last code byte, or appends a single 1 after a final full block |
| CobsSpec.ReEncodeIdentity | src/cobs.hpp:61-141 | it changes nothing exactly if the last block is as long as its code says and not full |
| CobsSpec.EncodingsAreCanonical | src/cobs.hpp:61-69 | those zero-free frames are precisely the ones the encoder can produce |
| Cobs.CobsEncoder.constructor | src/cobs.hpp:15-18 | one cell is reserved for the first code byte |
| Cobs.CobsEncoder.Insert | src/cobs.hpp:20-43 | closed blocks and open block advance by one byte in the buffer; the result says whether the frame so far is shorter than the target; no cell past it is touched and the 8-bit count does not wrap |
| Cobs.CobsEncoder.Commit | src/cobs.hpp:45-49 | the cells before the write position are the frame of what was inserted |
| Cobs.ScanEncodes | src/cobs.hpp:64-68 | reading the source one byte at a time arrives at its block-wise encoding |
| Cobs.ScanGrows | src/cobs.hpp:66-67 | a target too small for a beginning of the source is too small for all of it |
| Cobs.EncodeCobs | src/cobs.hpp:61-69 | succeeds exactly if the encoding is strictly shorter than the target (an empty source always); the target then begins with the encoding and is untouched behind it |
| Cobs.CobsDecoder.constructor | src/cobs.hpp:111-115 | the first byte of a frame starts a block |
| Cobs.CobsDecoder.Advance | src/cobs.hpp:89-97 | the countdown moves on, starting a block at its end and wrapping around below zero |
| Cobs.CobsDecoder.Iter | src/cobs.hpp:99-104 | the byte yielded is that of the state before the step |
| Cobs.ResumeDecodes | src/cobs.hpp:71-116 | what the countdown yields over a frame is the block-wise decoding, for any bytes, zeros included |
| Cobs.DecodeShortens | src/cobs.hpp:125-140 | a decoded frame is shorter than the frame |
| Cobs.DecodeCobs | src/cobs.hpp:121-141 | yields the decoding of what the source held at the call, also when source and target are one buffer; fails exactly when the decoded bytes fill the target |
| Framing.FramesOfParts | src/util.hpp:101-120 | cutting a stream in two: the frames are those of the first part, then those of its residue and the second |
| Framing.ResidueIsPrefix | src/util.hpp:101-120 | a residue in mid-stream is the beginning of a later frame or of the final residue |
| Framing.ResidueBound | src/util.hpp:92-100 | so it is never longer than the longest frame |
| Framing.FramesOfWire | src/util.hpp:103-120 | the stream of the encoded messages has exactly their encodings as frames and no residue |
| Framing.WireDecodes | src/util.hpp:103-116 | decoding these frames gives the messages |
| Framing.MidSession | src/util.hpp:92-120 | at any point of a session no empty frame has come and the residue is shorter than the longest frame with its terminator |
| Framing.EndOfSession | src/util.hpp:103-120 | at its end every message has been decoded, in order, and nothing is left over |
| Connection.SendBufferSuffices | src/util.cpp:49-52 | all but the last cell of the send buffer hold the encoding of any message of that size |
| Connection.CobsSend | src/util.cpp:47-67 | the encoding never fails; what is written to the socket is the encoding and a zero byte |
| Connection.Find | src/util.hpp:105-107 | the first zero in the used part of the buffer, or its end |
| Connection.ShiftDown | src/util.hpp:118 | the overlapping forward copy moves the rest of the buffer to its start |
| Connection.CobsReceiver.constructor | src/util.hpp:132-136 | nothing received, nothing delivered |
| Connection.CobsReceiver.HandleRx | src/util.hpp:90-121 | aborts exactly if the chunk does not fit behind the residue; otherwise what has been delivered is the decoding of all complete frames received so far, and the buffer holds the residue |
| Connection.CobsReceiver.Append | src/util.hpp:101-102 | the chunk is behind the residue |
| Connection.CobsReceiver.Drain | src/util.hpp:103-120 | delivers every complete frame of the buffer in order, leaves the residue, and ends |
| Connection.CobsReceiver.TakeFrame | src/util.hpp:109-119 | in-place decoding of one frame succeeds and the bytes after the frame survive it |
| Connection.SendAll | src/util.cpp:47-67 | sending messages one after the other forms the stream of their frames |
| Connection.ReceiveAll | src/util.hpp:90-121 | however that stream is cut into chunks, exactly the messages are delivered, in order, the buffer ends empty, and the abort is not reached if there is room for a chunk behind a frame |
| FixedStr.PathBuffer.Append | src/str.hpp:25-33 | writes as much of the string as leaves room for the NUL, returns where it ends, and changes nothing else |
| FixedStr.PathBuffer.SetEnd | src/str.hpp:40-43 | cuts the string off at the node |
| FixedStr.AppendSpells | src/str.hpp:25-33 | the buffer spells the longer string exactly if it fits |
| FixedStr.SpellsCString | src/str.hpp:45-48 | what a C function reads from such a buffer |
| FileSystems.StringsName | src/fs.hpp:617-626 | the strings assembled for a file or a directory name exactly the path of their components |
| RmRfSpec.TopText | src/fs.hpp:613-625 | the string of the top directory has no NUL in it, fits, and names that directory |
| RmRfSpec.TextsNest | src/fs.hpp:617-625 | lower stack entries are spelled by proper prefixes of what higher ones are spelled by |
| RmRfSpec.TopGone | src/fs.hpp:700-705 | a partial delete that has removed the top has removed everything below it and nothing else |
| RmRfSpec.WorkAfter | src/fs.hpp:541-709 | removing a file leaves two callbacks less to make, removing a directory five |
| RmRfSpec.WorkLeft | src/fs.hpp:555-569 | every directory on the stack still has its five callbacks in the measure, so it stays positive |
| RmRfs.RmRf.constructor | src/fs.hpp:527-534 | the path ends in the slash appended to the root |
| RmRfs.RmRf.Start | src/fs.hpp:540-553 | opens the root; without stack entries reports an error instead |
| RmRfs.RmRf.IncrEntry | src/fs.hpp:555-561 | fails exactly at the last stack entry |
| RmRfs.RmRf.DecrEntry | src/fs.hpp:563-569 | fails exactly at the first |
| RmRfs.RmRf.OnOpendir | src/fs.hpp:572-589 | keeps the invariant; the new stream is on top and is read next |
| RmRfs.RmRf.OnReaddir | src/fs.hpp:602-648 | keeps the invariant; an entry is entered, unlinked or refused by its kind, an empty directory is closed |
| RmRfs.RmRf.OnUnlink | src/fs.hpp:650-667 | keeps the invariant; the buffer is cut back to the directory, which is read again |
| RmRfs.RmRf.OnClosedir | src/fs.hpp:670-685 | keeps the invariant; the directory to remove is the closed one, and is empty |
| RmRfs.RmRf.OnRmdir | src/fs.hpp:688-709 | keeps the invariant; goes on with the parent, or completes at the bottom of the stack |
| RmRfs.RmRf.Step | src/fs.hpp:541-709 | every request but a hopeless first one hits what it should (an existing directory, a file, an empty directory), and each callback makes the exact number of callbacks to come one less |
| RmRfs.RmRf.LeftPositive | src/fs.hpp:541-709 | that number is positive while a request is in flight, so the run ends |
| RmRfs.RmRf.Run | src/fs.hpp:541-709 | the run makes exactly one completion, and its outcome is that of a recursive delete |
| RmRfs.RmRf.SharedBuffer | src/fs.hpp:613-706 | the nodes on the stack lie at increasing places of one buffer, each behind the path of its directory |
| RmRfs.RmRf.BufferNames | src/fs.hpp:613-706 | the C string in the buffer is the root, a slash and the names down to the top directory, each with a slash behind it, or down to the file being unlinked; as a path it names just that |
| RmRfs.DeleteTree | src/fs.hpp:527-709 | nothing outside the directory changes; it succeeds exactly if there are a stack and a directory, there are only files and directories in it, and none of the 2F+5D-1 requests fails; then all of it is gone and no stream is left open, whatever order the entries are read in |
| AsyncStorage.CreateInv | src/util/async_storage.hpp:202-218 | creating a core with its first pointer keeps the lifetime invariant |
| AsyncStorage.AcquireInv | src/util/async_storage.hpp:100-104 | so does taking another pointer to a core that is still counted |
| AsyncStorage.ReleaseInv | src/util/async_storage.hpp:142-149 | so does dropping a pointer, whose core is counted; the last one queues the core |
| AsyncStorage.MoveInv | src/util/async_storage.hpp:109-113 | so does moving one |
| AsyncStorage.AssignedSteps | src/util/async_storage.hpp:115-120 | take over first, release what was replaced afterwards: the same as releasing it first and moving then |
| AsyncStorage.FinishInv | src/util/async_storage.hpp:289-310 | so does the end of a destroy |
| AsyncStorage.TickInv | src/util/async_storage.hpp:273-287 | so does a tick |
| AsyncStorage.HolderCounted | src/util/async_storage.hpp:142-149 | a core with a pointer exists, has a positive count and was never released |
| AsyncStorage.OneStage | src/util/async_storage.hpp:142-149 | every core ever created is at exactly one of: live, queued, being destroyed, awaiting erase, deleted |
| AsyncStorage.LiveWhileHeld | src/util/async_storage.hpp:94-149 | it is live exactly while some pointer has it |
| AsyncStorage.DeletedLast | src/util/async_storage.hpp:275-278 | a tick deletes at most one core: one without pointers whose destroy has finished |
| AsyncStorage.DestroyedInOrder | src/util/async_storage.hpp:279-283 | what has been deleted, finished, started and released are prefixes of each other, and at most one core is in work |
| AsyncStorage.AnnouncedEarly | src/util/async_storage.hpp:284-286 | whenever "all destroyed" is announced, some destroy has been started and not finished |
| AsyncStorage.AnnouncesWhen | src/util/async_storage.hpp:284-286 | a tick announces exactly if nothing is queued and the last destroy started has not finished |
| AsyncStorage.ApplyInv | src/util/async_storage.hpp:94-310 | every operation of the storage keeps the invariant |
| AsyncStorage.ApplyPointers | src/util/async_storage.hpp:94-253 | what each operation makes of the pointers, as a map: which are added, replaced and removed, and that all others stay |
| AsyncStorage.ReleasedUnheld | src/util/async_storage.hpp:142-149 | the released cores are exactly those created that no pointer has |
| AsyncStorage.ReleasedExactly | src/util/async_storage.hpp:142-149 | an operation releases exactly the cores whose last pointer it takes away |
| StorageRuns.RunInv | src/util/async_storage.hpp:94-310 | so it holds in every state of every run, and what has been released, started, finished or deleted stays so |
| StorageRuns.OneByOne | src/util/async_storage.hpp:273-287 | after every run of a new storage cores have been started, finished and deleted in the order in which their counts reached zero, one at a time, and a tick deletes only the core finished last, which has no holder |
| StorageRuns.KeptWhileHeld | src/util/async_storage.hpp:94-149 | through any run, the core of a pointer that is not erased, assigned or dropped exists, is counted and is not released |
| StorageRuns.HandedOutKept | src/util/async_storage.hpp:212-218 | the core made by `emplace` stays while the caller keeps its pointer, even if its entry is erased |
| StorageRuns.ReleasedInRuns | src/util/async_storage.hpp:94-310 | after every run of a new storage the released cores are those without a pointer |
| StorageRuns.DroppedLast | src/util/async_storage.hpp:142-149 | a core whose last pointer is dropped goes to the end of the queue, and is deleted once the queue has drained |
| StorageRuns.AnnouncedExactly | src/util/async_storage.hpp:284-286 | a run announces exactly if one of its ticks comes while the last released core is being destroyed |
| StorageRuns.OneCoreAnnounced | src/util/async_storage.hpp:273-287 | a run of a new storage that announces with its only core not destroyed; with a destroy that completes at once it does not announce, and the core is deleted |
| StorageRuns.NeverAnnounced | src/util/async_storage.hpp:273-287 | if every tick finds all started destroys finished, none announces, and one tick more than cores in the queue deletes everything released so far |
| StorageRuns.NeverAnnouncedIfSync | src/util/async_storage.hpp:273-287 | such are all runs in which destroys complete at once |
| StorageRuns.OwedAfter | src/util/async_storage.hpp:273-299 | each completion, and each tick that finds no destroy running, lowers what deletion still needs; other actions do not change it, and a tick that finds one running changes nothing at all |
| StorageRuns.Paid | src/util/async_storage.hpp:273-299 | so along every run, with any other actions in between |
| StorageRuns.Drains | src/util/async_storage.hpp:273-299 | 2n + 2 completions and ticks that find no destroy running, in any mix, delete all cores released when there were n in the queue, in the order of release, whatever the program does in between |
| StorageRuns.DrainsInTicks | src/util/async_storage.hpp:273-299 | counting such ticks alone, n + 1 do |
| StorageRuns.DrainsCompletely | src/util/async_storage.hpp:273-299 | if the program only waits, then exactly the released cores are deleted, nothing is left in work, and no pointer has changed |
| AsyncMaps.AsyncMap.Link | src/util/async_storage.hpp:100-104 | a pointer made from a core is one more holder |
| AsyncMaps.AsyncMap.Destruct | src/util/async_storage.hpp:142-149 | the last holder gone, the core is behind all others in the queue |
| AsyncMaps.AsyncMap.Assign | src/util/async_storage.hpp:115-120 | the target has what the source had, the source is null, what the target had has one holder less; assigning to itself changes nothing; no other pointer changes |
| AsyncMaps.AsyncMap.TryEmplace | src/util/async_storage.hpp:201-210 | if the key was absent, a new core with one pointer, under the key; otherwise nothing changes |
| AsyncMaps.AsyncMap.Emplace | src/util/async_storage.hpp:190-218 | if the key was absent, a new core with two pointers, the entry and that of the caller; otherwise nothing changes |
| AsyncMaps.AsyncMap.Erase | src/util/async_storage.hpp:250-253 | the pointer of the map is gone, and no other |
| AsyncMaps.AsyncMap.Get | src/util/async_storage.hpp:68-71 | one more pointer to a counted core, and one more in its count |
| AsyncMaps.AsyncMap.Drop | src/util/async_storage.hpp:142-149 | a held pointer is gone, and no other |
| AsyncMaps.AsyncMap.DestroyEnded | src/util/async_storage.hpp:296-309 | marks the core of the running destroy for erasure |
| AsyncMaps.AsyncMap.Tick | src/util/async_storage.hpp:273-287 | erases a finished core, then starts the next destroy or makes the announcement |
| SenderFifo.InOrder | src/util/async_sender_fifo.hpp:30-39 | nobody is overtaken when operations complete while being started |
| SenderFifo.Fifo.OnStart | src/util/async_sender_fifo.hpp:20-28 | waits if an operation is active; else starts, with all that complete at once in turn; arrival order is start order |
| SenderFifo.Fifo.OnEnd | src/util/async_sender_fifo.hpp:30-39 | the first waiter takes the slot; an idle fifo has no waiters |
| SenderFifo.Fifo.DoStart | src/util/async_sender_fifo.hpp:101-104 | each operation is started once, and nested completions end |
| SenderFifo.Fifo.Complete | src/util/async_sender_fifo.hpp:65-82 | what the receiver starts during the completion queues up behind the waiters |
| SenderFifo.Fifo.Turn | src/util/async_sender_fifo.hpp:15-40 | for every mix of arrivals and completions, arrivals are those completed, then the active one, then the waiters; an arrival waits behind all others, or starts if the fifo is idle |
| SenderFifo.Fifo.CompleteAll | src/util/async_sender_fifo.hpp:15-40 | if operations complete, everything that arrived is completed, in the order of arrival |
| AsyncQueues.AsyncQueue.Enque | src/util/async_queue.hpp:35-44 | items and waiters never wait both, and the i-th dequeue gets the i-th item |
| AsyncQueues.AsyncQueue.EnqueAll | src/util/async_queue.hpp:46-56 | every waiter gets the item; without waiters it is queued |
| AsyncQueues.AsyncQueue.Start | src/util/async_queue.hpp:82-96 | keeps the matching |
| AsyncQueues.AsyncOptional.Emplace | src/util/async_optional.hpp:33-42 | every waiter gets the value and nobody is left waiting |
| AsyncQueues.AsyncOptional.Start | src/util/async_optional.hpp:69-75 | waits until there is a value, and completes at once when there is |
| ProcessStreams.ProcStream.EnqueOutput | src/unit/process.hpp:73-80 | before the exit the k-th request gets the k-th output event; after it output is not reported |
| ProcessStreams.ProcStream.EnqueExit | src/unit/process.hpp:81-85 | no request is left waiting; all that were get the one exit status |
| ProcessStreams.ProcStream.Progress | src/unit/process.hpp:300-320 | after the exit a request completes at once with the status, unread output or not |
| ProcessStreams.ProcStream.AwaitExit | src/unit/process.hpp:208-220 | whoever waits for the exit gets the status, at once if it is there |
| ProcessStreams.ProcStream.ReportedExactly | src/unit/process.hpp:300-320 | after the exit, the k-th output event has been reported exactly if there had been more than k requests before it; all other answers are the exit |
| ProcessStreams.UnreadAtExit | src/unit/process.hpp:300-320 | output, exit, request: the only answer is the exit status |
| Chunks.CoveredSize | src/unit/fs_transfer.hpp:52-53 | chunks cover at most the sum of their sizes, and exactly that if and only if they are disjoint |
| Chunks.Pigeonhole | src/unit/fs_transfer.hpp:58-64 | chunks within the file whose sizes add up to its size leave nothing out exactly if they are disjoint |
| Chunks.FileAt | src/unit/fs_transfer.hpp:48-54 | what a chunk wrote is still there after the others have been written |
| Chunks.LastWritten | src/unit/fs_transfer.hpp:48-54 | for any chunks, overlapping or not, a byte is that of the last chunk that has it |
| Chunks.NeverWritten | src/unit/fs_transfer.hpp:48-54 | a byte that no chunk has is zero |
| Chunks.FileLength | src/unit/fs_transfer.hpp:48-54 | the file ends where the furthest chunk with any bytes ends |
| Chunks.Assembled | src/unit/fs_transfer.hpp:48-64 | the file then has the declared size and every byte from its one chunk |
| Chunks.AnyOrder | src/unit/fs_transfer.hpp:48-54 | and is the same in whatever order the chunks arrived |
| Chunks.OverlapLeavesHole | src/unit/fs_transfer.hpp:61-64 | with overlapping chunks the size check passes and a byte is missing |
| Fnv.HashOfParts | src/util.hpp:244-256 | hashing piece by piece is hashing the whole |
| Fnv.MixExact | src/util.hpp:252-253 | one byte, for all states and bytes: the exclusive or times 16777619 as exact numbers, modulo 2^32 |
| Fnv.PublishedA | src/util.hpp:244-256 | the published 32-bit FNV-1a value of "a" |
| Fnv.PublishedFoobar | src/util.hpp:244-256 | and of "foobar" |
| Fnv.Fnv1a.Update | src/util.hpp:249-255 | continues the hash |
| Transfers.SizeCheckExact | src/unit/fs_transfer.hpp:169 | the 64-bit check agrees with the sum of offset and size exactly if the sum does not wrap around or is too large in any case |
| Transfers.HashLoopEnds | src/unit/fs_transfer.hpp:67 | the 32-bit offset gets past the file size exactly for files of at most 2^32 - 4096 bytes |
| Transfers.FileTransferSlot.Start | src/unit/fs_transfer.hpp:40-46 | creates and opens the file |
| Transfers.FileTransferSlot.TransferData | src/unit/fs_transfer.hpp:155-177 | accepts a chunk exactly if the transfer is listed and the chunk ends within the declared size; the file is that of all accepted chunks |
| Transfers.FileTransferSlot.HashFile | src/unit/fs_transfer.hpp:66-70 | reading 4096 bytes at a time gives the hash of the whole file |
| Transfers.FileTransferSlot.EndTransfer | src/unit/fs_transfer.hpp:180-200 | succeeds exactly if the transfer is listed, the sizes add up and the hash of the file is the expected one; it is no longer listed |
| Transfers.FileTransferSlot.End | src/unit/fs_transfer.hpp:58-82 | likewise; the handle is closed on success only |
| Transfers.FileTransferSlot.Shutdown | src/unit/fs_transfer.hpp:84-94 | a file still open is closed and removed, a completed one is left alone, whether the slot is listed or not |
| Transfers.FileTransferSlot.Destroy | src/unit/fs_transfer.hpp:96-105 | whatever came before, every handle opened has been closed, once, and the file is there exactly if the transfer ended without an error |
| Transfers.FileTransferSlot.CompletedFile | src/unit/fs_transfer.hpp:58-82 | a completed transfer of disjoint chunks has left exactly the file they make up |
| Transfers.Lifetime | src/unit/fs_transfer.hpp:40-105 | for every order of start, data, end and shutdown, repeated or not, and the destruction at last: each operation succeeds exactly if those before it allow it; every handle opened is closed exactly once; there is a file exactly if an end succeeded, made of the chunks accepted |
| Transfers.FileTransferSlot.Do | src/unit/fs_transfer.hpp:40-200 | start and shutdown succeed; data exactly if the slot is listed and the chunk ends within the declared size; an end exactly if it is listed, the sizes add up and the hash is the expected one |
| Transfers.DataAccepted | src/unit/fs_transfer.hpp:155-177 | after a start, chunks within the declared size are all accepted, in their order |
| Transfers.TransferEnds | src/unit/fs_transfer.hpp:58-82 | a start, chunks that add up and an end: it succeeds, and nothing has failed, exactly if the file of the chunks has the expected hash |
| Transfers.TransferWhole | src/unit/fs_transfer.hpp:40-105 | with disjoint chunks in any order that file is what remains, every byte from its chunk; with another hash nothing remains |

## Left out

Assumptions, in the model as preconditions or by the choice of types:

- Frames received are not empty: the decoder reads the first byte of a frame without looking (`src/cobs.hpp:126`).
- The encoder's target has a cell, and two if there is anything to encode; it writes before it checks.
- Sizes, offsets, the written-bytes counter and the reference counts are unbounded numbers, except the encoder's and decoder's bytes and the offset of the hashing loop.
- Spans start at the beginning of their array; the source and the target of a decoding are either one buffer or two that do not overlap.
- A buffer made by `make_span` is filled with zeros (`src/util.cpp:49-57`): the terminator of a frame sent is the cell behind the encoding, which the program does not write.
- In a delete, paths fit the buffer and directories the stack; path strings are read without symbolic links and without a meaning for `.` and `..`; a request that fails changes nothing.
- A delete's stack without entries is a null pointer; the program tests the pointer, and would write behind an empty stack that is not null (`src/fs.hpp:540-553`).
- `async_ptr_source::get`, which `shutdown` of a slot calls, is used only while the count is positive, and the exit callback of a process comes once.
- Operations of a transfer slot are atomic and successful, its file is new, and reads and writes are complete.

Not in the model:

- libuv, sockets, process spawning, logging, command lines, nanopb messages and the coroutine library: they are the callbacks, completions and results that the modelled code gets.
- `async_map_core::clear` and `async_map::shutdown`: the search in `clear` does not advance past the first entry, and the slot's use of it is modelled as removing the slot from the map.
- The map of transfers by id and two transfers with one path: one slot is modelled, with the look-up of its id.
- Folders, directory iteration, task slots and pagination: look-ups in a map, one request each, without an invariant that spans them. The parser of test scripts (`src/unit/test/inpt_utest.cpp`) belongs to the tests.
- Connection.CobsReceiver.HandleRx: a chunk that completes an empty frame, as two zeros in a row do, is excluded; the program would read the first byte of an empty span.
- RmRfs.RmRf.Start: trees deeper than the stack, or with paths longer than the buffer, are excluded, as in `DeleteTree`.
- RmRfs.DeleteTree: such trees are excluded from its first half too, that nothing outside the directory changes. A path that is cut may name another entry, and a name that begins with two dots may be cut to `..`, which this file system gives no meaning.
- Transfers.FileTransferSlot.TransferData: offset and size are added without wrapping around, as in the program exactly in the cases of `SizeCheckExact`; where a chunk whose sum wraps around would be written is up to libuv.
- Transfers.FileTransferSlot.EndTransfer: a file of more than 2^32 - 4096 bytes whose byte count is right is excluded, as the hashing loop does not end (`HashLoopEnds`); `End` and `Lifetime` likewise.
- AsyncQueues.AsyncQueue.EnqueAll: waiters that dequeue again while they are being resumed are not modelled; the loop of the program would serve them too. A progress request that is asked again does not: the exit status is set by then, and it is answered without the queue.
- AsyncQueues.AsyncQueue.EnqueAll: handing one item to several waiters moves from it; the only item so handed is the exit event, which a move leaves as it is.
