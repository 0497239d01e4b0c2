# The client receive path of the streaming protocol, and the components that feed it

The host cuts every encoded video frame into fragments of at most 1300 bytes, adds one XOR parity packet for each
group of up to five fragments, and sends everything as datagrams that may be lost, repeated and reordered. The client
puts the frames together again, rebuilds single losses from parity, asks for retransmissions, skips to a later
keyframe when it is stuck, and passes finished frames through a jitter buffer to the decoder. This project models that
path together with the replay window in front of it, the single-producer single-consumer queue, the STUN response
walkers, the clock synchronisation, the encoder life cycle, the configuration file and the host's admission of clients,
and proves what they are for.

| file | what it holds |
|---|---|
| `Protocol`, `Bytes`, `Words`, `Wrappers` | headers and constants; XOR algebra on bytes; bitwise operations and wrap-around on 64-bit words; the optional value |
| `Packetizer` | the sender: cutting a frame, building parity, and what a genuine packet is |
| `Reassembly` | the receiver as functions on values: one frame, the rings, the read pointer, the requests |
| `ReceiverInvariants` | bookkeeping that every operation keeps, for arbitrary packets |
| `Fidelity` | with genuine packets: the bytes are the sender's, and no recoverable loss is left pending |
| `Arrival` | what an arriving packet achieves: its fragment is held, its parity repairs, and a frame whose fragments have all arrived is ready when its turn comes |
| `ReceiverWindow` | exactly which packets evict a frame, and that nothing is lost over runs inside the window |
| `ParityPool` | exactly which runs exhaust the pool of parity packets |
| `Retransmission` | which fragments are requested, and that answering ends with the frames complete |
| `FrameData`, `PacketPool`, `Receiver` | the mutable objects: buffers written in place, pools, aliasing and ownership |
| `ReplayWindow` | the ring of sixteen 64-bit words and the set it stands for |
| `JitterModel`, `JitterRuns`, `JitterBuffer` | the two parallel 32-slot rings, as values, over whole runs, and as an object |
| `Ownership` | the frame objects between receiver, jitter buffer and decoder: who owns each, and what one turn of the client's loop does with them |
| `TurnModel`, `TurnRuns` | one turn of that loop as a function on values, and as a run of the interleaved threads |
| `Pipeline`, `Overflow`, `Custody` | the client and network threads interleaved, receiver and jitter buffer composed; exactly when the decoder's stream breaks; where each delivered frame is |
| `LockFreeQueue` | the queue as interleaved atomic steps with late reads, and as an object |
| `Stun`, `ClockSync`, `EncoderLifecycle`, `Config` | one file per component |
| `Admission`, `ClientAddresses` | the host's admission protocol, and when client addresses are unique |

An object of the source that changes its fields is a class here. Each method is proved equal to a function on values,
and the properties are proved about those functions and about all runs made of them. The sender's history, a map from
frame id to the original bytes, keyframe flag and timestamps, is a parameter of every statement about genuine packets.

## Assumptions

- Video and parity packets are genuine where a statement says so (`GenuineVideo`, `GenuineFEC`): some frame of the
  sender explains every header field and every byte. Bookkeeping, ownership, eviction and request selection are proved
  for arbitrary packets.
- Frame ids are natural numbers; the 32-bit counter does not wrap during a run.
- Frames have 1 to 1048576 bytes, which is what the receiver's buffers hold.
- A parity payload has at most 1300 bytes. A longer one would overlap the next fragment's region.
- Runs of the receiver do not stop where the pool of parity packets is exhausted: what is proved of all of them holds in
  particular for those that never get there. At this commit the tests and the benchmark hand parity packets to the
  receiver and the client loop does not; the executions allow them at any time.
- A recycled frame keeps the bytes of the frame before it. The functions on values take that content as an argument
  called `stale`, and every theorem holds whatever it is.

## What the proofs found

- Parity packets are never returned to their pool of 512: a slot of the parity ring that has been filled stays filled,
  and the code uses the result of `acquire()` unchecked (cpp/client/receiver.cpp:157-158). A run dereferences null exactly
  when its parity packets name more than 512 slots (`ParityPool.ServedIff`), and 513 frames in a row whose first groups
  have parity are enough (`ParityPool.LongStreamStarves`, `ParityPool.StreamStarves`).
- A frame of 807 fragments has a last fragment that parity can never rebuild: its full-size payload would end past the
  buffer (`Fidelity.RecoverableIff`, `Fidelity.LastFragmentLost`).
- The first parity packet of a frame shares its slot with the fourteenth of the frame before it, so in frames of more
  than 66 fragments parity of one frame is lost to the next (`ParityPool.NeighboursCollide`).
- A packet any multiple of 64 ids ahead of a held frame evicts it (`ReceiverWindow.EvictedExactly`,
  `ReceiverWindow.LossOutsideWindow`, `ReceiverWindow.EvictionHappens`).
- A push that collides with another id in the jitter buffer leaves its counter one too high until the next reset
  (`JitterModel.PushExactIff`, `JitterModel.CollisionExample`). While pushes stay less than 32 ids ahead this cannot
  happen (`JitterRuns.RunNear`), and in the client loop they do (`Pipeline.BufferIsContiguous`).
- When the jitter buffer overflows it drops its oldest frame, and the decoder goes on with the frame after it. What the
  decoder gets fails to be decodable exactly when a pop follows a push into 28 held frames whose second is no keyframe,
  with no other pop, reset or push down to a keyframe in between (`Overflow.StreamIntactIff`). 29 frames arriving between
  two pops are enough (`Overflow.OverflowHappens`); before the first pop the only keyframe is lost that way
  (`Overflow.KeyframeLost`).
- The static assertion of the queue lets a capacity of zero through. Such a queue refuses every push and every pop, so
  all results hold for it too.
- The STUN walkers do not look at the announced message length, the magic cookie, the transaction id or the address
  family. Bytes after the announced message are read as attributes, which changes the answer exactly when they
  give an address and the message has none (`Stun.TrailingBytesHarmlessIff`).
- The clock offset can be exact for asymmetric delays, when truncation hides a difference of one
  (`ClockSynchronisation.OffsetExact`).
- `Initialize` on a manager that was shut down reports success and stays shut down
  (`EncoderLifecycle.InitializeReports`, `EncoderLifecycle.ReportsThoughShut`), and `Shutdown` on an idle manager is
  refused by the transition table (`EncoderLifecycle.ShutDownReaches`). A degraded session never streams normally again
  without `Initialize` (`EncoderLifecycle.NeverRecovers`).
- Settings that are not trimmed, or contain `#`, a newline, or (in a key) `=`, do not survive a save
  (`ConfigFile.SaveThenLoad`, `ConfigFile.CommentCutsValue`).
- An initialization thread that starts after the session was stopped never erases its address
  (`HostAdmission.StoppedThreadLeaks`, `HostAdmission.BeginKeepsHeldIff`, `HostAdmission.LeakHappens`). A repeated
  handshake can give one address two clients, exactly when it is admitted while its address has a client
  (`ClientAddresses.DuplicateIff`).

## Model

| member | source | states |
|---|---|---|
| `Packetizer.FragmentSize` | cpp/common/session_manager.cpp:430 | each fragment is 1 to 1300 bytes, all but the last are full, and the last ends exactly at the end of the frame |
| `Packetizer.Packetize` | cpp/common/session_manager.cpp:413-431 | a frame of at most 1 MiB becomes at most 807 genuine packets whose payloads concatenate to exactly the frame |
| `Packetizer.CutFragment` | cpp/common/session_manager.cpp:421-431 | one header and payload agree with the frame they were cut from |
| `Packetizer.BuildParity` | cpp/stress_test.cpp:111-138 | the parity packet of an aligned group carries the XOR of its zero-padded fragments |
| `Packetizer.XorInto` | cpp/stress_test.cpp:131-133 | in-place XOR touches exactly the front of the buffer that the fragment covers |
| `Bytes.XorCancel` | cpp/client/receiver.cpp:197-212 | XOR-ing a column with a copy whose one entry is zeroed gives that entry |
| `ReceiverInvariants.FullCount` | cpp/client/receiver.cpp:134 | counting all fragments is the same as having every bit set |
| `ReceiverInvariants.MissingComplete` | cpp/client/receiver.cpp:179-186 | the list of missing fragments is exactly the clear bits |
| `ReceiverInvariants.ProcessPacketOk` | cpp/client/receiver.cpp:62-141 | for any packet: every frame in the ring counts its set bits right, is complete exactly when all are set, sits in its slot and is not below the read pointer |
| `ReceiverInvariants.ProcessFECOk` | cpp/client/receiver.cpp:143-164 | the same across the parity path |
| `ReceiverInvariants.TakeOk` | cpp/client/receiver.cpp:230-247 | the same across delivery |
| `ReceiverInvariants.ForceAdvanceOk` | cpp/client/receiver.cpp:267-279 | the same across skipping ahead: no frame below the new read pointer stays |
| `Fidelity.RecoverExact` | cpp/client/receiver.cpp:188-221 | parity fills the one missing fragment with the sender's bytes then zeros and changes no other byte of the buffer |
| `Fidelity.RecoverTrue` | cpp/client/receiver.cpp:188-227 | after a recovery the frame still agrees with the sender everywhere |
| `Fidelity.AssembleTrue` | cpp/client/receiver.cpp:112-140 | after a genuine fragment the frame still agrees with the sender, whatever order, repetition or loss came before |
| `Fidelity.AssemblePending` | cpp/client/receiver.cpp:129-131 | and no held parity packet could complete its group |
| `Fidelity.ProcessPacketGood` | cpp/client/receiver.cpp:62-141 | the whole receiver stays faithful and eager under every genuine video packet, with any stale buffer content |
| `Fidelity.ProcessFECGood` | cpp/client/receiver.cpp:143-164 | and under every genuine parity packet, including one that overwrites another group's slot |
| `Fidelity.TakeGood` | cpp/client/receiver.cpp:230-247 | and under delivery |
| `Fidelity.ForceAdvanceGood` | cpp/client/receiver.cpp:267-279 | and under skipping |
| `Fidelity.CompleteIsFaithful` | cpp/client/receiver.cpp:230-247 | a complete frame holds exactly the original bytes, then zeros only if parity supplied the last fragment, with the original flags and timestamps |
| `Fidelity.EagerRecovery` | cpp/client/receiver.cpp:129-131 | in frames of at most 806 fragments no held group misses exactly one fragment |
| `Fidelity.RecoverableIff` | cpp/client/receiver.cpp:188-190 | one missing fragment of a genuine group is rebuilt if and only if it is not fragment 806 |
| `Fidelity.LastFragmentLost` | cpp/client/receiver.cpp:188-190 | with genuine packets, a frame of 807 fragments whose fragment 805 and last parity have arrived misses exactly fragment 806 of the group and does not get it |
| `Retransmission.PendingNACKsExact` | cpp/client/receiver.cpp:40-60 | a call lists, in increasing order without duplicates, the first ten missing fragments of incomplete frames in the next 32 ids, or all if fewer |
| `Retransmission.AllMissingIncreasing` | cpp/client/receiver.cpp:46-58 | the scan meets the pairs in lexicographic order |
| `Retransmission.NoNacksIffComplete` | cpp/client/receiver.cpp:40-60 | nothing is requested exactly when every frame held in that window is complete |
| `ReceiverWindow.EvictedExactly` | cpp/client/receiver.cpp:88-110 | a held frame is evicted if and only if an accepted packet of another frame has its slot; otherwise it stays with every stored fragment unchanged |
| `ReceiverWindow.NoLossInWindow` | cpp/client/receiver.cpp:80-141 | a packet within 64 ids of the read pointer evicts no frame within 64 of it and forgets or changes no stored fragment |
| `ReceiverWindow.StoredStays` | cpp/client/receiver.cpp:80-279 | over every run of video packets, parity packets, deliveries and skips from the start, with arbitrary packets whose ids stay within 64 of the read pointer, a frame that is held stays held with every fragment it had until the read pointer passes it |
| `ReceiverWindow.RunInWindow` | cpp/client/receiver.cpp:62-279 | such a run never holds a frame 64 or more ahead |
| `ReceiverWindow.LossOutsideWindow` | cpp/client/receiver.cpp:88-110 | an accepted packet of a later frame evicts a held one exactly when it is a multiple of 64 ids ahead of it |
| `ReceiverWindow.EvictionHappens` | cpp/client/receiver.cpp:88-110 | from the start, a keyframe packet and then one 64 ids later lose the first frame |
| `Arrival.FragmentArrives` | cpp/client/receiver.cpp:62-141 | after any genuine video packet whose frame the read pointer is not past (or whose frame is a keyframe, before the first one) its frame is held and has its fragment, whatever the ring held |
| `Arrival.LateIsDropped` | cpp/client/receiver.cpp:69-80 | any other genuine video packet changes nothing |
| `Arrival.FirstKeyframeStarts` | cpp/client/receiver.cpp:69-80 | the first packet with the keyframe flag sets the read pointer, even if it is then dropped, and packets before it change nothing |
| `Arrival.ParityIsHeld` | cpp/client/receiver.cpp:146-160 | after a genuine parity packet that is not stale its slot holds it, whatever the slot held, and all others stay; a stale one changes nothing |
| `Arrival.ParityRepairs` | cpp/client/receiver.cpp:143-228 | if such a packet finds all fragments of its group but one held, after it all are, unless the missing one is 806 |
| `Arrival.ParityStays` | cpp/client/receiver.cpp:148-160 | over every run a parity packet keeps its slot until a packet of another group names it |
| `Arrival.CompletedByArrivals` | cpp/client/receiver.cpp:62-247 | over every run of genuine packets, deliveries and skips inside the window: once every fragment of a frame has arrived in time, in any order, or held parity stands in for it, the frame is held, complete and the sender's until the read pointer passes it, and is what the next delivery hands out when the pointer is at it |
| `Retransmission.AnswerProgress` | cpp/client/receiver.cpp:112-134 | a genuine packet that answers a pending request strictly lowers the number of missing fragments |
| `Retransmission.Answerable` | cpp/client/receiver.cpp:40-60 | every pending request has a genuine packet that answers it |
| `Retransmission.AnsweringTerminates` | cpp/client/receiver.cpp:40-60 | however requests are answered, each answer pays for at least one missing fragment, so there are at most as many answers as fragments missing at the start |
| `Retransmission.MaximalRoundRestores` | cpp/client/receiver.cpp:40-141 | a round of answers that no packet can continue leaves nothing to request, the read pointer in place, and every frame held at the start among the next 32 ids held, complete and equal to the sender's |
| `Retransmission.RoundCompletes` | cpp/client/receiver.cpp:40-141 | every round of answers can be continued to such an end within that number of answers |
| `FrameObjects.FrameData.Reset` | cpp/client/receiver.cpp:8-22 | every field is cleared and the buffer is not |
| `FrameObjects.FrameData.Begin` | cpp/client/receiver.cpp:95-108 | a recycled frame becomes the new frame of the header, with its old bytes |
| `FrameObjects.FrameData.StoreFragment` | cpp/client/receiver.cpp:114-127 | the object after storing is the stored frame of the model |
| `FrameObjects.FrameData.CountClear` | cpp/client/receiver.cpp:177-186 | the counting loop, with its 16-bit index and early exit, counts the missing fragments and remembers the last |
| `FrameObjects.FrameData.XorHeld` | cpp/client/receiver.cpp:204-211 | the inner XOR loop adds the zero-padded other fragment to the region and changes nothing else |
| `FrameObjects.FrameData.RebuildRegion` | cpp/client/receiver.cpp:192-212 | the double XOR loop leaves parity XOR-ed with every other held fragment in the hole's region and nothing else changed |
| `FrameObjects.FrameData.Rebuild` | cpp/client/receiver.cpp:177-227 | the object is recovered exactly when the model's frame is |
| `PacketPools.PacketPool.Acquire` | cpp/common/packet_pool.hpp:32-44 | the last packet leaves the pool, or nothing when it is empty |
| `PacketPools.PacketPool.Release` | cpp/common/packet_pool.hpp:46-51 | a packet is appended, nothing is ignored |
| `ClientReceiver.FromPool` | cpp/client/receiver.cpp:308-310 | moving a pooled frame into an empty slot keeps each frame in exactly one place |
| `ClientReceiver.ToPool` | cpp/client/receiver.cpp:273-276 | moving a frame from its slot to the pool does too |
| `ClientReceiver.HandOver` | cpp/client/receiver.cpp:236-243 | and so does handing it out, which takes it and its buffer out of what the receiver may write |
| `ClientReceiver.GroupReplaced` | cpp/client/receiver.cpp:152-160 | releasing and acquiring a parity packet keeps pool plus ring at 512 packets of 1500 bytes |
| `ClientReceiver.Receiver.constructor` | cpp/client/receiver.cpp:24-38 | a new receiver owns the pooled frames and starts empty |
| `ClientReceiver.Receiver.GetFromPoolInternalRaw` | cpp/client/receiver.cpp:297-311 | the last pooled frame, or a new one added to storage |
| `ClientReceiver.Receiver.ReturnToPoolInternalRaw` | cpp/client/receiver.cpp:313-321 | a frame is appended unless the pool already has it |
| `ClientReceiver.Receiver.ReturnToPoolRaw` | cpp/client/receiver.cpp:292-295 | the consumer's frame becomes the receiver's again, and nothing else changes |
| `ClientReceiver.Receiver.TryRecover` | cpp/client/receiver.cpp:166-228 | the state becomes that of the model, and only the frame in the slot is written |
| `ClientReceiver.Receiver.ProcessPacket` | cpp/client/receiver.cpp:62-141 | the state becomes the model's for some stale content; no handed-out frame is written |
| `ClientReceiver.Receiver.ProcessFEC` | cpp/client/receiver.cpp:143-164 | the same for parity packets; the call is not served exactly when the packet is not stale, its slot is empty and the pool is exhausted, where the code dereferences null |
| `ClientReceiver.PoolEmptyIff` | cpp/client/receiver.cpp:152-158 | the packet pool is exhausted exactly when 512 slots of the parity ring hold a packet |
| `ParityPool.ServedIff` | cpp/client/receiver.cpp:143-160 | over every run of the four operations with arbitrary packets, every parity packet is served if and only if those that were not stale name at most 512 slots |
| `ParityPool.StarvesExactly` | cpp/client/receiver.cpp:148-158 | one call fails exactly when it names a slot beyond 512 named before |
| `ParityPool.LongStreamStarves` | cpp/client/receiver.cpp:148-158 | every run that brings, in time, the parity of the first group of 513 to 1024 consecutive frames contains a null dereference |
| `ParityPool.StreamStarves` | cpp/client/receiver.cpp:148-158 | there is such a run for any 513 such parity packets |
| `ParityPool.NeighboursCollide` | cpp/client/receiver.cpp:149 | groups 13 apart in neighbouring frames share a slot |
| `ClientReceiver.Receiver.GetNextFrame` | cpp/client/receiver.cpp:230-247 | hands out the frame at the read pointer exactly when it is complete, and gives up the right to write it |
| `Reassembly.LatestIsNewest` | cpp/client/receiver.cpp:254-262 | no complete keyframe among the scanned ids is newer than the one found |
| `ClientReceiver.Receiver.FindLatestAvailableKeyframe` | cpp/client/receiver.cpp:249-265 | the newest complete keyframe among the next 64 ids, or zero |
| `ClientReceiver.Receiver.ForceAdvanceTo` | cpp/client/receiver.cpp:267-279 | every frame below the target returns to the pool; no handed-out frame is written |
| `ClientReceiver.Receiver.GetPendingNACKs` | cpp/client/receiver.cpp:40-60 | the nested loops with their early return compute the requests of the model |
| `ReplayProtection.SequenceWindow.ValidateSequence` | cpp/client/receiver.cpp:323-351 | accepts a number exactly when it was never accepted and is less than 1024 behind the largest accepted; the words then stand for the new set |
| `ReplayProtection.SequenceWindow.Advance` | cpp/client/receiver.cpp:326-340 | moving the window by any distance leaves the bits of the last 1024 numbers saying exactly which were accepted |
| `ReplayProtection.SequenceWindow.WriteBit` | cpp/client/receiver.cpp:332-336 | setting or clearing one bit of one word changes one number's flag |
| `ReplayProtection.BitSet` | cpp/client/receiver.cpp:346-350 | or-ing a shifted one sets that bit and no other |
| `ReplayProtection.BitCleared` | cpp/client/receiver.cpp:335 | and-ing with its complement clears that bit and no other |
| `ReplayProtection.Addressing` | cpp/client/receiver.cpp:334-335 | word index and bit number address the number modulo 1024 |
| `ReplayProtection.RemembersTheRun` | cpp/client/receiver.cpp:323-351 | over any run the remembered set is exactly what earlier calls accepted |
| `ReplayProtection.AcceptedExactly` | cpp/client/receiver.cpp:323-351 | over any run a call is accepted if and only if no earlier accepted call had the same number or one 1024 or more larger |
| `ReplayProtection.NoReplay` | cpp/client/receiver.cpp:348 | over any run no number is accepted twice |
| `ReplayProtection.StaysTooOld` | cpp/client/receiver.cpp:342-344 | a number that fell out of the window stays rejected |
| `JitterModel.OldestIsMinimal` | cpp/client/jitter_buffer.cpp:48-57 | the overflow scan finds the smallest buffered id |
| `JitterModel.PushDrift` | cpp/client/jitter_buffer.cpp:9-67 | a push keeps slots and info entries in step, and the counter ahead of the entries by one more exactly when it collides |
| `JitterModel.PushExactIff` | cpp/client/jitter_buffer.cpp:31-41 | the counter stays exact if and only if the push does not overwrite another id |
| `JitterModel.CollisionExample` | cpp/client/jitter_buffer.cpp:31-41 | ids 0 and 32 break the counter |
| `JitterModel.NoCollisionInWindow` | cpp/client/jitter_buffer.cpp:31-41 | a push within 32 ids of the read pointer collides with nothing that is within 32 of it |
| `JitterRuns.RunNear` | cpp/client/jitter_buffer.cpp:9-122 | over every run of pushes less than 32 ahead, pops and resets from the empty buffer: slots and entries agree, the counter is the number of occupied slots, and everything held is less than 32 ahead |
| `JitterRuns.RunNeverCollides` | cpp/client/jitter_buffer.cpp:31-41 | in such a run no push overwrites another frame |
| `JitterRuns.RunBounded` | cpp/client/jitter_buffer.cpp:47-66 | and at most 28 frames are held after every call, so the overflow loop always finds what it has to drop |
| `JitterModel.PopDrift` | cpp/client/jitter_buffer.cpp:73-107 | a pop keeps the representation whether or not it waits |
| `JitterModel.ResetExact` | cpp/client/jitter_buffer.cpp:109-122 | a reset empties every slot and makes the counter exact |
| `JitterModel.PushConserves` | cpp/client/jitter_buffer.cpp:9-67 | every frame pushed or held is held afterwards or released, none twice |
| `Custody.OnePlace` | cpp/common/session_manager.cpp:1388-1403 | in every execution each delivered frame is exactly once in one of four places: in hand, in a jitter slot, popped, or given back |
| `ClientJitterBuffer.JitterBuffer.PushFrame` | cpp/client/jitter_buffer.cpp:9-67 | the object and the contents of the frame objects it releases are those of the model; every object it owned, and the pushed one, is owned afterwards or released, once |
| `ClientJitterBuffer.JitterBuffer.PopFrame` | cpp/client/jitter_buffer.cpp:73-107 | the object and the popped frame are those of the model, and the popped object is the one it no longer owns |
| `ClientJitterBuffer.JitterBuffer.Reset` | cpp/client/jitter_buffer.cpp:109-122 | the loop over 32 slots is the model's reset and releases every object, once |
| `FrameOwnership.GiveBack` | cpp/client/receiver.cpp:281-295 | the deleters of any distinct frames that were handed out put exactly those into the pool and change nothing else |
| `FrameOwnership.TakeFrom` | cpp/common/session_manager.cpp:1395 | taking the next frame adds at most that object to what is outside the receiver and touches no other |
| `FrameOwnership.PushInto` | cpp/common/session_manager.cpp:1397 | pushing a frame object leaves every handed-out object in one jitter slot; what the buffer sheds or refuses is back in the pool |
| `FrameOwnership.PopFrom` | cpp/common/session_manager.cpp:1403 | the object given to the decoder is in no slot, and its content is that of the model's pop |
| `FrameOwnership.RestartAt` | cpp/common/session_manager.cpp:1392 | a restart returns every handed-out object |
| `FrameOwnership.Deliver` | cpp/client/receiver.cpp:62-141 | an arriving packet writes no frame object in the jitter buffer or with the decoder |
| `FrameOwnership.OneOwner` | cpp/client/receiver.cpp:281-321 | every frame object ever made is in exactly one of pool, receiver slot, jitter slot and client's hands, and the receiver may write it only in the first two |
| `FrameOwnership.Turn` | cpp/common/session_manager.cpp:1386-1403 | one turn of the loop ends with every handed-out object in the jitter buffer, and does on values what recovery, pumping and a pop do |
| `TurnRuns.TurnReachable` | cpp/common/session_manager.cpp:1386-1403 | from every reachable state of the interleaved threads, that turn on values leads to a reachable state, and the frame it pops is the sender's |
| `TurnModel.TurnPassesKeyframe` | cpp/common/session_manager.cpp:1386-1398 | after one turn the read pointer is past every complete keyframe that was held among the next 64 ids |
| `Pipeline.NextInv` | cpp/common/session_manager.cpp:1386-1403 | every lock section of either thread keeps the joint invariant of receiver and jitter buffer |
| `Pipeline.DeliveryIsDecodable` | cpp/common/session_manager.cpp:1388-1398 | in every execution delivered frames are the sender's, ids strictly increase, the first is a keyframe, and any id that is not the previous plus one is a keyframe |
| `Pipeline.BufferIsContiguous` | cpp/common/session_manager.cpp:1388-1403 | once initialised the jitter buffer holds exactly the consecutive ids up to the receiver's read pointer, at most 28, and never meets a duplicate or a collision |
| `Pipeline.DecoderStream` | cpp/common/session_manager.cpp:1402-1403 | the decoder gets faithful frames in increasing order, each continuing the last or a keyframe unless the buffer overflowed in between |
| `Pipeline.PopsExactly` | cpp/client/jitter_buffer.cpp:73-107 | in every execution a pop gives the decoder the next frame if and only if one is held and it does not wait: with a sync time, for a frame that the sender captured more than 5000 us after it; without one, while it is early and fewer than the target number of frames are held |
| `Pipeline.OverflowSkips` | cpp/client/jitter_buffer.cpp:47-66 | an overflow makes the decoder skip one frame |
| `Overflow.BreaksExactly` | cpp/client/jitter_buffer.cpp:47-66 | after a step of either thread the decoder's next frame neither continues its stream nor is a keyframe if and only if the step pushed into a buffer of 28 frames whose second is no keyframe, or that held before and the step neither popped, nor reset, nor shed down to a keyframe |
| `Overflow.BrokenSince` | cpp/client/jitter_buffer.cpp:47-66 | in every execution the next frame breaks the stream exactly between such a push and the next step that mends it |
| `Overflow.StreamIntactIff` | cpp/common/session_manager.cpp:1388-1403 | in every execution what the decoder got starts with a keyframe and skips only to keyframes if and only if no pop came between such a push and the next step that mends it |
| `Overflow.IntactUnlessBroken` | cpp/common/session_manager.cpp:1388-1403 | in particular in every execution without such a push, the ones before the first pop included |
| `Overflow.OverflowHappens` | cpp/common/session_manager.cpp:1386-1403 | for every sender of a keyframe and 29 more single-fragment frames there is an execution in which the decoder gets frame k + 2, no keyframe, right after frame k |
| `Overflow.KeyframeLost` | cpp/common/session_manager.cpp:1386-1403 | and one in which the first frame the decoder gets is k + 1, no keyframe |
| `Overflow.MarkedExactly` | cpp/client/jitter_buffer.cpp:47-66 | in every execution the mark that `Pipeline.DecoderStream` speaks of is set if and only if the buffer overflowed since the last pop |
| `Pipeline.ReceiverIsGood` | cpp/client/receiver.cpp:62-279 | in every execution the receiver is faithful and leaves no recoverable loss pending |
| `Pipeline.PushContiguous` | cpp/client/jitter_buffer.cpp:31-66 | a consecutive push keeps the buffer gapless and drops the head only when 28 frames are held |
| `Words.SingleBit` | cpp/common/lock_free_queue.hpp:15 | the static assertion admits only powers of two besides zero |
| `Words.MaskIsRemainder` | cpp/common/lock_free_queue.hpp:33 | masking with a power of two less one is the remainder |
| `Words.WrapKeepsRemainder` | cpp/common/lock_free_queue.hpp:33-34 | wrapping the counter at 2^64 does not change the slot |
| `Words.XorUnfold` | cpp/common/network_manager.cpp:283-292 | XOR on numbers is addition of binary digits modulo two |
| `SpscQueue.FirstInFirstOut` | cpp/common/lock_free_queue.hpp:25-53 | in every interleaving with late reads the popped sequence is a prefix of the pushed one, occupancy stays within the capacity, and a failed push still has its item |
| `SpscQueue.NeverOverwrites` | cpp/common/lock_free_queue.hpp:29-33 | the slot about to be written holds no waiting item and is not being read |
| `SpscQueue.PushFailsExactlyWhenFull` | cpp/common/lock_free_queue.hpp:26-35 | in every interleaving, what the check of a push does: it returns false with the item if and only if `capacity` items lie between the head it loaded and the tail, and otherwise the item is in its slot; with a current head it fails exactly when the queue is full |
| `SpscQueue.PopFailsExactlyWhenEmpty` | cpp/common/lock_free_queue.hpp:42-52 | the same of the check of a pop: it fails if and only if all it saw pushed is popped, and otherwise takes the oldest item; with a current tail it fails exactly when the queue is empty |
| `SpscQueue.CallsAreCounted` | cpp/common/lock_free_queue.hpp:25-53 | in every interleaving the queue has taken in exactly the items of the pushes that stored the tail, each that of its own call, and as many pops have gone out as stored the head |
| `SpscQueue.UndisturbedPush` | cpp/common/lock_free_queue.hpp:25-36 | from every reachable state a push that runs alone appends its item exactly when there is room, and otherwise returns it and changes nothing |
| `SpscQueue.UndisturbedPop` | cpp/common/lock_free_queue.hpp:42-53 | and a pop that runs alone takes the oldest item exactly when there is one |
| `SpscQueue.SlotIsRemainder` | cpp/common/lock_free_queue.hpp:33 | the masked index is the unbounded count modulo the capacity, also after wrapping |
| `SpscQueue.LockFreeQueue.Push` | cpp/common/lock_free_queue.hpp:25-36 | appends exactly when there is room, and otherwise changes nothing |
| `SpscQueue.LockFreeQueue.Pop` | cpp/common/lock_free_queue.hpp:42-53 | removes the oldest item exactly when there is one |
| `Stun.GetPublicEndpoint` | cpp/common/network_manager.cpp:260-299 | the first walker, for every byte buffer, reads only inside it and returns the first address attribute, or leaves its outputs alone |
| `Stun.GetPublicEndpointParallel` | cpp/common/network_manager.cpp:344-379 | the second walker gives the same answer |
| `Stun.AskBoth` | cpp/common/network_manager.cpp:269-378 | the two agree on every byte buffer |
| `Stun.RoundTrip` | cpp/common/network_manager.cpp:269-296 | for every attribute list serialized with padding the answer is the first attribute of type 0x0001 or 0x0020 with at least eight bytes |
| `Stun.EndpointLearned` | cpp/common/network_manager.cpp:273-292 | the endpoint a server encodes, plain or XOR-ed, is the endpoint the client learns |
| `Stun.WireNumbers` | cpp/common/network_manager.cpp:260-296 | only messages of type 0x0101 are answered, only attributes of type 0x0001 or 0x0020 with at least eight bytes give an address, values are padded to a multiple of four, and the second form is XOR-ed with 0x2112 and 0x21 0x12 0xA4 0x42 |
| `Stun.CutKeepsAnswer` | cpp/common/network_manager.cpp:269-296 | cutting a datagram short can lose the answer but not change it |
| `Stun.AnnouncedAnswerKept` | cpp/common/network_manager.cpp:264-269 | an address inside the announced length is the one returned |
| `Stun.TrailingBytesHarmlessIff` | cpp/common/network_manager.cpp:264-296 | for any announced attributes and any bytes after them the answer is that of the announced part if and only if that part has an address or the bytes after it give none |
| `Stun.TrailingAttributesHarmlessIff` | cpp/common/network_manager.cpp:264-296 | in particular for attributes after the announced part: if and only if the announced ones have an address or the later ones have none |
| `Stun.TrailingBytesAreRead` | cpp/common/network_manager.cpp:264-269 | a datagram whose announced part holds no address and that yields one |
| `ClockSynchronisation.ClockSync.ProcessResponse` | cpp/common/clock_sync.hpp:13-25 | the fields become offset and delay in 64-bit arithmetic |
| `ClockSynchronisation.Computed` | cpp/common/clock_sync.hpp:19-22 | for every exchange the delay is exactly the sum of the two path delays, and the offset is half of twice the true one plus their difference, rounded toward zero |
| `ClockSynchronisation.TripOf` | cpp/common/clock_sync.hpp:21-22 | for any four timestamps it is the client's wait less the host's, and zero when the host claims more |
| `ClockSynchronisation.OffsetBound` | cpp/common/clock_sync.hpp:19-22 | twice the error is within the path asymmetry plus one, and so within the round trip plus one |
| `ClockSynchronisation.OffsetExact` | cpp/common/clock_sync.hpp:20 | the offset is exact if and only if delays are equal or truncation hides a difference of one |
| `ClockSynchronisation.HostTimeAccuracy` | cpp/common/clock_sync.hpp:27-29 | a converted client time is the true host time up to half the asymmetry, modulo 2^64 |
| `ClockSynchronisation.MutualInverse` | cpp/common/clock_sync.hpp:27-33 | the two conversions undo each other on every 64-bit value |
| `EncoderLifecycle.PreflightFindsFirst` | cpp/host/encoder_manager.cpp:123-134 | the preflight locks the first codec that opens and marks exactly those before it |
| `EncoderLifecycle.InitializeReports` | cpp/host/encoder_manager.cpp:107-121 | success means STREAMING and failure means SHUTDOWN, except exactly when a shut-down manager's codec opens |
| `EncoderLifecycle.ReportsThoughShut` | cpp/host/encoder_manager.cpp:107-121 | a session that starts, is shut down and is started the same way again reports success and stays shut |
| `EncoderLifecycle.InitializeFromIdle` | cpp/host/encoder_manager.cpp:107-121 | from IDLE both are equivalences |
| `EncoderLifecycle.InitializeStreamsIff` | cpp/host/encoder_manager.cpp:107-145 | from IDLE it streams if and only if some detected codec passes the preflight and then it or libx264 opens; the session is locked to the first detected codec that passes, or to libx264 when that one does not open after all |
| `EncoderLifecycle.ShutdownAbsorbs` | cpp/host/encoder_manager.cpp:23-46 | no run leaves SHUTDOWN |
| `EncoderLifecycle.OnlySettledStates` | cpp/host/encoder_manager.cpp:23-46 | between calls only IDLE, STREAMING, DEGRADED, EMERGENCY_FALLBACK and SHUTDOWN occur |
| `EncoderLifecycle.ShutDownReaches` | cpp/host/encoder_manager.cpp:272-276 | shutting down ends in SHUTDOWN exactly when the manager was not idle |
| `EncoderLifecycle.NeverRecovers` | cpp/host/encoder_manager.cpp:245-249 | a degraded session does not stream normally again before the next Initialize |
| `EncoderLifecycle.TierOnlyFalls` | cpp/host/encoder_manager.cpp:252-270 | between initializations the tier only steps down, one at a time, at most three times |
| `EncoderLifecycle.StepsAreSpaced` | cpp/host/encoder_manager.cpp:240-249 | over any run two metric-driven steps are at least 5000 ms apart |
| `EncoderLifecycle.StepsDownIff` | cpp/host/encoder_manager.cpp:240-262 | over any run the tier steps down exactly at the overload reports that come 5000 ms after the last one that counted, by one, unless it is the lowest |
| `EncoderLifecycle.ReopensIff` | cpp/host/encoder_manager.cpp:156-269 | a step down opens the encoder again exactly from low-end, and from balanced unless the base size is 1280 by 720 |
| `EncoderLifecycle.FallbackLocksSoftware` | cpp/host/encoder_manager.cpp:136-188 | from every operation that falls back (an Initialize whose codec does not open after the preflight, a frame its encoder fails to encode, a frame or a step down for which the codec does not open again) the codec is libx264 until the next Initialize |
| `EncoderLifecycle.FallbackIsSoftware` | cpp/host/encoder_manager.cpp:168-177 | over every run EMERGENCY_FALLBACK means libx264 |
| `EncoderLifecycle.OnlyFallbackChangesCodec` | cpp/host/encoder_manager.cpp:136-188 | between initializations nothing else changes the codec |
| `EncoderLifecycle.FallbackSticks` | cpp/host/encoder_manager.cpp:168-177 | once libx264 is the codec it stays until the next Initialize |
| `EncoderLifecycle.StatesOfTrouble` | cpp/host/encoder_manager.cpp:23-46 | a manager that streams is shut down by Shutdown, in EMERGENCY_FALLBACK after an operation that falls back, DEGRADED after a step down from STREAMING, and otherwise where it was |
| `EncoderLifecycle.WorkingHasEncoder` | cpp/host/encoder_manager.cpp:107-188 | over every run a manager that streams in any way has an encoder and a locked session |
| `EncoderLifecycle.EncoderPresence` | cpp/host/encoder_manager.cpp:181-276 | after an encoded frame there is an encoder, after a shutdown there is none, and no other operation takes it away |
| `EncoderLifecycle.FrameFailsIff` | cpp/host/encoder_manager.cpp:181-188 | so a frame fails if and only if no encoder can be opened, or the encoder fails and libx264 does not open |
| `EncoderLifecycle.CodecLocked` | cpp/host/encoder_manager.cpp:136-145 | a locked session changes codec only by falling back |
| `EncoderLifecycle.EncoderManager.SetState` | cpp/host/encoder_manager.cpp:23-46 | a listed transition is made, any other changes nothing |
| `EncoderLifecycle.EncoderManager.PreflightEncoderValidation` | cpp/host/encoder_manager.cpp:123-134 | the loop computes the model's outcome |
| `EncoderLifecycle.EncoderManager.SelectAndInitEncoder` | cpp/host/encoder_manager.cpp:136-154 | opens the session's codec or falls back |
| `EncoderLifecycle.EncoderManager.Initialize` | cpp/host/encoder_manager.cpp:107-121 | the object and the result are those of the model |
| `EncoderLifecycle.EncoderManager.EncodeFrame` | cpp/host/encoder_manager.cpp:181-188 | the object and the result are those of the model |
| `EncoderLifecycle.EncoderManager.AdjustTier` | cpp/host/encoder_manager.cpp:252-270 | one step in either direction, reopening the encoder when the picture size changes |
| `EncoderLifecycle.EncoderManager.UpdatePerformanceMetrics` | cpp/host/encoder_manager.cpp:240-249 | adjusts at most once per 5000 ms |
| `ConfigFile.SaveThenLoad` | cpp/common/config.cpp:7-61 | saving then loading gives the settings back if and only if every key and value is clean, in any writing order |
| `ConfigFile.CommentCutsValue` | cpp/common/config.cpp:16-37 | a value with a # comes back cut before it |
| `ConfigFile.LoadedIsClean` | cpp/common/config.cpp:16-37 | whatever the text, loading adds only clean settings |
| `ConfigFile.CleanSavedLoads` | cpp/common/config.cpp:7-61 | loading on top of other settings overrides the saved keys and keeps the rest |
| `ConfigFile.LoadedSurvives` | cpp/common/config.cpp:7-61 | anything loaded from a file survives a save and a load |
| `ConfigFile.LineSets` | cpp/common/config.cpp:16-37 | a line with a clean key and a clean value sets that key, whatever blanks stand around them and whatever comment follows |
| `ConfigFile.LineSetsIff` | cpp/common/config.cpp:16-37 | a line sets something if and only if an equals sign stands before any comment with more than blanks before it |
| `ConfigFile.Config.Load` | cpp/common/config.cpp:7-38 | the line loop reads the text on top of the settings; a missing file changes nothing |
| `ConfigFile.Config.Save` | cpp/common/config.cpp:52-61 | the loop writes one line per setting |
| `HostAdmission.AdmissionBound` | cpp/common/session_manager.cpp:598-611 | in every interleaving connected clients plus unregistered initializations are at most 32 |
| `HostAdmission.OneInitializationPerAddress` | cpp/common/session_manager.cpp:606-609 | no two live initializations share an address |
| `HostAdmission.NoAddressLeaks` | cpp/common/session_manager.cpp:736-739 | while the session runs the initializing set is exactly what live initializations hold |
| `HostAdmission.StoppedThreadLeaks` | cpp/common/session_manager.cpp:632-633 | a thread that starts after the stop leaves its address behind |
| `HostAdmission.LeakHappens` | cpp/common/session_manager.cpp:598-653 | a run that ends with no live thread and the address still in the set |
| `HostAdmission.BeginKeepsHeldIff` | cpp/common/session_manager.cpp:632-653 | starting an initialization thread keeps the initializing set equal to what live initializations hold if and only if the session runs |
| `HostAdmission.PhasesAreEarned` | cpp/common/session_manager.cpp:632-717 | in every interleaving no initialization registers a client without having derived its keys and opened its encoder |
| `HostAdmission.SweepLeaves` | cpp/common/session_manager.cpp:257-273 | a sweep takes away exactly the timed-out clients, keeps the order of the others, and changes nothing else |
| `ClientAddresses.AdmissionWasUnknown` | cpp/common/session_manager.cpp:579-598 | in every interleaving a handshake reaches the admission check only after a lookup that found no client with its address |
| `ClientAddresses.KnownIsDropped` | cpp/common/session_manager.cpp:579-598 | a handshake from an address that has a client changes nothing |
| `ClientAddresses.AtOnceIsUnique` | cpp/common/session_manager.cpp:579-611 | in every interleaving in which each admission check directly follows its lookup, client addresses are pairwise different |
| `ClientAddresses.EveryPlaceCanBeTaken` | cpp/common/session_manager.cpp:598-717 | any up to 32 different addresses can all become clients |
| `ClientAddresses.CarefulIsUnique` | cpp/common/session_manager.cpp:598-611 | in every interleaving in which no admission succeeds for an address that has a client, client addresses are pairwise different |
| `ClientAddresses.CarelessDuplicates` | cpp/common/session_manager.cpp:598-717 | an admission that does succeed for such an address can always be followed by a second client of it |
| `ClientAddresses.DuplicateIff` | cpp/common/session_manager.cpp:598-717 | after a run without such admissions, letting the next handshake in can lead to a duplicate, later admissions being careful, if and only if its address has a client at that moment |
| `ClientAddresses.TwoClientsOneAddress` | cpp/common/session_manager.cpp:579-611 | such an admission is reachable: lookup and admission are separate lock sections |
| `HostAdmission.InvStep` | cpp/common/session_manager.cpp:598-739 | every lock section keeps the invariant behind these |
| `HostAdmission.SweepTimedOut` | cpp/common/session_manager.cpp:257-273 | the erasing loop keeps exactly the clients that have not timed out, in order |

## Left out

- Direct3D, DXGI, FFmpeg, audio, input, rendering and user interface code: foreign calls. What the codec library
  answers is an argument of every encoder operation.
- Sockets, sleeping, logging, profiling and cryptography. The network delivers arbitrary packets, or arbitrary genuine
  ones where stated.
- Real time in the jitter buffer: the moving average and the target delay only decide whether a pop waits, which is an
  arbitrary flag. The sync time of a pop is an argument.
- The host's pool of send packets: running out of packets while cutting a frame is a loss like any other.
- `packetSequence` and `receiveTimestamp` of a frame, and `m_lastCompletedFrameId`, which the receiver writes and never
  reads.
- ClientReceiver.Receiver.ProcessFEC: does not cover payloads above 1300 bytes, which no sender here produces and which
  would overlap the region of the next fragment. It reports the null dereference instead of modelling what follows it.
- `FixedRingBuffer` as a class of its own: its `insert` and `get` are array accesses at the index modulo the size, made
  in place by the receiver and the jitter buffer.
- The interleaving of the threads is on values (`Pipeline`). On objects each lock section is one method of
  `FrameOwnership`, and the client's loop is composed of them with no packet in between (`FrameOwnership.Turn`).
- The branch that grows the fragment map: the map always has 1024 entries when it is reached.
- The retransmission cache of the host, and the send queue, which several threads push to outside the queue's contract.
- Weak memory beyond late reads of the two counters in the queue: slots are shared memory, and
  `SpscQueue.NeverOverwrites` shows that no two accesses to one slot can race.
- Signed overflow in the clock formulas is taken to wrap. The accuracy results assume that the true differences fit 64
  signed bits, while the clocks themselves may wrap.
- `IsHEVC`, bitrate setting, the keyframe request and the floating-point metrics of the encoder manager: the verdict of
  the metrics is an argument. `m_currentBackend` is not modelled.
- Numeric and boolean getters of the configuration, and reloading when the file changes.
- Relay packets, secure packets and everything else the receiver thread of the host handles beside handshakes. Which
  clients time out is an argument of the sweep.
- Scoring, prediction, telemetry and launcher checks.
