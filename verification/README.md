# Open MPI algorithmic cores in Dafny

A Dafny 4.11 model of the parts of Open MPI in which something hard has to hold for every input
or every run, and proofs that it does, or exactly when it does.

- **Context-id agreement** (`CidProtocol`, `CidTheorems`, `CidQuiet`, `CidExhaustion`,
  `CidRetry`, `CidProcess`): any number of processes and any number of interleaved allocations on overlapping
  groups, in the blocking and the non-blocking form, with communicators freed at any time. The two
  allreduces are abstract there; `GroupAllreduce` proves the tree allreduce that one mode of the
  allocation uses. `CidProcess` holds the code that one process runs (the pointer array, the
  registered list, the loop, the callbacks): each call of the non-blocking form, on its table and
  its list, is a step of the protocol, and the loop of the blocking form, run without interruption
  on given allreduce results, has the effects of the protocol on its table and variables.
- **Red-black tree with two sentinels** (`RbShape`, `RbMemory`, `RbFixup`, `RbTree`): heap nodes
  with parent pointers. Pure modules say what each pointer update does to the shape; the methods
  perform the updates on real fields.
- **TCP transport** (`Bytes`, `TcpFrames`, `TcpArrival`, `TcpReceive`, `TcpSend`, `TcpLink`, `TcpConnect`,
  `InterfaceSearch`): partial writes and reads, the over-read cache, the zero-copy path, the send
  queue, simultaneous connects, and the search for the best interface assignment.
- **Datatypes** (`TypeMaps`, `TypeConstructors`, `TypeBlocks`, `ArrayOffsets`, `Subarray`,
  `Darray`, `DarrayExact`, `DarrayTypes`, `TypeCodec`, `TypeDescriptions`): `opal_datatype_add` and the
  constructors on top of it against the type maps of MPI-3.0, distributed arrays as a partition of
  the global array, and the packed description.
- **Attributes, sequence tracker, communicator split** (`Attributes`, `SeqTracker`, `CommSplit`).

`Common` holds the notions that several of these share.

`dafny verify dfyconfig.toml` checks everything.

Where the code does not meet what one would expect of it, the model follows the code, and a lemma
says exactly when the expectation holds:

- When nobody else touches the tables, an allocation ends with an id below `maxCid` if and only if
  some such id was free at every participant beforehand (`CidQuiet.FinishedBelowMaxCid`), and then
  it does end, with the least one (`CidQuiet.AllocationCompletes`). Without one, the blocking form
  accepts `maxCid` itself, as often as it is asked to, exactly when the participants run out of ids
  in the same round; otherwise those that still had an id fail and the others wait for ever. The
  rounds follow from the tables alone (`CidExhaustion.Together`), and both outcomes occur although
  every participant has a free id (`CidExhaustion.OutcomeFromTables`, `CidExhaustion.EndsWithMaxCid`,
  `CidExhaustion.EndsApart`, `CidExhaustion.TogetherOrApart`, `CidTheorems.MaxCidAcceptedTwice`;
  below `maxCid` slots are exclusive whatever else goes on: `CidTheorems.SlotExclusive`).
- Without such an id, the non-blocking form gives up at exactly the participants that had none to
  offer in the last round, at least one; the others wait for ever, each with the slot `maxCid`
  reserved if it was free (`CidQuiet.NonBlockingEnds`). A participant whose table refuses a maximum
  offers the same id again (`CidRetry.SameIdAgain`), so these rounds are not those of the blocking
  form, but they too follow from the tables alone (`CidRetry.RetryEnds`): from the tables of
  `CidRetry.OneRetries` the blocking form ends with `maxCid` at both participants, and the
  non-blocking form fails at one and leaves the other waiting.
- The non-blocking allocation leaves its parent registered when it runs out of ids. That blocks
  every other allocation with the same or a higher parent at that process for good, and no
  allocation with a lower one (`CidTheorems.FailureBlocks`, `CidTheorems.FailureHarmless`,
  `CidTheorems.FailureHappens`).
- `grow_table` reports success for one index that it does not make room for
  (`PointerArray.GrowthMakesRoom`); a reservation at that index is reported and not there
  (`PointerArray.CommTable.TestAndSet`).
- An empty TCP message leaves the segment of its fragment alone, so the callback sees the length
  that the fragment had before: exactly what was sent is seen if and only if no empty message finds
  a fragment of another length (`TcpFrames.ShownExactly`, over whole runs
  `TcpLink.DeliveredExactly`), in every schedule if and only if no message is empty
  (`TcpLink.EveryScheduleExact`).
- `opal_datatype_add` takes an extent of -1 to mean the extent of the added type, so a vector
  whose stride is -1 byte gets the wrong type map (`TypeConstructors.HvectorMap`,
  `TypeConstructors.VectorMap`).
- `create_hindexed_block` compares bytes with elements (`TypeBlocks.HindexedBlockMap`).
- A distributed array gets the elements of a rank if and only if the rank holds nothing, or every
  cyclic dimension in which it holds more than one index, in blocks of more than one, is the
  fastest, or the next faster one is cyclic, or the dimensions from there down to a cyclic or the
  fastest one belong to the rank entirely (`DarrayTypes.CreateDarray`, for old types without
  user-set bounds; `DarrayTypes.BlockInsideCyclic` is a grid where it goes wrong).
- A type read from a packed description has the number of integers and every argument that was
  recorded, throughout the tree, if and only if every INDEXED_BLOCK in it has two blocks and every
  DARRAY as many processes as dimensions (`TypeCodec.RoundTripExact`); elsewhere the room made for
  the integers is not that of the integers written (`TypeCodec.RebuildExact`).
- Freeing a keyval a second time is accepted while attributes hold it, and leaves it one reference
  short (`Attributes.Engine.FreeKeyval`).
- The sequence tracker is misled where `high + 1` or `low - 1` wraps (`SeqTracker.Tracker.Insert`,
  `SeqTracker.WrapBreaksTracker`), and copying into a tracker that is not empty keeps it in order
  only if all that was there lies below (`SeqTracker.Tracker.CopyFrom`).

A remark in the source differs from its code: the comment in `ompi_comm_allreduce_group` says
recursive doubling, and the code is a reduction and a broadcast along a binary tree.

## Model

| member | source | states |
|---|---|---|
| CidProtocol.Candidate | ompi/communicator/comm_cid.c:250-260 | the scan finds the least free id from `start` on, or `maxCid` when there is none |
| CidProtocol.StepInv | ompi/communicator/comm_cid.c:235-326 | every step of every participant, in either form, keeps the invariant that ties tables, local variables and allreduce contributions together |
| CidProtocol.OnlyOwnSlots | ompi/communicator/comm_cid.c:252-317 | a step changes no slot below `maxCid` except free ones and those its own allocation reserved |
| CidProtocol.RunInv | ompi/communicator/comm_cid.c:235-326 | the invariant holds in every state of every run |
| CidTheorems.Agreement | ompi/communicator/comm_cid.c:300-319 | in every interleaving, all participants that finish one allocation hold the same id |
| CidTheorems.SlotExclusive | ompi/communicator/comm_cid.c:252-317 | a slot below `maxCid` changes hands only by its owner: reservations by their allocation, communicators by being freed |
| CidTheorems.ReservationsDisjoint | ompi/communicator/comm_cid.c:252-292 | no process ever has one slot reserved by two allocations |
| CidTheorems.FinishInstalls | ompi/communicator/comm_cid.c:300-319 | whoever finishes has just put the new communicator into a slot it had reserved, and changed nothing else |
| CidTheorems.MaximumRises | ompi/communicator/comm_cid.c:303-311 | the proposed maximum of each round is strictly above that of the round before |
| CidTheorems.RoundBounded | ompi/communicator/comm_cid.c:235-313 | nobody is ever in a round beyond `maxCid` |
| CidTheorems.StepsBounded | ompi/communicator/comm_cid.c:235-313 | in every interleaving a participant takes at most 3 * maxCid + 4 steps: the loop terminates |
| CidTheorems.NoDeadlock | ompi/communicator/comm_cid.c:239-247 | the registered-list ordering never deadlocks as long as every allocation under way was entered by its whole group and nobody ran out of ids |
| CidTheorems.FailureBlocks | ompi/communicator/comm_cid.c:438-446 | once a non-blocking allocation has run out of ids at a process, no other allocation with the same or a higher parent proposes there again, and none with the same parent enters |
| CidTheorems.FailureHarmless | ompi/communicator/comm_cid.c:239-247 | for an allocation with a lower parent, entering and proposing do not depend on it |
| CidTheorems.FailureHappens | ompi/communicator/comm_cid.c:438-446 | a run in which it fails and an allocation with a higher parent is then blocked |
| CidQuiet.LeastIdAgreed | ompi/communicator/comm_cid.c:237-319 | with otherwise unchanged tables the agreed id is the least id free everywhere, success adds exactly one slot, a failed round leaves every table as before, nobody runs out of ids |
| CidQuiet.FinishedBelowMaxCid | ompi/communicator/comm_cid.c:237-319 | whoever finishes has an id below `maxCid` if and only if some id below `maxCid` was free at every participant before |
| CidQuiet.AllocationCompletes | ompi/communicator/comm_cid.c:235-319 | with a common free id, an allocation that was entered by its whole group and cannot go on has given the least one to every participant |
| CidQuiet.FormsAgree | ompi/communicator/comm_cid.c:395-509 | the non-blocking form ends with the same id and the same tables as the blocking one |
| CidQuiet.NonBlockingEnds | ompi/communicator/comm_cid.c:395-484 | without a common free id, a non-blocking allocation that cannot go on has given up, with the table as before, at exactly the participants that had no id to offer in the last round, at least one; the others wait for the second allreduce for ever, with `maxCid` reserved where it was free |
| CidExhaustion.OutcomeFromTables | ompi/communicator/comm_cid.c:267-276 | without a common free id, a blocking participant finishes, with `maxCid`, only if all run out together, and fails, with its table restored, only if they do not |
| CidExhaustion.EndsWithMaxCid | ompi/communicator/comm_cid.c:267-319 | if all run out together, an allocation that cannot go on has given `maxCid` to every participant |
| CidExhaustion.EndsApart | ompi/communicator/comm_cid.c:267-276 | if they do not, it has failed at exactly the participants that had an id to offer in the last round, and the others wait for ever |
| CidExhaustion.TogetherOrApart | ompi/communicator/comm_cid.c:249-276 | two tables without a common free id and with a free id each: with two ids in all they run out together, with more they do not |
| CidRetry.SameIdAgain | ompi/communicator/comm_cid.c:486-510 | in a quiet non-blocking run, whoever answered 0 in a round proposes the same id in the next one, and whoever answered 1 its least free id above the rejected maximum |
| CidRetry.TopInRises | ompi/communicator/comm_cid.c:500-508 | although only those that answered 1 advance, the maximum of the rounds computed from the tables rises |
| CidRetry.LastRoundOf | ompi/communicator/comm_cid.c:438-446 | the tables alone have exactly one last round, in which somebody runs out of ids, at most round `maxCid` |
| CidRetry.RetryEnds | ompi/communicator/comm_cid.c:395-510 | without a common free id, a non-blocking allocation that cannot go on has given up at exactly the participants whose offer in that round, computed from the tables, is `maxCid`; the others wait for ever, with `maxCid` reserved where it was free |
| CidRetry.OneRetries | ompi/communicator/comm_cid.c:486-510 | tables from which one participant offers its id twice and waits, the other gives up, and the blocking form ends with `maxCid` |
| CidTheorems.ExhaustionAllOrNone | ompi/communicator/comm_cid.c:267-276 | in every interleaving, a finished allocation has an id below `maxCid` exactly when no participant was out of ids in its last round; the non-blocking form never ends with `maxCid` |
| CidTheorems.MaxCidAcceptedTwice | ompi/communicator/comm_cid.c:267-319 | a run in which two allocations both end with `maxCid` and the second overwrites the slot of the first |
| PointerArray.GrowthMakesRoom | opal/class/opal_pointer_array.c:308-344 | growth makes room exactly for the indices that fit, and for one index reports success without room |
| PointerArray.CommTable.Grow | opal/class/opal_pointer_array.c:308-344 | success exactly for the indices that fit and the one that overruns; more room, same contents, same lowest free index, correct free count |
| PointerArray.CommTable.ScanFree | opal/class/opal_pointer_array.c:194-200 | finds the least free slot from an index on |
| PointerArray.CommTable.TestAndSet | opal/class/opal_pointer_array.c:233-293 | takes a slot if and only if it is free and within reach, and lowest_free stays the least free index; past the end it claims a slot that is not there |
| PointerArray.CommTable.Clear | opal/class/opal_pointer_array.c:164-217 | frees exactly one slot; lowest_free and number_free stay right unless it writes past the end |
| PointerArray.CommTable.Set | opal/class/opal_pointer_array.c:164-217 | overwrites exactly one slot, and lowest_free and number_free stay right; past the end it reports success and the table lacks the entry |
| RegisteredList.ParentList.TryRegister | ompi/communicator/comm_cid.c:536-586 | lists an id in order unless it is listed already |
| RegisteredList.ParentList.Unregister | ompi/communicator/comm_cid.c:588-605 | takes exactly that id off the list |
| RegisteredList.ParentList.LowestCid | ompi/communicator/comm_cid.c:607-614 | the least id listed |
| CidProcess.LowestListed | ompi/communicator/comm_cid.c:239-247 | if the list holds the parents registered at a process, the test against the least id listed is the condition under which the protocol proposes |
| CidProcess.ListedBlocks | ompi/communicator/comm_cid.c:536-586 | and registration is refused exactly when the protocol does not let the allocation start |
| CidProcess.StepFollows | ompi/communicator/comm_cid.c:536-605 | a step of an allocation keeps the list right if its parent is listed exactly while it is registered |
| CidProcess.Reserve | ompi/communicator/comm_cid.c:249-260 | reserves the candidate of the protocol and nothing else |
| CidProcess.Respond | ompi/communicator/comm_cid.c:278-293 | keeps a winning candidate, gives up a losing one, and takes the maximum exactly if it is free |
| CidProcess.NextCid | ompi/communicator/comm_cid.c:188-326 | refused while its parent is listed; otherwise listed until it ends, and for every sequence of allreduce results, unless a lower parent is listed, the loop has exactly the effects of the rounds of the protocol. The id returned is the maximum of the last round run and the slot filled with the new communicator; for results that allreduces can return, that is the only change, and a table is as before when the ids ran out, exactly when a maximum is `maxCid` and the own offer is not |
| CidProcess.RoundResult | ompi/communicator/comm_cid.c:249-317 | for results that allreduces can return, a rejected round and one without ids leave the table as it was, an accepted one adds its maximum and nothing else |
| CidProcess.AllreducesCanBe | ompi/communicator/comm_cid.c:262-296 | in every run of the protocol the allreduces return such results |
| CidProcess.NextCidNb | ompi/communicator/comm_cid.c:344-393 | refused while its parent is listed, otherwise the start step of the protocol |
| CidProcess.Context.GetNext | ompi/communicator/comm_cid.c:395-452 | the first callback is the proposal step of the protocol if that is enabled, and no step if not; table, list and variables stay those of the process |
| CidProcess.Context.Check | ompi/communicator/comm_cid.c:454-484 | the second callback is the test-and-set step of the protocol |
| CidProcess.Context.CheckResult | ompi/communicator/comm_cid.c:486-510 | the third callback is the deciding step of the protocol, which on success installs the communicator at the id and takes the parent off the list, and after a rejection moves `start` only if the own flag was 1 and goes straight on to the next proposal if that is enabled |
| TreeFold.TotalIsFold | ompi/communicator/comm_cid.c:1466-1492 | for any number of ranks, the tree computes the reduction of all inputs in rank order |
| TreeFold.MaxFold | ompi/communicator/comm_cid.c:262-263 | the MAX reduction is the largest input |
| TreeFold.MinFold | ompi/communicator/comm_cid.c:295-296 | the MIN reduction is the least input |
| TreeFold.TreeExtremes | ompi/communicator/comm_cid.c:1451-1517 | along the tree, MAX and MIN give the largest and the least input |
| GroupAllreduce.StepInv | ompi/communicator/comm_cid.c:1480-1511 | every send and receive of every rank keeps the invariant on buffers and messages under way |
| GroupAllreduce.EveryResultIsTheFold | ompi/communicator/comm_cid.c:1451-1517 | in every schedule, whenever a rank has finished a call, its result is the reduction of the inputs of that very call: back-to-back calls never mix |
| GroupAllreduce.OneMessagePerEdge | ompi/communicator/comm_cid.c:1480-1511 | at most one message is under way on each tree edge, even across calls |
| GroupAllreduce.UnfinishedMoves | ompi/communicator/comm_cid.c:1480-1511 | never a deadlock, even with synchronous sends |
| GroupAllreduce.EveryScheduleEnds | ompi/communicator/comm_cid.c:1480-1511 | every schedule has at most nine steps per rank and call |
| GroupAllreduce.AllreduceCompletes | ompi/communicator/comm_cid.c:1451-1517 | a schedule that cannot go on has completed every call on every rank with the right result |
| OmpiRbTree.LeftRotate | ompi/class/ompi_rb_tree.c:472-499 | rewrites exactly the links of a left rotation |
| OmpiRbTree.RightRotate | ompi/class/ompi_rb_tree.c:503-525 | rewrites exactly the links of a right rotation |
| RbMemory.LeftRotatedFocus | ompi/class/ompi_rb_tree.c:472-499 | the rotated links form the rotated tree, with parents and sentinels sound |
| RbMemory.RightRotatedFocus | ompi/class/ompi_rb_tree.c:503-525 | the same for a right rotation |
| RbMemory.FocusUnlink | ompi/class/ompi_rb_tree.c:231-247 | taking out a node with one child leaves a sound tree, including the parent set on nill |
| RbFixup.RecolorStep | ompi/class/ompi_rb_tree.c:134-138 | recolouring around a red uncle moves the red-red edge up and keeps black heights |
| RbFixup.OuterLeftStep | ompi/class/ompi_rb_tree.c:144-146 | the last rotation of an insertion repairs the red-red edge and keeps black heights |
| RbFixup.RedSiblingLeftStep | ompi/class/ompi_rb_tree.c:353-358 | a red sibling is rotated up with the deficit of one black unchanged |
| RbFixup.BlackNephewsStep | ompi/class/ompi_rb_tree.c:359-361 | with black nephews the deficit moves to the owner |
| RbFixup.OuterNephewLeftStep | ompi/class/ompi_rb_tree.c:369-374 | the last rotation of a deletion removes the deficit |
| RbFixup.FinishedRoot | ompi/class/ompi_rb_tree.c:346-405 | a cached root that rotations made stale is black anyway, so painting it changes nothing |
| OmpiRbTree.FindPlace | ompi/class/ompi_rb_tree.c:313-335 | the descent ends at the place of the key in key order |
| OmpiRbTree.InsertFixup | ompi/class/ompi_rb_tree.c:131-169 | from a red node below a possibly red parent to a red-black tree with the same nodes in the same order |
| OmpiRbTree.DeleteFixup | ompi/class/ompi_rb_tree.c:346-405 | from a subtree one black short to a red-black tree with the same nodes in the same order, with the stale root |
| OmpiRbTree.Successor | ompi/class/ompi_rb_tree.c:286-307 | the node next in order, in the right subtree or above, or nill after the last one |
| OmpiRbTree.Find | ompi/class/ompi_rb_tree.c:172-212 | the node of an entry that compares equal, or nill when there is none |
| OmpiRbTree.RbTree.constructor | ompi/class/ompi_rb_tree.c:70-105 | an empty tree over two sound sentinels |
| OmpiRbTree.RbTree.Insert | ompi/class/ompi_rb_tree.c:109-169 | adds one entry at its place in key order, keeps the red-black invariants, or reports that no node was to be had |
| OmpiRbTree.RbTree.Delete | ompi/class/ompi_rb_tree.c:215-262 | removes exactly one entry with an equal key and hands back its node, or reports that there is none; keeps the invariants |
| OmpiRbTree.RbTree.FindWith | ompi/class/ompi_rb_tree.c:172-190 | the value of some equal entry if and only if one exists, after at most 2 * log2(n + 1) nodes |
| OmpiRbTree.RbTree.Size | ompi/class/ompi_rb_tree.c:528-532 | the number of entries |
| RbShape.PathBound | ompi/class/ompi_rb_tree.c:172-190 | a path of a red-black tree of n nodes is at most 2 * log2(n + 1) long |
| TcpFrames.HeaderRoundTrip | contrib/build-mca-comps-outside-of-tree/btl_tcp2_hdr.h:35-55 | the peer reads the header that was written, in either byte order |
| TcpReceive.CopyTurn | contrib/build-mca-comps-outside-of-tree/btl_tcp2_frag.c:158-240 | bytes copied out of the cache: what was pending is what is in place and what is left |
| TcpReceive.PointTurn | contrib/build-mca-comps-outside-of-tree/btl_tcp2_frag.c:158-240 | zero-copy: the segment shows the payload inside the cache |
| TcpReceive.SocketTurn | contrib/build-mca-comps-outside-of-tree/btl_tcp2_frag.c:184-240 | one readv takes exactly what it is granted, up to the room in fragment and cache, and loses and repeats nothing |
| TcpReceive.FragRecv | contrib/build-mca-comps-outside-of-tree/btl_tcp2_frag.c:149-285 | true with exactly the next message, or false with part of it and an empty cache; it reads on exactly as long as the cache is empty and the message incomplete and bytes come |
| TcpReceive.RecvHandler | contrib/build-mca-comps-outside-of-tree/btl_tcp2_endpoint.c:686-737 | for every chunking, the next messages in order, the bytes of an incomplete frame kept, the cache empty; the bytes taken off the socket and the number of messages delivered, from what is pending, on the socket, and granted |
| TcpArrival.WholeFrames | contrib/build-mca-comps-outside-of-tree/btl_tcp2_endpoint.c:706-731 | the number of messages complete within so many bytes is the number of frames they hold |
| TcpArrival.FirstReadCounts | contrib/build-mca-comps-outside-of-tree/btl_tcp2_frag.c:186-197 | an event takes at least what its first readv is granted and has room for, and delivers every message complete by then |
| TcpArrival.FrameGetsThrough | contrib/build-mca-comps-outside-of-tree/btl_tcp2_frag.c:149-285 | if one readv may bring the rest of a frame, or two its header and its payload, the message is delivered in this event |
| TcpFrames.ShownExactly | contrib/build-mca-comps-outside-of-tree/btl_tcp2_frag.c:246-263 | the callbacks see exactly what was sent if and only if no empty message follows a non-empty one in the same fragment |
| TcpFrames.EmptyMessageShowsStaleLength | contrib/build-mca-comps-outside-of-tree/btl_tcp2_frag.c:246-263 | an empty message after a non-empty one shows up with the length of that one |
| TcpSend.Fragment.constructor | contrib/build-mca-comps-outside-of-tree/btl_tcp2.c:359-388 | header and segments make up the frame of the message |
| TcpSend.Advance | contrib/build-mca-comps-outside-of-tree/btl_tcp2_frag.c:131-146 | the iovecs move past exactly the bytes taken, over any number of iovecs |
| TcpSend.FragSend | contrib/build-mca-comps-outside-of-tree/btl_tcp2_frag.c:101-147 | what was written and what is left is what was left before, and exactly as many bytes are written as the writev is granted; true exactly when it has been granted something and nothing is left |
| TcpSend.Endpoint.Send | contrib/build-mca-comps-outside-of-tree/btl_tcp2_endpoint.c:238-282 | in every state the fragment goes behind all others, or straight out, as far as granted, when there are none and it has priority; no byte is lost; a closed endpoint starts to connect, any other state stays |
| TcpSend.Endpoint.Connect | contrib/build-mca-comps-outside-of-tree/btl_tcp2_endpoint.c:413-432 | becoming connected neither loses nor reorders what is queued |
| TcpSend.Endpoint.Close | contrib/build-mca-comps-outside-of-tree/btl_tcp2_endpoint.c:389-406 | closing keeps the queue, and without a socket the state too |
| TcpSend.Endpoint.SendHandler | contrib/build-mca-comps-outside-of-tree/btl_tcp2_endpoint.c:760-806 | fragments leave in order, each completely, the byte stream is conserved, and it ends only when none is left or a writev takes less than it is offered |
| TcpLink.RunInv | contrib/build-mca-comps-outside-of-tree/btl_tcp2_frag.c:101-285 | in every interleaving, bytes outstanding, under way and pending are the frames of the messages not yet delivered |
| TcpLink.ReceiverMayRun | contrib/build-mca-comps-outside-of-tree/btl_tcp2_endpoint.c:686-737 | the precondition of the receive handler holds in every reachable state |
| TcpLink.DeliveredInOrder | contrib/build-mca-comps-outside-of-tree/btl_tcp2_frag.c:101-285 | delivery j has the tag of message j, and its payload unless that is empty: none lost, repeated or mixed |
| TcpLink.DeliveredExactly | contrib/build-mca-comps-outside-of-tree/btl_tcp2_frag.c:246-263 | in a given run the deliveries are the messages if and only if in every receive event each empty message found a fragment of length 0 |
| TcpLink.EveryScheduleExact | contrib/build-mca-comps-outside-of-tree/btl_tcp2_frag.c:246-263 | they are in every schedule if and only if no message is empty |
| TcpLink.EverythingDelivered | contrib/build-mca-comps-outside-of-tree/btl_tcp2_frag.c:101-285 | once every byte has been written and read, every message has been delivered |
| TcpConnect.RunInv | contrib/build-mca-comps-outside-of-tree/btl_tcp2_endpoint.c:338-432 | the invariant of connection set-up over every run |
| TcpConnect.NeverSplit | contrib/build-mca-comps-outside-of-tree/btl_tcp2_endpoint.c:338-379 | the two ends are never connected on different sockets |
| TcpConnect.LowerNameWins | contrib/build-mca-comps-outside-of-tree/btl_tcp2_endpoint.c:352-358 | whenever the process with the lower name has started a connection, that is the one both end up on |
| TcpConnect.ConnectedStays | contrib/build-mca-comps-outside-of-tree/btl_tcp2_endpoint.c:338-379 | a connected end stays on its connection |
| TcpConnect.NothingLostOrReordered | contrib/build-mca-comps-outside-of-tree/btl_tcp2_endpoint.c:238-282 | fragments queued before connecting are written in order, all to one connection |
| TcpConnect.SetUpMoves | contrib/build-mca-comps-outside-of-tree/btl_tcp2_endpoint.c:531-684 | set-up never gets stuck before both ends are connected |
| TcpConnect.SetUpEnds | contrib/build-mca-comps-outside-of-tree/btl_tcp2_endpoint.c:531-684 | set-up takes at most three steps per send |
| Permutations.AllVisitedOnce | contrib/build-mca-comps-outside-of-tree/btl_tcp2_proc.c:205-219 | the search visits every permutation of 1..n exactly once, and nothing else |
| InterfaceSearch.Search.Evaluate | contrib/build-mca-comps-outside-of-tree/btl_tcp2_proc.c:173-203 | the best assignment so far is the first of those seen that none of them beats in number of links, then weight |
| InterfaceSearch.Search.Visit | contrib/build-mca-comps-outside-of-tree/btl_tcp2_proc.c:205-219 | evaluates every completion of what is placed, in order, and restores its array |
| InterfaceSearch.FindBest | contrib/build-mca-comps-outside-of-tree/btl_tcp2_proc.c:577-593 | for any size, the result is a permutation that no permutation beats, the first one in the order of the search |
| InterfaceSearch.Select | contrib/build-mca-comps-outside-of-tree/btl_tcp2_proc.c:595-608 | the first usable link of the assignment; the index one past the peers is never dereferenced |
| TypeConstructors.ContiguousMap | ompi/datatype/ompi_datatype_create_contiguous.c:26-42 | the plain type map of contiguous |
| TypeConstructors.HvectorMap | ompi/datatype/ompi_datatype_create_vector.c:68-97 | the shortcuts keep the plain type map if and only if the stride is not a misread -1 |
| TypeConstructors.VectorMap | ompi/datatype/ompi_datatype_create_vector.c:36-65 | the same for vector |
| TypeBlocks.CreateIndexed | ompi/datatype/ompi_datatype_create_indexed.c:32-68 | merging adjacent blocks keeps the type map, for all blocks |
| TypeBlocks.CreateHindexed | ompi/datatype/ompi_datatype_create_indexed.c:71-106 | the same for displacements in bytes |
| TypeBlocks.CreateIndexedBlock | ompi/datatype/ompi_datatype_create_indexed.c:109-144 | the same for blocks of one length |
| TypeBlocks.CreateHindexedBlock | ompi/datatype/ompi_datatype_create_indexed.c:146-182 | the type map that the comparison of bytes with elements leads to |
| TypeBlocks.HindexedBlockMap | ompi/datatype/ompi_datatype_create_indexed.c:146-182 | it is the plain one if and only if the extent is 1, there is no data, or no block starts bLength bytes after the one before |
| TypeBlocks.CreateStruct | ompi/datatype/ompi_datatype_create_struct.c:30-96 | merging adjacent entries of one type keeps the type map |
| TypeBlocks.StructItems | ompi/datatype/ompi_datatype_create_struct.c:70-92 | the merging loop adds up to the entries one by one |
| ArrayOffsets.LinDigits | ompi/datatype/ompi_datatype_create_subarray.c:58-85 | nested vectors hold exactly the elements whose every index is in the list of its dimension |
| Subarray.CreateSubarray | ompi/datatype/ompi_datatype_create_subarray.c:31-106 | the old type at the linear offsets of the box, in C or Fortran order, with the extent of the full array |
| Subarray.BoxExact | ompi/datatype/ompi_datatype_create_subarray.c:58-102 | each element of the box exactly once, and no other |
| Subarray.BoxByDimension | ompi/datatype/ompi_datatype_create_subarray.c:45-85 | by dimensions: exactly the elements whose index in each dimension is in its range, where in C order the last dimension varies fastest and in Fortran order the first |
| Distribution.OwnedExact | ompi/datatype/ompi_datatype_create_darray.c:30-156 | in one dimension a process owns each index that is its own exactly once, and no other, for block and cyclic distributions |
| Distribution.OwnerExists | ompi/datatype/ompi_datatype_create_darray.c:30-156 | every index has an owner among the processes |
| Distribution.CyclicOwned | ompi/datatype/ompi_datatype_create_darray.c:86-118 | what a process owns has a block number with its own remainder |
| Distribution.CyclicOwns | ompi/datatype/ompi_datatype_create_darray.c:86-118 | and it owns all of those |
| DistributedArray.CoordsInGrid | ompi/datatype/ompi_datatype_create_darray.c:186-196 | the grid position of a rank is in the grid and determines the rank |
| DistributedArray.DarrayPartition | ompi/datatype/ompi_datatype_create_darray.c:158-284 | the parts of all ranks are a partition of the global array |
| DistributedArray.ElementsByDimension | ompi/datatype/ompi_datatype_create_darray.c:198-256 | by dimensions, in either order: a rank holds exactly the elements whose index in each dimension its grid position owns |
| DarrayTypes.BlockType | ompi/datatype/ompi_datatype_create_darray.c:30-74 | the loops of block place the old type at the indices of the process |
| DarrayTypes.CyclicType | ompi/datatype/ompi_datatype_create_darray.c:77-156 | the loops of cyclic, with the remainder block and the extent of the whole dimension |
| DarrayExact.CyclicExact | ompi/datatype/ompi_datatype_create_darray.c:104-135 | in one cyclic dimension the offsets are right if and only if the type inside is as long as the dimensions inside, or no block of the process has two copies |
| DarrayExact.InnerExact | ompi/datatype/ompi_datatype_create_darray.c:158-256 | it is that long if and only if the dimensions inside, down to a cyclic one, belong to the process entirely |
| DarrayExact.BuiltExact | ompi/datatype/ompi_datatype_create_darray.c:158-256 | over all dimensions, the offsets built up are right if and only if every dimension is |
| DarrayTypes.BlockMap | ompi/datatype/ompi_datatype_create_darray.c:57-74 | a block dimension places the type at the indices of the process whatever is inside |
| DarrayTypes.BlockInsideCyclic | ompi/datatype/ompi_datatype_create_darray.c:158-284 | a block dimension inside a cyclic one with blocks of two: the whole construction gives each of the two ranks a wrong type map |
| DarrayTypes.GridPosition | ompi/datatype/ompi_datatype_create_darray.c:186-196 | the loop computes the row-major position |
| DarrayTypes.CreateDarray | ompi/datatype/ompi_datatype_create_darray.c:158-284 | for ordinary old types the old type at every element that the rank holds if and only if the grid and the position are right in the sense above, for any old type if the grid is nested; with the extent of the whole array |
| TypeCodec.PackUnpack | ompi/datatype/ompi_datatype_args.c:428-660 | reading a packed description constructs every type of the tree again, without duplicates, and consumes exactly the bytes written |
| TypeCodec.RebuildExact | ompi/datatype/ompi_datatype_args.c:662-780 | the constructor gets back the number of integers and all arguments that were recorded if and only if INDEXED_BLOCK has two blocks and DARRAY as many processes as dimensions; the other combiners always |
| TypeCodec.RoundTripExact | ompi/datatype/ompi_datatype_args.c:428-780 | reading gives what was recorded in the whole tree, without duplicates and under plain combiners, if and only if that holds of every type in it |
| TypeDescriptions.PackInto | ompi/datatype/ompi_datatype_args.c:428-492 | writes exactly the description behind what is there, with positions filled in as constituents are written |
| TypeDescriptions.PackSize | ompi/datatype/ompi_datatype_args.c:428-492 | the length of a description |
| TypeDescriptions.Datatype.SetArgs | ompi/datatype/ompi_datatype_args.c:83-258 | the size kept is never too small, whatever its constituents keep at that moment |
| TypeDescriptions.Datatype.GetPackDescription | ompi/datatype/ompi_datatype_args.c:495-520 | the description fits the buffer of the size kept, and the size kept becomes exact; the second time the same description |
| TypeDescriptions.SendDescription | ompi/datatype/ompi_datatype_args.c:495-660 | packing into the buffer and reading on the other side constructs the tree again, and gives what was recorded under the same condition |
| Attributes.SetSound | ompi/attribute/attribute.c:1095-1172 | setting an attribute keeps every count: one for the user plus one for each object that holds the key |
| Attributes.DeleteSound | ompi/attribute/attribute.c:938-1007 | so does deleting one |
| Attributes.FreeSound | ompi/attribute/attribute.c:621-650 | a freed keyval lives on exactly as long as some object holds it |
| Attributes.LastReference | ompi/attribute/attribute.c:450-462 | a key is recycled exactly when the user has freed it and nobody holds it |
| Attributes.Engine.CreateKeyval | ompi/attribute/attribute.c:524-569 | the least key not in use, which no attribute uses; bitmap and table agree |
| Attributes.Engine.FreeKeyval | ompi/attribute/attribute.c:621-650 | the tests on the key; marks it freed and counts it once less, and no other; the counts stay right if and only if the key had not been freed before |
| Attributes.Engine.SetValue | ompi/attribute/attribute.c:1095-1172 | replaces or adds exactly one attribute, or changes nothing when a test or the callback fails; the keyval is counted once more exactly when the object did not hold it, and nothing else about any keyval changes |
| Attributes.Engine.DeleteImpl | ompi/attribute/attribute.c:938-1007 | removes exactly one attribute, or changes nothing when a test or the callback fails; the keyval is counted once less, goes away exactly when it is freed and held no more, and nothing else about any keyval changes |
| Attributes.Engine.DeleteAll | ompi/attribute/attribute.c:1028-1087 | callbacks in strictly decreasing order of set time; empties the table, or leaves exactly the failed attribute and those set before it; exactly the keyvals of attributes that went are counted once less |
| Attributes.Engine.CopyAll | ompi/attribute/attribute.c:823-929 | exactly the attributes whose callback says so, with the values it returns, set later than anything before, over whatever the target held; exactly the keyvals that are new to the target are counted once more; a failure is that of a callback, and leaves what was copied before |
| Attributes.SortByTime | ompi/attribute/attribute.c:1050-1067 | the keys of a table in the order in which they were set |
| SeqTracker.Tracker.CheckDuplicate | ompi/class/ompi_seq_tracker.c:58-83 | true if and only if the number was recorded, from any cursor position; the scan ends |
| SeqTracker.Tracker.Insert | ompi/class/ompi_seq_tracker.c:91-180 | records exactly one more number and keeps ranges sorted, disjoint and apart, if and only if the wrap-around does not mislead it |
| SeqTracker.Tracker.CopyFrom | ompi/class/ompi_seq_tracker.c:183-198 | the ranges are appended and the cursor taken over; the result is in order exactly when one of the two was empty or all that was there lies below |
| SeqTracker.Joined | ompi/class/ompi_seq_tracker.c:118-149 | closing the gap between two ranges records exactly one more number |
| SeqTracker.TrackAll | ompi/class/ompi_seq_tracker.c:58-180 | after any sequence of numbers below 2^32 - 1, exactly those inserted are duplicates |
| SeqTracker.WrapBreaksTracker | ompi/class/ompi_seq_tracker.c:134-149 | inserting 0 and then 2^32 - 1 breaks the list |
| CommSplit.SplitGroup | ompi/communicator/comm.c:454-501 | exactly the ranks of the colour, by ascending key, and by ascending old rank where keys are equal |
| CommSplit.SameList | ompi/communicator/comm.c:1811-1841 | whatever the sort does, all processes of a colour compute the same list |
| CommSplit.SplitPartitions | ompi/communicator/comm.c:454-501 | the lists partition the old ranks by colour |

## Left out

- Allreduces other than the tree: inter-communicator, bridge and out-of-band forms rest on collectives outside this model; the context-id protocol takes an allreduce as complete once every member has contributed.
- Allreduce errors in the middle of an allocation, and registering two allocations on one parent at once, which builds without thread support allow.
- The table of communicators holds owners, not pointers; a context id is a natural number, and `realloc` never fails.
- comm_request.c beyond the order of the three callbacks: cancel, error callbacks and the free list of requests.
- Red-black tree: destroy and traverse, which would only add easy members; nodes come from the caller instead of the free list, and `ompi_rb_tree_init` has its two nodes. Copying the successor's entry is done before unlinking, which commutes with it.
- TCP: PUT and GET headers, socket errors (a connect that fails at once included), reconnection after an error in the middle of a fragment, interface discovery and the computation of weights, and the fallback search for many interfaces. Each readv and writev takes as many bytes as a schedule given from outside grants it.
- TcpConnect: both processes have one endpoint for each other; address matching among several endpoints is left out.
- Datatypes: bounds are modelled in full by opal_datatype_add, but the claims about merged blocks are about type maps only; true bounds, flags for gaps, descriptions with loops and 32-bit overflow of counts are left out.
- CommSplit: inter-communicators and the creation of the group from the list.
- Subarray.CreateSubarray: the extent is that of the full array for old types without user-set bounds; other bounds follow the markers as opal_datatype_add computes them. For several dimensions, the type map of an old type of extent -1 is left open.
- DarrayTypes.CreateDarray: exact for old types without user-set bounds, with data from 0 on and an extent that the alignment divides. For other old types nested grids suffice, except for an extent of -1, about which nothing is said; without user-set bounds the bounds of the result are stated.
- TypeBlocks.CreateIndexed: the type map, not the bounds of the result.
- TypeBlocks.CreateHindexed: the type map, not the bounds of the result.
- TypeBlocks.CreateIndexedBlock: the type map, not the bounds of the result.
- TypeBlocks.CreateHindexedBlock: the type map, not the bounds of the result.
- TypeCodec.PackUnpack: RESIZED and the F90 types are not rebuilt at all by the code. A record holds the integers written, and how many there is room for: what writing past the room destroys, what the rest of the room holds, and what DARRAY reads past the end of its arguments are not part of the model. Reading past the end of a short buffer is a failure in the model. Builds with alignment macros are left out.
- Attributes: translation between languages, callbacks that call back into the engine, and out-of-memory returns.
- TcpReceive.FragRecv: SEND headers only. The receive fragment has one iovec in use at a time, as it does for SEND, so the loop over several iovecs is unrolled.
- PointerArray.CommTable.Clear: what number_free becomes when the slot looked at is past the end of the array.
- PointerArray.CommTable.Set: what number_free and the memory behind the array become when the slot is past the end.
- CidProcess.NextCid: one process on its own table and list. The effects of other threads between two rounds, and waiting for a lower parent to leave the list, are in the protocol only.
- The scan for a candidate is one atomic step of the protocol. The code has released ompi_cid_lock before it (comm_cid.c:247-260), so between two probes of the scan other threads of the process can change the table; each probe is atomic under the lock of the table.
- CidQuiet, CidExhaustion and CidRetry: other allocations at work on the same tables at the same time, for which only the results of `CidTheorems` hold.
