# fastparse: a verified model of its UPDATE pipeline

fastparse reads a stream of BGP UPDATE messages, turns prefixes into small
indices, keeps one Adj-RIB-In per peer, feeds a Loc-RIB whose changes enter a
journal, and announces the journalled changes again, grouped by route. This
project models that pipeline in Dafny and proves what its parts promise each
other.

- **Loc-RIB, journal and output phase.** `Pipeline` is a step machine: any number
  of threads, one program counter each, one step per locked region, and the gaps
  between the locks as program points. `PipelineSafety` proves what holds in every
  interleaving. `LocRib`, `Journal`, `OutputPhase` and `Grouping` hold the entry,
  the wrap-around ring, the code of one thread with its loops, and the partition
  into runs. `Requests` relates a run to the requests it served, `RunLength` bounds the
  runs by those requests, `Scheduling` says who calls the output phase, and `SerialRun`
  shows that the arrays and the ring of `OutputPhase` follow a run of the protocol.
- **UPDATE codec.** `Nlri`, `Attributes`, `Export`, `ExportMeaning`, `Import`,
  `UpdateMessage` and `Announce` model the octets: prefixes, path attributes, the
  one-pass cursor of the serializers, the tie-break record read back, and whole
  messages (sections 4.1, 4.3 and 5 of RFC 4271, four-octet AS numbers of RFC 6793).
  `Layout` says of all these forms which octet lies where, in plain numbers.
- **Prefix index.** `Prefixes`, `PrefixTable` and `PrefixRace`: the bit-packed
  index, the two tables grown on demand, and the unlocked test before the locked
  insert.
- **Routes and memory.** `Pools`, `PoolRace`, `Allocator`, `AdjRibIn` and `Peers`: two
  bump pools, free lists threaded through the blocks, allocation by many threads,
  reference counts in 16 bits, and all peers over one allocator.
- **End to end.** In `World` the messages of any peers are merged step by step, the heads
  are blocks of memory, a block can be filled again, and the output phase groups by block
  and can fail. `BlockRuns` says how long runs of one block get, `WorldRuns` when a request
  is passed over and how long blocks and requests agree, `EndToEnd` what the listener heard
  last and when a head refers to a freed block. `StaleHeads` and `CrowdedHeads` are the two
  ways in which it goes wrong. `MessageRuns` and `TableWorld` show that whole messages, and
  the arrays and loops of `OutputPhase`, take the steps of `World`. `Operations` says what
  the operations of the peers mean for every slot and every address, `Progress` what the
  threads remember of a run, and `Merged` puts together the whole program, peers, allocator
  and Loc-RIB, whatever the order of their steps.
- **Stream splitter.** `Splitter`: cutting one stream at markers, and parsing the
  chunks.

`dafny verify dfyconfig.toml` checks the whole project.

## How the code is read

Where the code departs from what its comments intend, the model follows the
code, and a theorem says exactly when the intent is met.

- The push flag read after the lock is uninitialised when the head stays
  (`locrib.c:66`). The comments at `locrib.c:57-62` say that no head change means no
  push, so the model takes it as set.
- A withdraw passes a NULL route, so the test at `locrib.c:89` never succeeds and
  no withdraw changes a head: `LocRib.WithdrawIsIgnored`.
- The ring is safe exactly with fewer addresses than slots
  (`PipelineSafety.OverrunExactly`). The shipped sizes meet the failing side: there are
  BIG entries (`locrib.c:17`) for BIG slots (`locribjournal.c:46`), so a journal that
  holds all addresses but one overruns with the last. A flush completes exactly when no pending run
  is longer than the address table (`PipelineSafety.FlushAnnouncesAllHeads`).
- Index 0 means both "empty" and the first index issued, so the first prefix can
  get a second index: `PrefixTable.IssuedExactly` gives the exact number of indices,
  `PrefixRace.RaceSafety` and `PrefixRace.RaceBoundReached` the exact bound under races.
- The forward entry is stored before the inverse entry, and the test for an entry takes
  no lock. A thread can be answered with an index that cannot be decoded yet
  (`PrefixRace.WindowReached`), exactly while another one is between the two stores for
  that index (`PrefixRace.AnswerNamesPrefixExactly`).
- `get` passes over the attribute that stops it, so a later request may miss it.
  `Attributes.GetsExactly` says for each request what it returns,
  `Attributes.CursorRefinesSearch` gives the exact condition on the attributes,
  `Attributes.PathSwallowed` an input that fails, and
  `ExportMeaning.MandatoryMeansNothingSwallowed` shows that ORIGIN, AS_PATH and NEXT_HOP
  in ascending order are enough.
- The copying serializer applied to its own output gives the same octets exactly
  when the types reached come first among those asked for: `ExportMeaning.CopyTwice`. With
  the mandatory attributes it always does (`CopyIsFinal`), without them it may not
  (`CopyNotFinal`).
- `prepend` copies from six octets into the attribute, not from behind the segment
  header. `ExportMeaning.PrependIsPrependOnlyIfPeriodic` says when the result is the
  old path with one more AS all the same, and `PrependLosesAs` what a path of one AS
  becomes. On an attribute shorter than a segment header its assertions look at the
  octets behind it, and should they pass, it copies a negative number of octets; the
  model counts both as failing.
- `set` writes one octet of the ORIGIN even if the attribute is empty. The size bounds
  of `SerializeIbgp` and `SerializeEbgp` are then one octet larger, and
  `EmptyOriginAddsEight` and `EmptyOriginAddsSix` reach them.
- The message buffer has 8192 octets and the address table 4096 entries, and nothing
  compares the two. `Announce.BuildUpdate` says exactly which messages leave the buffer,
  `Announce.BlockFits` gives a safe bound, and `Announce.FullTableOverruns` a block that
  does not fit.
- LOCAL_PREF is written in network order and read back in machine order:
  `ExportMeaning.IbgpKeepsMeaning` states the byte swap.
- The slab is carved at a 32-bit product. `Allocator.ApartExactly` and
  `Allocator.ShippedPools` say exactly up to which index the two pools stay apart.
- The list that announces a route frees it, while a slot holds it, exactly when its
  first two accepted prefixes have the same slot: `AdjRibIn.FreedByOwnListExactly`. What
  follows can free it a second time: `AdjRibIn.RepeatedAndWithdrawn`.
- The Loc-RIB keeps a pointer as head, compares what lies in that block when a request
  comes (`locrib.c:76-82`), and groups by pointer when it announces (`phase3.c:53`). A route
  can be freed while it is a head, and the next block allocated from the same cache is the
  one freed last (`Pools.SameBlockAgain`). Two things go wrong, each even if the other is
  seen to. A route withdrawn and announced again finds its own block as head and is passed
  over, and the listener keeps the old record: `StaleHeads.StaleHeadSilences`. And one block
  announced and withdrawn for one address after the other, without an end-of-block mark,
  becomes the head of all of them; with more than 4096 of them waiting, the next output
  phase fails at `phase3.c:56`: `CrowdedHeads.CrowdFailsExactly`.
- So two things can be checked before a route is read into a block: that it has the record
  of the heads it would change, and that no address with a set flag has the block as head.
  `WorldRuns.StepAgrees` says that comparing blocks agrees with comparing routes for
  exactly as long as the first is observed. `BlockRuns.FlushEndsExactly` says exactly when
  an output phase ends, and `BlockRuns.FewWaitingStep` and `FewWaitingFit` that it always
  does if the second is observed. `EndToEnd.SlotsAreHeard` and `Merged.RunMerged` draw the
  conclusions. If no head's block is handed out at all, both are observed, the blocks hold
  the very routes the requests give (`WorldRuns.StepAgreesOnRoutes`), and
  `EndToEnd.PeersAreHeard` and `EndToEnd.HeadFreedExactly` hold.
- `Pipeline`, `PipelineSafety`, `Requests` and `RunLength` compare routes as identities, which is
  what the program's pointers are as long as no block of a head is filled again. Of
  identities the run-length assertion never fails: no message has more than 4096 octets
  (`bgpparse.c:63`), so no route is asked for more often than the address table has entries
  (`RunLength.NoLongRun`). Of blocks that is false, as said above.
- The link word of a free block lies on the number of the route (`libupdates2.h:21-26`),
  which the program never reads again: freeing alone changes no record.
- `split_buf` never raises its lower limit and always leaves the last message out:
  `Splitter.SplitAgrees` states both what is lost and when the chunks agree with the
  stream. Inside a message, sixteen octets of 0xff look like a marker; the chunks
  agree exactly when the greatest such run before every target is the start of a message,
  and `Splitter.LongMarkerBreaks` is a stream on which they fail.

## Model

| member | source | states |
|---|---|---|
| PipelineSafety.TokenConservation | locrib.c:69-97 | In every reachable state of any number of threads, producers about to journal an address, its journal entries, and consumers yet to clear it number 1 if its push flag is set and 0 otherwise; no address is in the journal twice |
| PipelineSafety.RoomToPush | locrib.c:96-97 | A producer that has left the lock finds a free slot whenever there are fewer addresses than ring slots |
| PipelineSafety.OverrunExactly | locribjournal.c:57-59 | Some interleaving fails the overrun assertion if and only if there are at least as many addresses as ring slots |
| PipelineSafety.ClearFlagMeansHeadSeen | phase3.h:6-16 | No lost update: while an address's flag is clear, the route last read for it is its current head |
| PipelineSafety.AnnouncedInHistoryOrder | phase3.c:33-65 | Across all calls and interleavings, the routes announced for an address are a subsequence of the history of its heads |
| PipelineSafety.CallAnnouncesWhatItPulled | phase3.c:43-67 | What a returning call has announced is, in order and once each, what was pulled, in maximal runs within the table; the counter equals the number announced; addresses leave the journal in the order they entered |
| PipelineSafety.SuppressionRefinesNewWins | locrib.c:77-86 | Every head carries the tie-break record of the last update served for its address, and each head in its history differs in that record from the one before |
| PipelineSafety.QuiescentAnnouncesHeads | bgpparse.c:257-264 | With all threads idle and the journal empty, the last route announced for every address is its head |
| PipelineSafety.CallSettles | phase3.c:43-125 | One call with nobody else running empties the journal and announces the pending runs, or fails the run-length assertion, the latter exactly when a run is too long |
| PipelineSafety.FlushSettles | bgpparse.c:264 | From every reachable idle state the forced flush ends; it empties the journal and announces the pending runs, or fails the run-length assertion, the latter exactly when a run is too long |
| PipelineSafety.FlushAnnouncesAllHeads | phase3.c:33-67 | After the flush the listener's last word on every address is its head, if and only if every pending run fits the address table |
| Requests.HeadsFollowRequests | locrib.c:75-94 | In every interleaving the heads are what serving the requests one after the other, in lock order, gives |
| Requests.SuppressionRefinesNewWins | locrib.c:81-86 | For all requests, the head kept by the tie-breaker has the same record as the head of the variant in which every newcomer wins |
| Requests.PushMeansChange | locrib.c:69-97 | A request that is to enter the journal has just changed the head to one with another tie-break record |
| Requests.PushesAreChanges | locrib.c:96-97 | In every interleaving an address has entered the journal at most as often as its head has really changed |
| Requests.ListenerHearsLastAnnouncement | bgpparse.c:257-264 | Whatever any threads asked for, once joined and flushed the last word on each address is the head the requests give, with the record of the last route announced |
| SerialRun.ServeIsRun | locrib.c:45-101 | Serving one request with nobody else at work is a run of the protocol, in each case of the code: it begins with that request, and only steps of the same thread follow, none of them another request or a start of its own of the output phase |
| SerialRun.ServeOne | locrib.c:45-101 | The method on the arrays and the ring and that run end alike: same failure, entries, journal and announcements |
| SerialRun.ServeAll | locrib.c:45-101 | The same for any sequence of requests with or without the end-of-block mark |
| SerialRun.ServeAndFlush | bgpparse.c:257-264 | After any requests and the forced output phase, the announcements of the program end, for each address, with the head the requests give |
| Scheduling.TriesAreOwed | locrib.c:96-100 | In every interleaving a thread has tried the lock of the output phase, or is about to, exactly once for each start of its own and for each push of an address whose request, the thread's latest, carried the end-of-block mark |
| RunLength.PlacesWereAsked | locrib.c:75-94 | In every interleaving a route is a head at no more places of the histories than there were requests for it |
| RunLength.OpenRunWasAsked | phase3.c:53-63 | With routes as identities, in every interleaving, the run being collected is no longer than the number of requests for its route |
| RunLength.NoLongRun | phase3.c:53-56 | With routes as identities, the run-length assertion fails in no interleaving if no route is asked for more often than the table has entries |
| RunLength.FlushNeverFails | bgpparse.c:257-264 | With routes as identities, and fewer addresses than ring slots besides, nothing fails and the forced flush announces the head of every address |
| World.StepInv | bgpparse.c:13-52 | Every step of every peer keeps: exact counts, blocks of one peer only, the journal holds the flagged addresses once each, each slot in use holds what its peer announced last, and no route is asked for more often than a message has prefixes |
| World.LastOfAll | locrib.c:81-86 | Of all requests the last announcement of an address is the last one of the peer that announced it last |
| World.FlushTells | phase3.c:43-67 | Once the output phase has ended the listener has, for every journalled address, what lies in the head's block, and for the others what it had |
| BlockRuns.FlushEndsExactly | phase3.c:53-56 | The output phase fails if and only if more journalled addresses than the table has entries follow one another with one block as head |
| BlockRuns.FewWaitingStep | phase3.c:53-56 | If no route is read into a block for which addresses wait, no block ever has more addresses waiting than it was put into slots since it was filled |
| BlockRuns.FewWaitingFit | phase3.c:53-56 | Then the output phase ends |
| Grouping.FitsExactly | phase3.c:53-56 | All runs of a stream fit a table if and only if nowhere more pairs than it has entries follow one another with one route |
| WorldRuns.AnnouncementIsHeardExactly | locrib.c:69-97 | If the output phase ends, the listener has the record announced, unless the request was passed over with a clear flag while the listener had another one |
| WorldRuns.StepAgrees | locrib.c:76-82 | Comparing what lies in the heads' blocks goes on agreeing with comparing the routes asked for after a step if and only if no head's block gets another record |
| WorldRuns.StepAgreesOnRoutes | locrib.c:76-82 | While no head's block is handed out, the heads' blocks hold the very routes that the requests give |
| WorldRuns.RunOk | bgpparse.c:85-131 | Every run of any peers keeps the invariant; with a guard on records, heads, requests and listener agree; with a guard on waiting heads, the output phase never fails |
| EndToEnd.SlotsAreHeard | bgpparse.c:243-264 | For any messages of any peers: the forced output phase fails exactly on a crowded block, never under the guard on waiting heads; if it ends, under the guard on records, the listener has the record announced last for every address, which lies in the slot of the peer that announced it if that slot is still in use |
| EndToEnd.PeersAreHeard | bgpparse.c:243-264 | Through the protocol, for any peers on threads of their own, while no head's block is handed out: the heads are the routes in the heads' blocks, one route exactly if one block, nothing fails with fewer addresses than ring slots, and the listener has the record of every such slot |
| EndToEnd.HeadFreedExactly | bgpparse.c:37-50 | While no head's block is handed out again, a head is freed if and only if no slot of any peer holds it; the slot that announced last is then empty or holds another block with an equal record |
| StaleHeads.StaleHeadSilences | locrib.c:76-86 | Announced, withdrawn and announced again out of the same block, for which nothing waits: the listener keeps the first record and the slot holds the second |
| CrowdedHeads.CrowdFailsExactly | phase3.c:53-56 | For any n, n addresses announced and withdrawn in turn out of one block, with one record and each route asked for once: all wait with this block as head, and the output phase fails if and only if n is greater than 4096 |
| MessageRuns.MessageIsRun | bgpparse.c:85-131 | What a message makes of a peer is what the run of its steps makes, and the requests logged are the calls the peer made, with the routes in the blocks |
| TableWorld.FlushTable | phase3.c:26-126 | The output phase on the arrays and the ring fails exactly when that of `World` does, and else leaves the same heads, flags, journal and announcements |
| TableWorld.PutTable | locrib.c:45-101 | So does serving an announcement, with the output phase that it schedules, for fewer addresses than ring slots |
| TableWorld.AllowsExactly | locrib.c:76-82 | What a caller can check on the entries before a route is read in is exactly the guard |
| Operations.OpsTell | bgpparse.c:85-131 | The steps that any operations of any peers take put each announced prefix with the block and the route of the message its peer is in; so what the steps say of each message, each slot and each address is what the operations say |
| Progress.BeginFollows | bgpparse.c:85-91 | Reading a new route is a step of `World`; what the threads remember of the messages, and what slots and requests hold, stays what the steps say |
| Progress.PutFollows | bgpparse.c:99-131 | So is putting the route of the current message into a slot, or emptying one, with the output phase it schedules |
| Progress.MayDoExactly | bgpparse.c:37-50 | A put is left out exactly where `World` has no such step |
| Merged.AllowedExactly | bgpparse.c:85-131 | What a caller can check of an operation holds exactly where `World` has its step, under the guard, and the small pool stays below the large one |
| Merged.DoBegin | bgpparse.c:85-91 | A route allocated for one peer object and read into its block is a step of `World`, for all peers, the allocator and the Loc-RIB: in the very block the allocator hands out next for that size, and failing exactly where there is none |
| Merged.DoPut | bgpparse.c:13-52 | So is a route put into a slot or a slot emptied, with the call of the Loc-RIB and the output phase it schedules; it fails exactly when that output phase does |
| Merged.DoAll | bgpparse.c:243-262 | Any interleaving of the steps of the messages of all peers and of forced output phases is a run of `World` under the guard asked for, every prefix put with the block of its own message, up to the first step that `World` does not have or that fails |
| Merged.RunMerged | bgpparse.c:243-264 | The whole program, with the forced output phase at the end: it stops early only where `World` has no step, runs out of memory only where there is no block for the route, and under the guard on waiting heads never fails in the output phase; every slot holds the record and attributes of the message its peer announced last there, or nothing if it has withdrawn since; under the guard on records the announcements end, for each address, with the record of the message that was the last to announce it |
| Pipeline.StepInv | locrib.c:75-100 | Every step of every thread keeps the whole invariant: tokens, single consumer, histories, reads, grouping, order and counts |
| Pipeline.RunInv | locrib.c:75-100 | The invariant holds in every state that any interleaving reaches |
| Pipeline.TokensStep | locribjournal.c:51-76 | Serving a request creates at most one token of an address, clearing destroys one, every other step moves it |
| Pipeline.SingleConsumerStep | phase3.c:33-35 | Only the holder of the try-lock is ever inside the output phase |
| Pipeline.FlagSetUntilCleared | phase3.h:10-12 | An address pulled and not yet cleared still has its flag set |
| Pipeline.ReadsKeptStep | phase3.h:11-15 | Each read returns a head of the address's history, later than every earlier read of it |
| LocRib.WithdrawIsIgnored | locrib.c:88-91 | A request with a NULL route leaves every entry as it is and journals nothing |
| LocRib.WithdrawKeepsHead | locrib.c:69-91 | A withdraw that names the head leaves the head, sets the flag and journals the address if the flag was clear; any other changes nothing |
| Grouping.GroupRunsPartitions | phase3.c:54-63 | The runs, put together, are the stream that was read, and no two neighbouring runs carry the same route |
| Grouping.GroupRunsUnique | phase3.c:54-63 | There is only one such partition |
| Journal.BetweenPush | locribjournal.c:57-58 | Writing at the write cursor and advancing it, with or without wrapping, appends to what lies between the cursors |
| Journal.BetweenPull | locribjournal.c:67-70 | Reading at the read cursor and advancing it takes the oldest entry |
| Journal.OverrunExactly | locribjournal.c:58-59 | The write cursor reaches the read cursor exactly when all but one slot are used |
| Journal.Journal.constructor | locribjournal.c:44-49 | An empty ring |
| Journal.Journal.Push | locribjournal.c:51-61 | The FIFO grows by the address; the assertion fails exactly when capacity - 1 entries are held |
| Journal.Journal.Pull | locribjournal.c:63-76 | The oldest entry is taken, or the empty mark returned exactly when there is none |
| OutputPhase.LocRibTable.constructor | locrib.c:13-21 | Empty entries and an empty journal |
| OutputPhase.LocRibTable.ReadAndClear | phase3.h:6-16 | Returns the head, clears that entry's flag and changes nothing else |
| OutputPhase.LocRibTable.PullAndRead | phase3.c:46-50 | The next journalled address with its head, its flag cleared, or the empty marks |
| OutputPhase.LocRibTable.CollectRun | phase3.c:54-63 | One run is collected up to the first different route or the end of the journal; the table assertion fails exactly on a run that is too long |
| OutputPhase.LocRibTable.AnnounceRuns | phase3.c:43-123 | All runs of the journal are announced in order, and the counter grows by the number of addresses |
| OutputPhase.LocRibTable.SchedulePhase3 | phase3.c:26-126 | Drains the journal, clears exactly the flags of its addresses and announces the maximal runs of their heads; fails exactly when a run exceeds the table |
| OutputPhase.LocRibTable.Locrib | locrib.c:45-101 | New entry, journal push only on a head change with a clear flag, output phase only on such a push with the end-of-block mark; the journal keeps holding exactly the flagged addresses; fails exactly when a push finds the ring full, never with fewer entries than slots, or when a run exceeds the table |
| OutputPhase.MatchesPush | locrib.c:69-73 | Setting a flag and journalling the address only if the flag was clear keeps journal and flags in agreement |
| OutputPhase.RoomForOne | locribjournal.c:57-59 | An address whose flag is clear still fits |
| Prefixes.EncodeInterval | bigtable.c:33-36 | A prefix of length l has an index in [2^l, 2^(l+1)), inside the table of 2^26 entries |
| Prefixes.EncodeCollides | bigtable.c:33-36 | Two prefixes share an index if and only if lengths and leading bits agree |
| Prefixes.DecodeEncode | bigtable.c:33-42 | Decoding an encoded prefix clears its host bits and nothing else |
| Prefixes.EncodeDecode | bigtable.c:33-46 | Encoding a decoded index gives it back, on [2, 2^25) |
| Prefixes.MaskedKeepsLeadingBits | bigtable.c:38-42 | Masking keeps the leading bits and is idempotent |
| PrefixTable.LookupKeepsInverse | bigtable.c:106-126 | A lookup keeps forward and inverse table inverse to each other and never changes an issued index |
| PrefixTable.IssuedExactly | bigtable.c:119-125 | Indices issued = distinct prefixes, and one more exactly if the first prefix is asked for again |
| PrefixTable.IssuesWhen | bigtable.c:119-122 | An index is issued exactly for a prefix not seen before, or for the first one when it is seen the second time |
| PrefixTable.ReturnedNamesPrefix | bigtable.c:88-127 | Every index ever returned names, in the final inverse table, the prefix it was returned for |
| PrefixTable.ReturnedDistinguishes | bigtable.c:88-127 | Different prefixes never share an index, and a non-zero answer is stable |
| PrefixTable.PrefixIndex.constructor | bigtable.c:61-66 | Two zeroed tables |
| PrefixTable.PrefixIndex.LookupRIB | bigtable.c:88-127 | The arrays change as the table does, and the answer is its answer; room in the inverse table is needed only for a new index |
| PrefixTable.PrefixIndex.LookupRIB64 | bigtable.c:129-135 | Lengths above 24 give 1000001, the mark of a prefix that is too long, and change nothing |
| PrefixTable.PrefixIndex.LookupBigtable | bigtable.c:78-86 | The prefix of an issued index; fails exactly on an index not issued |
| PrefixTable.PrefixIndex.LookupBothWays | bigtable.c:78-135 | A prefix through both tables has lost its host bits and nothing else |
| PrefixTable.WireCanonicalisation | nlri2.h:15-29 | Read, index, look up and write: same length and leading bits, host bits clear, and a second pass changes nothing |
| PrefixRace.RaceSafety | bigtable.c:106-126 | With the unlocked test, the taking of an index and the two stores as separate steps, in every state of every interleaving: two prefixes never share an index, and a prefix takes at most one index per thread, and one more if it was the first |
| PrefixRace.AnswerNamesPrefixExactly | bigtable.c:119-125 | The inverse entry of an answered index names its prefix, except exactly while the lock holder is between its two stores for that index, when it is still zero |
| PrefixRace.FreeLockMeansInverse | bigtable.c:120-124 | Only the newest inverse entry can be missing, and only while the lock is held; with the lock free the tables are inverse to each other and every answer names its prefix |
| PrefixRace.WindowReached | bigtable.c:108-123 | Two threads reach that window for any prefix but the first |
| PrefixRace.RaceBoundReached | bigtable.c:119-125 | For any number of threads some interleaving reaches that bound |
| PrefixRace.LookupsAreAnswered | bigtable.c:106-127 | In every interleaving each prefix has been answered as often as it was looked up, but for the threads still between their test and their answer |
| Nlri.NlriIter | nlri2.h:15-29 | The shifting loop reads the prefix and advances past its octets |
| Nlri.NlriCount | nlri2.h:48-57 | The number of prefixes of the list |
| Nlri.BuildNlri | nlri2.h:81-93 | Writes exactly the wire form at the cursor and changes no other octet |
| Nlri.ReadWritten | nlri2.h:81-93 | Reading what was written, whatever follows, keeps the length and clears what its octets do not hold |
| Nlri.PrefixRoundTrip | nlri2.h:15-29 | A prefix survives writing and reading if and only if it is clear beyond its last octet |
| Nlri.PrefixListRoundTrip | nlri2.h:81-93 | A list of prefixes without host bits comes back whole and in order |
| Attributes.ParseWires | bgpupdate.c:81-89 | The octets of a list of attributes parse back to that list |
| Attributes.WiresOfParse | bgpupdate.c:81-89 | What parses is the octets of what it parses to |
| Attributes.GetsExactly | bgpserialize.tpl:85-106 | On ascending attributes, each of a series of one-pass `get` calls returns what a search finds if enough attributes lie between the earlier wanted types and its own, and nothing otherwise |
| Attributes.CursorRefinesSearch | bgpserialize.tpl:85-106 | On ascending attributes, the series of one-pass `get` calls answers like independent searches if and only if nothing wanted is swallowed, a condition that counts attributes between wanted types |
| Attributes.PathSwallowed | bgpserialize.tpl:103-104 | Without an ORIGIN the search for it loses an AS_PATH that comes first |
| Export.Get | bgpserialize.tpl:85-106 | The loop finds what the list scan finds and leaves the cursor on the rest |
| Export.Copy | bgpserialize.tpl:67-83 | Writes the found attribute with the header its length calls for, or nothing |
| Export.Set | bgpserialize.tpl:15-29 | Writes the given header and as many octets as asked for; fails exactly when the attribute is absent |
| Export.Set4 | bgpserialize.tpl:31-37 | Writes a four-octet attribute in network order |
| Export.Prepend | bgpserialize.tpl:39-65 | Writes the longer path with the octets the code copies; fails exactly on a path that is shorter than a segment header, does not start with a sequence or is full |
| Export.StoreSwapped | bgpserialize.tpl:35 | Storing the byte-swapped word puts the most significant octet first |
| Export.CanonNotLonger | bgpserialize.tpl:67-83 | Re-encoding a header never lengthens it |
| Export.GetAndCopy | copyserialize.c:7-17 | A get-and-copy pair writes no more octets than the cursor moves |
| Export.SerializeCopy | copyserialize.c:7-19 | Writes the attributes the cursor finds for 1, 2, 3 and 8, never more octets than were read |
| Export.SerializeIbgp | ibgpserialize.c:7-20 | ORIGIN, AS_PATH, NEXT_HOP and LOCAL_PREF, with the octet written for an empty ORIGIN; at most 7 octets more than were read (8 with an empty ORIGIN); fails exactly without an ORIGIN in reach of the cursor |
| Export.SerializeEbgp | ebgpserialize.c:7-20 | ORIGIN, the prepended path, NEXT_HOP and COMMUNITY; at most 5 octets more than were read (6 with an empty ORIGIN); fails exactly without an ORIGIN or with a path that cannot grow, one shorter than a segment header included |
| ExportMeaning.MandatoryMeansNothingSwallowed | copyserialize.c:7-17 | Ascending attributes with ORIGIN, AS_PATH and NEXT_HOP: the cursor answers like independent searches |
| ExportMeaning.CopyProjects | copyserialize.c:7-19 | The output is the input filtered to types 1, 2, 3 and 8, up to the extended-length bit, if and only if nothing is swallowed |
| ExportMeaning.CopyKeepsTypes | copyserialize.c:7-17 | Ascending attributes with types 1, 2 and 3: the output holds exactly the attributes of types 1, 2, 3 and 8, each with its value, in order |
| ExportMeaning.CopyTwice | copyserialize.c:7-19 | For ascending attributes, serializing the output again gives identical octets if and only if no wanted type is reached after one that is not, a condition on the types of the input |
| ExportMeaning.CopyIsFinal | copyserialize.c:7-19 | Ascending attributes with ORIGIN, AS_PATH and NEXT_HOP: serializing the output again gives identical octets |
| ExportMeaning.CopyNotFinal | copyserialize.c:7-19 | Types 1, 4, 5 and 8: it does not |
| ExportMeaning.IbgpExportIs | ibgpserialize.c:7-18 | The four attributes written, by independent searches of the source |
| ExportMeaning.IbgpWrites | ibgpserialize.c:7-18 | From ascending attributes with types 1, 2 and 3: ORIGIN with flags 0x40 and the first octet of the source's, the source's path and next hop, and LOCAL_PREF, type 5, in network order |
| ExportMeaning.IbgpKeepsMeaning | ibgpserialize.c:7-20 | The output parses to its very end; read back it gives the source's origin and path length, and the local preference byte-swapped |
| ExportMeaning.AppliedFields | bgpupdate.c:3-74 | The record after import, in terms of searches for the attributes |
| ExportMeaning.EbgpWrites | ebgpserialize.c:7-20 | From the same: ORIGIN, the path with one more AS counted, AS 42 in front and the source's octets from the seventh on, the next hop, and type 8 if there is one |
| ExportMeaning.EbgpExtends | bgpserialize.tpl:39-46 | That export fails exactly on a path that is shorter than a segment header, does not start with type 2, or counts 255 ASes |
| ExportMeaning.PrependIsPrependOnlyIfPeriodic | bgpserialize.tpl:58-63 | The written path is the old one with one more AS if and only if every octet repeats four octets later |
| ExportMeaning.PrependLosesAs | bgpserialize.tpl:62 | A path of one AS becomes the new AS and whatever four octets follow the path in memory |
| ExportMeaning.PrependedLength | bgpserialize.tpl:58-63 | A path of one sequence counts one hop more afterwards |
| ExportMeaning.EmptyOriginAddsEight | bgpserialize.tpl:15-29 | An iBGP export of an empty ORIGIN writes 11 octets for 3 |
| ExportMeaning.EmptyOriginAddsSix | bgpserialize.tpl:46-56 | An eBGP export of an empty ORIGIN and a path of 252 octets writes 264 octets for 258 |
| Import.AsPathCount | aspath.c:3-23 | The loop computes the path length; no result exactly when an assertion fails |
| Import.PathLengthIsHops | aspath.c:9-21 | A set counts one and a sequence its ASes, for all paths of up to 255 hops, and longer ones fail |
| Import.ParseAttribute | bgpupdate.c:3-74 | The switch over the types, with each length assertion as an outcome, computes the specified record |
| Import.AttributeEffect | bgpupdate.c:3-74 | Exactly which attributes are refused, by the numbers of their types and lengths, which one field each type changes, and to what |
| Import.AttributesCommute | bgpupdate.c:76-91 | Neighbouring attributes of different types can change places anywhere, failures included |
| Import.AppliedLast | bgpupdate.c:76-91 | Attributes in any order, repeated or not, are refused exactly if one of them is, and otherwise leave in the record what the last ones of types 1, 2, 4 and 5 say, and nothing else |
| Import.ParseAttributes | bgpupdate.c:76-91 | Attribute after attribute up to exactly the limit |
| UpdateMessage.ReadPrefixes | bgpparse.c:99-115 | A list is read to its end |
| UpdateMessage.ParseUpdate | bgpparse.c:60-66 | The three parts of a body |
| UpdateMessage.BodyRoundTrip | bgpparse.c:60-66 | A body of any withdrawn octets, attribute octets and prefixes behind their lengths gives back the three parts |
| UpdateMessage.UpdateRoundTrip | bgpparse.c:60-66 | A message with any prefixes withdrawn, any attributes and any prefixes announced, wherever it lies in a stream, is framed with its own length, and its body gives back the withdrawn prefixes, the attribute octets and the announced prefixes, in order |
| Layout.WordLayout | getw.h:4-8 | Words lie with their most significant octet first; loaded and stored as they are, with the least significant one |
| Layout.SwapLayout | bgpserialize.tpl:35 | The byte swap turns the four octets around |
| Layout.PrefixLayout | nlri2.h:81-93 | The length in bits, and the leading octets of the address, as few as hold that many bits |
| Layout.IndexLayout | bigtable.c:33-36 | The index of a prefix of l bits is the first l bits of the address behind a 1 bit |
| Layout.IndexOrdered | bigtable.c:33-36 | Among prefixes of one length, indices are in the order of the addresses |
| Layout.AttributeLayout | bgpserialize.tpl:67-83 | Written: flags with bit 0x10 set exactly for 256 octets and more, the other bits as they were, type, one or two octets of length, value |
| Layout.AttributeRead | bgpupdate.c:81-89 | Read: bit 0x10 of the flags says whether the length has one octet or two, and the value follows it |
| Layout.SegmentLayout | aspath.c:9-18 | A segment of type 1 counts one, one of type 2 its ASes, of four octets each |
| Layout.MessageLayout | phase3.c:72-105 | Sixteen octets of 0xff, the length at 16, type 2 at 18, no withdrawn routes at 19, the length of the attributes at 21, the attributes at 23, the prefixes behind them |
| Layout.MessageRead | bgpparse.c:173-183 | A message starts exactly at such octets, and its body at 19 |
| Announce.PutPrefixes | phase3.c:97-98 | The decoded prefixes of the block, in the block's order; leaves the buffer exactly when they do not fit |
| Announce.BuildUpdate | phase3.c:89-105 | The transmit buffer holds exactly the message of those attributes and prefixes; it is left exactly by messages of more than 8192 octets |
| Announce.BlockFits | phase3.c:94-98 | A route of `limit` octets and n addresses stay inside the buffer whenever limit + 4 n is at most 8161 |
| Announce.LongPrefixesOverrun | phase3.c:14 | Prefixes longer than 16 bits take 4 octets each and leave the buffer exactly from 2043 addresses on, whatever the attributes |
| Announce.FullTableOverruns | phase3.c:28 | A full table of 4096 different prefixes makes 16384 octets |
| Announce.AnnouncementRoundTrip | phase3.c:90-105 | A built announcement, framed and parsed, gives back the exported attributes and the prefixes of the block in order |
| Splitter.FindCut | bgpparse.c:212-224 | The backward count stops at the greatest run of sixteen 0xff above offset 0 that ends at or before the target, and fails exactly without one |
| Splitter.SplitBuf | bgpparse.c:193-230 | Chunks follow one another, each ends at the greatest run before its target, and all searches succeed exactly if the first does |
| Splitter.ChunksAdjacent | bgpparse.c:210-225 | Chunks never overlap and never go back |
| Splitter.TargetExactly | bgpparse.c:212 | The search for the end of chunk p starts at the whole part of (p + 1) / n of the length |
| Splitter.BufParsePeer | bgpparse.c:158-189 | The messages met by their lengths, up to the chunk's end or the maximum, those handed on, and the count; or that the walk fails an assertion, leaves the data or never ends |
| Splitter.WalkFramed | bgpparse.c:171-186 | On a well-framed stream the walk from one message meets every message up to the limit, or up to the maximum if there is one |
| Splitter.WalkGoesWrong | bgpparse.c:171-186 | Behind any number of messages: the walk reads past data that end within the next header, fails an assertion on a header without marker or type 2, and never ends at a length of 0 |
| Splitter.HandedExactly | bgpparse.c:181-183 | Of the messages met, those behind the first `spare` that are longer than 23 octets are handed on, and no others |
| Splitter.HandedInOrder | bgpparse.c:181-185 | They are handed on in the order in which they are met |
| Splitter.LastCut | bgpparse.c:209-224 | The last cut is never before the start of the last message, and is that start if it is a message start at all |
| Splitter.SplitAgrees | bgpparse.c:243-262 | Sequential parsing meets every message; parsing the chunks in order meets every message but the last, once each, if and only if the greatest run of 0xff at or before every target is a message start, which holds when such runs occur only there |
| Splitter.LongMarkerBreaks | bgpparse.c:212-224 | Two messages whose markers are told apart by length alone: sequential parsing meets both, and parsing the chunks fails an assertion |
| Pools.IssueKeeps | alloc.c:49-53 | A block from the bump index keeps the books, and is new |
| Pools.ReuseKeeps | alloc.c:82-90 | Popping a free list keeps the books and hands out its top block |
| Pools.ReturnKeeps | alloc.c:92-101 | Pushing onto a free list keeps the books, and its 32-bit count does not wrap |
| Pools.SameBlockAgain | alloc.c:82-101 | Freeing a block and allocating from the same cache gives the same block and undoes everything |
| Pools.Conservation | alloc.c:49-101 | A pool's index is the number of blocks in use plus those on free lists, and each count is the length of its list |
| Pools.OnePlace | alloc.c:82-101 | Every issued block is in use or on a free list, never both, and at one place of one list |
| Pools.ListEnds | alloc.c:82-101 | The links of a free list lead through its blocks to NULL in as many steps as its count: no cycle |
| PoolRace.StepInv | alloc.c:82-132 | With both pools over one memory, and the look at the own list and the atomic increment as separate steps, every step of every thread keeps the books of both |
| PoolRace.RunInv | alloc.c:82-132 | So they are kept in every interleaving of allocating, freeing and writing |
| PoolRace.NobodyIsStopped | alloc.c:82-108 | In every interleaving a list that is not empty can be read and counted down, and a block in use can be freed without the count wrapping |
| PoolRace.RaceSafety | alloc.c:49-53 | Every block handed out in any interleaving was used by nobody and is of the size asked for |
| PoolRace.RaceFailures | alloc.c:103-132 | A block freed always finds a list of its own size by its address; an assertion fails exactly on a size above 4224 or a pool with all blocks issued; the pools meet exactly at the small block that would not end below the large pool |
| PoolRace.RaceConservation | alloc.c:49-108 | In every interleaving no two blocks in use overlap, whatever their sizes, and of either size the blocks issued are those in use and those free |
| PoolRace.RaceServes | alloc.c:103-132 | In every interleaving every block asked for has been handed out, but for the threads about to take an index, and the blocks in use are as many as were handed out less those given back |
| Allocator.Allocator.constructor | alloc.c:22-42 | Two empty pools, the second at the 32-bit product |
| Allocator.TakeFrom | alloc.c:110-124 | A block from the cache's list or the pool; fails exactly when both are exhausted |
| Allocator.Allocator.Alloc | alloc.c:126-132 | A block of the smallest class that is large enough, new to the blocks in use; fails exactly on a size above 4224 or where the cache's list of that class is empty and its pool is used up; the pools stay apart exactly if the caller could see that they would; no other cache's lists change |
| Allocator.Allocator.Dalloc | alloc.c:103-108 | A block goes on top of the list of its own size, whichever size that is, and leaves the blocks in use; no other cache's lists change |
| Allocator.Allocator.Write | alloc.c:92-101 | Whatever the owner of a block writes into it, no free list is damaged |
| Allocator.LiveApart | alloc.c:49-53 | Blocks in use never overlap, whatever their sizes, while the pools stay apart |
| Allocator.ShippedPools | alloc.c:22-42 | As shipped a small block is taken for a large one exactly from index 6445568 on, and lies on the large pool exactly up to index 22945568 |
| Allocator.ApartExactly | alloc.c:17-29 | All small blocks are told from large ones exactly while they end before the large pool; a product that does not wrap is enough, and as shipped it means an index of at most 6445568 |
| AdjRibIn.UpdateKeeps | bgpparse.c:37-48 | Putting a route into a slot keeps every count equal to the number of slots, frees exactly the route whose last slot this was, and never wraps, unless the slot is the only one holding that route already |
| AdjRibIn.AnnounceSound | bgpparse.c:99-115 | After any part of the announced list: counts agree with slots, the new route is in use and counted within 16 bits, and the freed and leaked routes are known |
| AdjRibIn.WithdrawSound | bgpparse.c:118-132 | Withdrawing keeps the counts whatever the list asks for |
| AdjRibIn.FreedByOwnListExactly | bgpparse.c:37-47 | A route is freed by the list that announces it, while slots hold it, if and only if the first two slots asked for are the same |
| AdjRibIn.RepeatedAndWithdrawn | bgpparse.c:37-50 | The same prefix announced twice and withdrawn by one message frees the route twice |
| AdjRibIn.MessageKeeps | bgpparse.c:85-131 | After a message counts agree with slots, exactly the routes no longer in use were freed, and a route is leaked only if it was before or if it is new and no prefix was accepted |
| AdjRibIn.MessageSlots | bgpparse.c:99-131 | A slot both announced and withdrawn by one message ends empty |
| AdjRibIn.AnnounceCalls | bgpparse.c:99-115 | An announced list calls the Loc-RIB once per accepted prefix, in order, and the end-of-block mark is set exactly when the last prefix of the list is accepted |
| AdjRibIn.WithdrawCalls | bgpparse.c:118-132 | A withdrawn list calls the Loc-RIB once for every slot it empties, however often the slot is asked for |
| AdjRibIn.UsedAreHeldOrLeaked | bgpparse.c:40-47 | The routes in use are those the slots hold and the leaked ones, which no slot holds |
| AdjRibIn.Peer.constructor | peer.c:31-34 | Empty slots and no routes |
| AdjRibIn.Peer.UpdateAdjRibIn | bgpparse.c:13-52 | The slot array, the counts, the freed blocks and the Loc-RIB calls change as specified, the block freed is in use when it is freed, and no other peer's block or free list is touched |
| AdjRibIn.Peer.PutAll | bgpparse.c:99-132 | A whole list, one prefix after the other |
| AdjRibIn.Peer.NewRoute | bgpparse.c:85-91 | The block the peer's own cache hands out next for the size, which was not in use, with a count of 0; fails exactly where there is none |
| AdjRibIn.Peer.ParseUpdate | bgpparse.c:54-133 | A message changes slots, counts, routes and calls as specified; a route is allocated exactly when there are both attributes and announced prefixes, in a block nobody used, a large one exactly for a body of more than 216 octets; fails exactly where it needs a block and there is none; no block or free list of another peer is touched |
| Peers.InitPeers | peer.c:31-38 | New peers over a new allocator are in order, each with a cache of its own |
| Peers.BeginOne | bgpparse.c:85-91 | Allocating a route for one peer, in the middle of the messages of the others, keeps the system; the block was nobody's and now is this peer's with count 0, and no other peer or cache changes; fails exactly where there is no block |
| Peers.PutOne | bgpparse.c:13-52 | So does putting a route into one slot of one peer: its slots, counts, calls and blocks change as specified and no other peer's do |
| Peers.Receive | bgpparse.c:54-133 | One message of any peer keeps the whole system, makes of that peer what is specified, and changes no other peer or cache; fails exactly where it announces and there is no block |
| Peers.ReceiveAll | bgpparse.c:243-262 | Any run of messages of any peers makes of them what its messages make one after the other, up to the first that would make the pools meet, or that announces and for which there is no block |
| Peers.UsedByOnePeer | bgpparse.c:37-48 | A block is in use if and only if some peer holds it in a slot or leaked it; never two peers, and never both |
| Peers.EveryBlockAccounted | alloc.c:49-108 | Every block ever issued is in use or on a free list and not both, and in use exactly if held or leaked by a peer |

## Left out

- `main`, memory mapping, file output, printing, timing and thread creation: input, output and plumbing; the announced blocks are a log.
- `timespec.c`, `bgpserialize.c`, `phase3.c.old`, `z.c`, `nlri_get` and `nlri_list`: benchmarking only, stale, not built, or disabled by an assertion.
- Repeated runs (`reinit`): a second one fails at `locrib.c:16`.
- Blocks refilled under the eyes of another thread: `World` takes the steps of all peers one after the other and flushes as one step, as in the build without MULTITHREAD (`bgpparse.c:247-250`). In `Pipeline` a route is an identity; a block refilled between two reads of one call of the output phase, or between being read and written, is not covered.
- EndToEnd.PeersAreHeard: for runs that never hand out a block that is a head; the protocol compares routes, which are then the same as blocks.
- RunLength.NoLongRun: routes are identities here; of blocks filled again it is false, and `BlockRuns.FlushEndsExactly` is the exact statement.
- Merged.RunMerged: for fewer addresses than ring slots; `PipelineSafety.OverrunExactly` says what happens otherwise.
- MessageRuns.MessageIsRun: the first two accepted prefixes of the message differ; `AdjRibIn.FreedByOwnListExactly` says what happens otherwise.
- Merged.DoBegin: an allocation that would carry the small pool into the large one is not allowed; the program stops before it.
- Merged.DoPut: a put into the only slot that holds the route already is not allowed; the program stops before it.
- Peers.BeginOne: one more small block must keep the pools apart, as for `AdjRibIn.Peer.NewRoute`.
- Peers.PutOne: not into the only slot that holds the route already, as for `AdjRibIn.Peer.UpdateAdjRibIn`.
- The withdraw message of `phase3.c:74-87`: its prefixes start at offset 23 while its length counts from offset 21, and no head ever becomes NULL.
- Sending one block to several peer groups: a message is built for the iBGP group, the only one configured in `peergroup.c`; the other two serializers are proved on their own.
- The contents of route buffers other than the link word of free blocks and the 16-bit count.
- Prefixes longer than 32 bits, decoding the index of a prefix of length 0 or the mark of a prefix that is too long, lists that end inside a prefix, and attribute strings that end inside an attribute: the code reads or shifts beyond its data there; they are preconditions.
- Splitter.SplitBuf: one octet behind the length must be readable, because the search for the last cut starts there.
- `AdjRibIn` takes the answers of the prefix table for the prefixes of a message as given; the tables are proved in `PrefixTable`, the lists in `Nlri`.
- `msg_count` of `buf_parse_peer` and the statistics counters are unbounded.
- Memory is sequentially consistent; stores of one thread are seen by the others in the order in which it made them.
- PoolRace.RaceSafety: ends where the small blocks would reach the large pool; `Allocator.ApartExactly` and `ShippedPools` say exactly where that is.
- Import.ParseAttribute: an ORIGIN of length 0 is excluded, because the code reads the octet behind it.
- Import.ParseAttributes: the same for the whole attribute string.
- World.StepInv: a step that puts a route into the only slot that holds it already is excluded; `AdjRibIn.FreedByOwnListExactly` says when a message asks for that.
- PrefixTable.PrefixIndex.LookupRIB: a prefix that needs a new index must find room in the inverse table, which the code does not check; `IssuedExactly` counts the indices.
- PrefixTable.PrefixIndex.LookupRIB64: the same.
- PrefixTable.PrefixIndex.LookupBothWays: the same.
- PrefixTable.PrefixIndex.LookupBigtable: the mark of a prefix that is too long, which the assertion admits, and the index of a prefix of length 0, for which the code shifts by 32, are excluded.
- Export.SerializeEbgp: four octets behind the attributes must be readable, because the path is copied from beyond its end; what they hold is not restricted.
- AdjRibIn.Peer.ParseUpdate: requires that the first two accepted prefixes differ, and that one more small block would keep the pools apart; `FreedByOwnListExactly` and `ApartExactly` are the exact statements of what happens otherwise.
- AdjRibIn.Peer.UpdateAdjRibIn: a route is not put into the slot that alone holds it already, which would free it.
- AdjRibIn.Peer.PutAll: the first two accepted prefixes of an announced list differ, for the same reason.
- AdjRibIn.Peer.NewRoute: one more small block must keep the pools apart.
- Peers.Receive: requires of a message what `AdjRibIn.Peer.ParseUpdate` does; so does `Peers.ReceiveAll`, and `Merged.DoAll` stops before an operation that breaks it, exactly (`Merged.AllowedExactly`).
- Pipeline.TokensStep: the locks of entries and of the journal are single steps; the spinning in front of a lock is not modelled.
