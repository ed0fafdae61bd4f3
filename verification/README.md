# A verified model of the broker, its regular expressions, its big numbers and its sort

nioev-mqtt is an MQTT broker. It keeps sessions for clients that come and go, and it embeds a JavaScript engine, and with
it a regular expression machine, a multi-precision arithmetic library and an in-place sort. The model covers the parts
of the program where the distance between what the code does and what it is for is largest.

Everything the program updates in place is a class, or a method over arrays, whose contract ties the new state to a
specification function or to the exact integers meant. What the program is for is then proved about the specification:
over whole runs for the protocols, for all inputs for the algorithms.

| files | what they model |
|---|---|
| `qos_session`, `qos_protocol`, `qos_reuse` | the QoS 2 state of one client; sender and receiver composed over channels that are lost at a disconnect (sections 4.3.3, 4.4 and 4.6 of MQTT 3.1.1); what becomes of a message whose identifier is in use |
| `login_state`, `login_runs`, `login_effect`, `login_sweep`, `login_broker` | sessions, connections, take-over, logout, requests with their reference counts, and deferred freeing |
| `send_queue`, `send_runs` | packets in pieces, the I/O vectors, and the queue behind a slow socket |
| `framing` | cutting the byte stream into packets (section 2.2 of MQTT 3.1.1) |
| `sort_spec`, `heapsort`, `rqsort` | the three-way quicksort with its explicit stack, and its fallback |
| `re_syntax`, `re_text`, `re_unique`, `re_reading`, `re_compile` | patterns, their text, what texts mean, and the single-pass compiler |
| `re_machine`, `re_steps`, `re_correct`, `re_greedy`, `re_theorem`, `re_exec` | the backtracking machine, as a step function and as the loop over registers, and its correctness |
| `re_meaning`, `re_search` | the words of a pattern and their order, and compiling and searching in one |
| `char_range` | character sets as tables of ranges |
| `limbs`, `limb_ops`, `limb_mul`, `udiv`, `divnorm` | limb arrays, their exact values, and schoolbook division |
| `recip_math`, `recip` | Newton reciprocal and division by it (algorithm 3.5 of Modern Computer Arithmetic) |
| `sqrt_table`, `sqrt_math`, `sqrt`, `sqrt_rec` | Karatsuba square root |
| `ntt_words`, `ntt_math`, `ntt_stage`, `ntt`, `ntt_fft`, `ntt_roots` | the number-theoretic transform, its tables and its moduli |
| `fast_div`, `dec_shift` | division by fixed numbers and decimal shifts |
| `bits`, `round_spec`, `bf_round` | rounding |

Limbs have 64 bits, and the scalar forms of the code are taken, not those for AVX2. Words wrap where the program's
words wrap: every machine operation that can overflow is written with its remainder modulo 2^64 or 2^128.

How each family fits together:

- QoS 2: `QosProtocol.Apply` is the step of a run, `Inv` its invariant, `ApplyKeeps` one lemma for each event and part.
  The steps use the same specification functions that the methods of `QosSession.PersistentClientState` are proved against.
- Login: `LoginRuns.Apply` is the step, `Good` the invariant; the methods of `LoginBroker.ApplicationState` have exactly
  the effect of a step. What an event does is only defined where the invariant holds, which `RunGood` shows to be always.
  `LoginEffect` says object by object what a login and a logout change.
- Regular expressions: `ReSyntax.Ends` lists the ends of all matches of a pattern in priority order. `ReText.Means` says
  which pattern a text means. The compiler's methods are proved against `ReSyntax.Code`, the machine's registers against
  `ReMachine.Step`, and `ReTheorem` connects `Code`, `Step` and `Ends`. `ReMeaning.Word` is a second meaning, without
  lists, that `Ends` is proved to agree with.
- Limbs: `V(a, lo, n)` is the integer held by n limbs. Division, reciprocal and root are specified by `Divided`, `IsRecip`
  and `IsSqrt`, whose uniqueness or closeness is proved beside them.
- Transform: each pass is proved to be a `Stage`, a stage keeps `Spectral`, and that ends as `Transform`; `NttMath` has
  the algebra, down to the geometric sums.

## What the proofs say about the program

Some properties one would expect do not hold of the code. The model keeps the code as it is, and the exact condition is
proved.

- The loop that resends PUBRELs runs up to `count()` instead of `size()`, so it misses identifiers; since identifier 0 is
  never used, a resumption resends all of them exactly if there are none (`RelsCompleteIff`, `RelsCompleteOnlyWhenNone`,
  `ResumeSkipsIff`). A message is still delivered exactly once, but its identifier may stay unfinished (`StallingRun`,
  `StalledStays`).
- A new message published under an identifier in use is lost in two ways: a packet still stored under it is not replaced,
  and a receiver still holding it takes the new message for a repetition. On a connection it is handed onward exactly if
  nothing is stored under the identifier and the receiver either does not hold it or has its PUBREL coming
  (`ReuseLosesMessage`, `ReuseOffline`). A stalled identifier is the second way: when the counter comes round to it, the
  message is lost (`StalledReuse`). The results about runs assume that no identifier in use is taken up, so a run of
  theirs that stalls publishes nothing any more once the counter stands before the stalled identifier, until a
  resumption happens to reach it (`StalledBlocks`).
- Continuing a packet between the two bytes of its identifier sends a byte from behind the identifier
  (`src/MQTTPublishPacketBuilder.cpp:102` steps a 16-bit pointer): over a run, the bytes are conserved exactly if no
  drain does this while that byte differs (`RunConserves`, `SplitRun`).
- The longest packet accepted is 128^3 - 1 bytes; section 2.2.3 of MQTT 3.1.1 allows a fourth length byte
  (`PacketRoundTrip`).
- The last reference to a deleted session asks for no cleanup. Deleted sessions without references are due to be freed
  throughout a run exactly if no deleted session's last request is executed while no cleanup is due (`SweptIff`,
  `SweptOverRuns`, `LeavingRun`).
- `init_mul_mod_fast` asserts a range whose lower end, 2^61, has an inverse of 65 bits (`InitMulModFast`); remainders
  computed with it are right in some cases only (`SmallestModulus`). No built-in modulus is 2^61.
- The table entry for 10^19 differs from the formula in the comment above the table, whose range it is out of, and
  divides exactly all the same (`LastEntryDiffers`, `LastEntryExact`).
- The compiler refuses bounds in the wrong order before it looks for the closing brace, so `a{2,1` is an error though
  `a{2,3` is a text of characters (`OpenBadCountRefused`, `OpenCountIsCharacters`).

## Model

Paths are relative to the root of the repository.

| member | source | states |
|---|---|---|
| `QosProtocol.DeliveredIsPrefix` | src/ClientThreadManager.cpp:329-462 | At every moment of every run of sender and receiver, with connections lost at any point, what was handed onward is a prefix of what was published: nothing twice, nothing out of order. |
| `QosProtocol.FinishedIsDelivered` | src/ClientThreadManager.cpp:413-462 | In every run, a message whose identifier has left both sender sets was handed onward; one not handed onward is still stored unchanged under its identifier. |
| `QosProtocol.PubRecFindsPacket` | src/ClientThreadManager.cpp:427-433 | In every run a PUBREC finds its packet still stored and already handed onward, so the branch for an unknown identifier is never taken. |
| `QosProtocol.SilenceIsDelivery` | src/ApplicationState.cpp:360-392 | When a connected run has nothing in flight, everything published was handed onward and only PUBRELs that a resumption skipped are unfinished. |
| `QosProtocol.ResumeSkipsIff` | src/ApplicationState.cpp:386-392 | In every run a resumption leaves no PUBREL unsent if and only if no PUBCOMP was awaited: the loop bound `count()` is too small whenever there is something to resend. |
| `QosProtocol.StalledStays` | src/ApplicationState.cpp:386-392 | An identifier that awaits PUBCOMP with nothing in flight stays so under every event, except a resumption that finds more awaited identifiers than its number. |
| `QosProtocol.StallingRun` | src/ApplicationState.cpp:386-392 | A concrete run in which a message was handed onward but its identifier stalls, after a resumption that sends nothing. |
| `QosProtocol.ApplyKeeps` | src/ClientThreadManager.cpp:329-462 | Every event keeps the protocol invariant: disjoint sets, matching packets in flight, stored packets in publication order. |
| `QosProtocol.RunKeeps` | src/ClientThreadManager.cpp:329-462 | The invariant holds in every state of every run from the empty start. |
| `QosProtocol.ReceivedNext` | src/ClientThreadManager.cpp:333-336 | The first undelivered PUBLISH in flight carries exactly the next message in publication order. |
| `QosProtocol.NextInFlight` | src/ApplicationState.cpp:360-385 | On a connection every stored message not yet seen by the receiver is on its way. |
| `QosProtocol.EarlierFirst` | src/ApplicationState.hpp:66-87 | The shared order counter orders stored packets as they were published, whatever their identifiers. |
| `QosProtocol.IdsCycle` | src/ApplicationState.cpp:673-677 | The counter runs through 1 to 65535 and around again, stepping over 0. |
| `QosProtocol.NoEarlyReuse` | src/ApplicationState.cpp:673-677 | Fewer than 65535 messages in a row never share an identifier, and 65535 later it comes back: the bound behind the assumption of the protocol results. |
| `QosReuse.ReuseLosesMessage` | src/ApplicationState.cpp:673-688 | On a connection, in every state of the invariant: a message published under the next identifier, free or not, is handed onward once everything in flight was taken, if and only if no packet is stored under that identifier and the receiver does not hold it or its PUBREL is on the way. |
| `QosReuse.ReuseOffline` | src/ApplicationState.cpp:673-688 | Without a connection: the next resumption gets it handed onward if and only if nothing is stored under the identifier and the receiver does not hold it. |
| `QosReuse.StalledReuse` | src/ApplicationState.cpp:386-392 | A run from the start that reaches such a loss: identifier 2 stalls, 65534 messages later its turn comes again; the new message is not handed onward, and its answer removes it from the store. |
| `QosReuse.StalledBlocks` | src/ApplicationState.cpp:673-677 | Once the counter stands before a stalled identifier, publishing is outside the protocol results, and stays so under every event except a resumption that finds more awaited identifiers than its number. |
| `QosReuse.StoredUnlessInUse` | src/ApplicationState.cpp:680-684 | The packet is stored if and only if its identifier was not in use, or by the same packet. |
| `QosReuse.DrainedIs` | src/ClientThreadManager.cpp:329-462 | Taking everything in flight, event by event, hands onward what the sequence of packets says. |
| `QosReuse.KeptIs` | src/ClientThreadManager.cpp:329-398 | Afterwards the receiver holds an identifier exactly if a message came with it, or if it held it and no PUBREL came. |
| `QosSession.PersistentClientState.Publish` | src/ApplicationState.cpp:663-689 | Stores the packet under the next identifier without overwriting, and sends it exactly when a client is connected. |
| `QosSession.PersistentClientState.HandlePubRec` | src/ClientThreadManager.cpp:421-446 | The stored packet goes, the identifier awaits PUBCOMP, PUBREL is answered; also for an unknown identifier. |
| `QosSession.PersistentClientState.HandlePubComp` | src/ClientThreadManager.cpp:457-461 | The identifier no longer awaits PUBCOMP; nothing else changes. |
| `QosSession.PersistentClientState.HandlePubAck` | src/ClientThreadManager.cpp:358-372 | The stored packet goes. |
| `QosSession.AckedIsForgotten` | src/ClientThreadManager.cpp:358-372 | Afterwards the packet is not stored and no resumption sends it; every other packet still is stored and sent, and nothing else changed. |
| `QosSession.PersistentClientState.HandlePublish` | src/ClientThreadManager.cpp:316-347 | A message is handed onward exactly if its identifier is not already awaiting PUBREL; PUBREC or PUBACK is answered in any case. |
| `QosSession.PersistentClientState.HandlePubRel` | src/ClientThreadManager.cpp:384-410 | The identifier is released if known and PUBCOMP is answered in any case. |
| `QosSession.PersistentClientState.ReplaceCurrentClient` | src/ApplicationState.hpp:115-131 | A clean replacement forgets everything in flight, a simple one nothing. |
| `QosSession.PersistentClientState.OrderedPackets` | src/ApplicationState.cpp:368-378 | All stored packets, each once, with the DUP flag, by their original order. |
| `QosSession.PersistentClientState.Resume` | src/ApplicationState.cpp:368-392 | Sends those packets in that order and then the PUBRELs the loop reaches. |
| `QosSession.InsertPacket` | src/ApplicationState.cpp:374-376 | Inserting a packet at its place keeps the list complete, duplicate-free and ordered. |
| `QosSession.ResumeListUnique` | src/ApplicationState.cpp:374-385 | There is only one such list when order numbers differ. |
| `QosSession.RelsHas` | src/ApplicationState.cpp:386-392 | The loop up to a bound sends exactly the PUBRELs of the awaited identifiers below it, ascending. |
| `QosSession.RelsCompleteIff` | src/ApplicationState.cpp:386-392 | Every awaited identifier gets its PUBREL if and only if all of them are smaller than their number, that is, they are 0, 1, 2, ... without a gap. |
| `QosSession.RelsCompleteOnlyWhenNone` | src/ApplicationState.cpp:386-392 | As identifier 0 is never used, that is so if and only if none is awaited. |
| `QosSession.FirstRelIsSkipped` | src/ApplicationState.cpp:386-392 | The very first identifier of a session, 2, is an example. |
| `LoginRuns.LinksOverRuns` | src/ApplicationState.cpp:304-408 | In every run the link between session and connection is symmetric; only a connection in use and a session in the table have one; a clean session in the table has a connection; each client id finds its own session. |
| `LoginRuns.RefsOverRuns` | src/ApplicationState.cpp:161-226 | In every run a connection counts exactly the requests pending for it, at most one of them a login, and a logged-out connection with none is due for cleanup. |
| `LoginRuns.FreedOverRuns` | src/ApplicationState.cpp:266-303 | In every run, after freeing, every link and every request still names something that exists, and exactly the logged-out unreferenced connections are gone. |
| `LoginRuns.FreedUnnamed` | src/ApplicationState.cpp:285-300 | Nothing that is freed is named by a session, a connection, the table or a request. |
| `LoginSweep.SweptIff` | src/ApplicationState.cpp:198-226 | One event: every deleted session without references stays due for cleanup, if and only if the event is not the execution, from either queue, of the last request for a deleted session while no cleanup is due. |
| `LoginSweep.SweptOverRuns` | src/ApplicationState.cpp:161-303 | Over a run: that holds throughout if and only if no such event happens. |
| `LoginSweep.LastReferenceOfSession` | src/ApplicationState.cpp:209-224 | Such an event leaves the session deleted, unreferenced, and with nothing due to free it. |
| `LoginSweep.LeavingRun` | src/ApplicationState.cpp:161-303 | A run from the empty broker with such an event: a request for the session outlives the session's connection and the cleanup after it. |
| `LoginRuns.ApplyKeeps` | src/ApplicationState.cpp:161-303 | Accepting, asking, executing, expiring and freeing all keep the invariant. |
| `LoginRuns.RunGood` | src/ApplicationState.cpp:161-303 | The invariant holds in every state of every run from the empty broker. |
| `LoginRuns.IncCounted` | src/ApplicationState.cpp:161-170 | Asking for a request adds exactly one reference to what it names. |
| `LoginRuns.ExecutedCounted` | src/ApplicationState.cpp:198-226 | Executing a request takes exactly one reference away, whatever the handler did. |
| `LoginRuns.ExecutedInv` | src/ApplicationState.cpp:198-226 | Executing one of the pending requests keeps the invariant for the others. |
| `LoginRuns.VisitedKeeps` | src/ApplicationState.cpp:304-413 | The login and logout handlers leave reference counts, queues and all other connections alone. |
| `LoginState.LoggedInCore` | src/ApplicationState.cpp:304-408 | A login, with take-over or a new session, keeps table and links right. |
| `LoginState.TakenOverCore` | src/ApplicationState.cpp:351-367 | A take-over of an existing session keeps table and links right. |
| `LoginState.LoggedOutCore` | src/ApplicationState.cpp:465-499 | A logout keeps table and links right. |
| `LoginState.ReplacedCore` | src/ApplicationState.hpp:115-131 | Replacing the connection of a session unlinks the old one on both sides. |
| `LoginEffect.LoginEffect` | src/ApplicationState.cpp:351-407 | A login links its connection with the session its client id finds, or a new one, under that id and with the login's clean flag; the connection that session had is logged out and unlinked; every other connection, session and id stays as it was, and nothing is deleted. |
| `LoginEffect.ExecutedLogin` | src/ApplicationState.cpp:304-408 | The same for the executed request: an empty client id is replaced by the generated one, and one reference is released. |
| `LoginEffect.LoginRefused` | src/ApplicationState.cpp:304-306 | A login of a connection already logged out changes nothing. |
| `LoginEffect.LogoutEffect` | src/ApplicationState.cpp:465-499 | A logout marks its connection and unlinks it; its session is deleted and its id freed if and only if the session is clean, otherwise it stays in the table under its id; everything else stays as it was. |
| `LoginEffect.ConnectedOverRuns` | src/ApplicationState.cpp:354-366 | In every run a connected connection that was not logged out has a session. |
| `LoginEffect.DeletedOverRuns` | src/ApplicationState.cpp:486-496 | In every run only clean sessions are deleted. |
| `LoginEffect.CleanupOverRuns` | src/ApplicationState.cpp:198-226 | In every run a cleanup is due only when some connection was logged out. |
| `LoginEffect.ServedInOrder` | src/ApplicationState.cpp:172-196 | In every run each queue is served in the order it was filled, and holds exactly the requests not served yet. |
| `LoginBroker.ApplicationState.Login` | src/ApplicationState.cpp:304-408 | The handler as in-place updates of the tables has exactly the specified effect. |
| `LoginBroker.ApplicationState.LogoutClient` | src/ApplicationState.cpp:465-499 | The same for logout, including the early return for a session not in the table. |
| `LoginBroker.ApplicationState.ReplaceCurrentClient` | src/ApplicationState.hpp:115-131 | The same for replacing a session's connection. |
| `LoginBroker.ApplicationState.DropCurrentClient` | src/ApplicationState.hpp:132-136 | The same for unlinking. |
| `LoginBroker.ApplicationState.ExecuteChangeRequest` | src/ApplicationState.cpp:198-226 | Visits the request, then releases its reference. |
| `LoginBroker.ApplicationState.RequestChange` | src/ApplicationState.cpp:161-196 | Takes the reference, then executes or queues: one event of a run, which keeps the invariant. |
| `LoginBroker.ApplicationState.TakeReference` | src/ApplicationState.cpp:161-170 | One more reference on what the request names. |
| `LoginBroker.ApplicationState.ReleaseReference` | src/ApplicationState.cpp:198-226 | One reference fewer; only the last one of a logged-out connection asks for a cleanup. |
| `LoginBroker.ApplicationState.HandleNewClientConnection` | src/ApplicationState.cpp:541-548 | A new connection joins the list with nothing pending and no session. |
| `LoginBroker.ApplicationState.ExecuteNext` | src/ApplicationState.cpp:198-226 | One queued request is executed: one event of a run. |
| `LoginBroker.ApplicationState.Cleanup` | src/ApplicationState.cpp:266-303 | Logs out the silent connections one by one, then, if a cleanup is due, frees; a connection goes exactly if it is logged out and unreferenced. |
| `LoginBroker.ApplicationState.LogoutAll` | src/ApplicationState.cpp:266-276 | The silent connections, and no others, end up logged out; reference counts and queues stay. |
| `LoginBroker.ApplicationState.EraseClients` | src/ApplicationState.cpp:286-292 | Exactly the logged-out unreferenced connections go. |
| `LoginBroker.ApplicationState.EraseSessions` | src/ApplicationState.cpp:293-299 | Exactly the deleted unreferenced sessions go. |
| `SendRuns.RunConserves` | src/TcpClientConnection.cpp:71-113 | Over every run of sends and drains with arbitrary partial results, the packets being told from the events: the socket got as many bytes as it said, what is unsent lies behind as many bytes of all packets given and not refused, and sent and unsent bytes are all of them in order if and only if no drain takes bytes from between the two bytes of an identifier with a different byte in memory behind it. |
| `SendRuns.NothingMissing` | src/MQTTClientConnection.cpp:17-41 | Over a run in which the socket never failed for a packet given to an empty queue and no identifier was corrupted, sent and unsent bytes are all packets given, in order; with an empty queue everything given was sent. |
| `SendRuns.HandedOverRuns` | src/MQTTClientConnection.cpp:29-40 | A packet is missing from what was accepted if and only if it was given to an empty queue and the socket failed; such a send, and only such a send, marks the connection. |
| `SendRuns.TookOverRuns` | src/TcpClientConnection.cpp:90-111 | The bytes on the wire are as many as the socket said it took, in the calls that are made. |
| `SendRuns.RunPlaces` | src/TcpClientConnection.cpp:71-113 | The invariant behind it, in every state of every run. |
| `SendRuns.SplitRun` | src/MQTTPublishPacketBuilder.cpp:100-102 | A run of two calls that sends a wrong byte: the identifier 0, 2 goes out as 0, 9. |
| `SendRuns.StepIff` | src/MQTTPublishPacketBuilder.cpp:100-102 | One send or drain, also of a queue that was corrupted before. |
| `SendRuns.DrainConserves` | src/MQTTPublishPacketBuilder.cpp:100-102 | One drain keeps that if and only if it does not continue a packet between its two identifier bytes with a different byte in memory behind the identifier. |
| `SendRuns.OneCall` | src/MQTTPublishPacketBuilder.cpp:46-116 | The same for one call of sendScatter, on any queue. |
| `SendRuns.SendConserves` | src/MQTTClientConnection.cpp:17-41 | A send adds the packet's bytes, all of them and in order, behind those sent and unsent, unless nothing is queued and the socket fails: then it adds none and marks the connection. |
| `SendRuns.NothingLeft` | src/MQTTClientConnection.cpp:17-34 | With an empty queue the wire holds exactly the packets handed over. |
| `SendRuns.MQTTClientConnection.SendData` | src/MQTTClientConnection.cpp:17-41 | The same for the method, which has the effect the run model gives it. |
| `SendRuns.MQTTClientConnection.Drain` | src/ClientThreadManager.cpp:86-101 | The same for the writable event. |
| `SendRuns.SendScatter` | src/TcpClientConnection.cpp:71-113 | Takes a prefix of what the vectors of the first batch hold and moves the offsets by exactly its length; nothing changes on failure or when it would block. |
| `SendRuns.Spread` | src/TcpClientConnection.cpp:100-111 | Spreads the count over the packets: full ones first, at most one part. |
| `SendRuns.BatchFits` | src/TcpClientConnection.cpp:73-79 | One call offers as many packets as have room in 1024 vectors, four for each. |
| `SendRuns.GatherVectors` | src/TcpClientConnection.cpp:77-84 | The vectors together hold what the packets offer, in order. |
| `SendRuns.DropDone` | src/ClientThreadManager.cpp:93-101 | Drops exactly the finished packets at the front. |
| `SendQueue.ConstructIOVecs` | src/MQTTPublishPacketBuilder.cpp:46-116 | The entries hold what is left of the packet from the offset on, but for a split identifier, where the entry starts two bytes further on. |
| `SendQueue.OfferedIs` | src/MQTTPublishPacketBuilder.cpp:100-104 | What is offered differs from what is left only in its first byte, and only for a split identifier. |
| `SendQueue.AdvancedUnsent` | src/TcpClientConnection.cpp:100-110 | Moving the offsets by n drops exactly the first n unsent bytes. |
| `SendQueue.PendingQueue` | src/ClientThreadManager.cpp:93-101 | After a call and dropping the finished packets, only the head may be partly sent. |
| `SendQueue.PiecesAre` | src/MQTTPublishPacketBuilder.cpp:46-116 | The pieces of all four packet shapes, joined, are the bytes left. |
| `SendQueue.FullSize` | src/MQTTPublishPacketBuilder.hpp:11-95 | The size is the number of bytes of the packet, for all four shapes. |
| `Framing.AnyChunks` | src/ClientThreadManager.cpp:125-179 | However the stream of some encoded packets of known types and lengths below 128^3 is cut into chunks, exactly these packets are handled, in order. |
| `Framing.ChunksDoNotMatter` | src/ClientThreadManager.cpp:125-179 | For every byte stream, valid or not, the packets handled do not depend on the chunks. |
| `Framing.StreamRoundTrip` | src/ClientThreadManager.cpp:125-179 | A concatenation of encoded packets is cut into exactly these packets. |
| `Framing.PacketRoundTrip` | src/ClientThreadManager.cpp:125-179 | An encoded packet is handled if its type is known and its length below 128^3, and refused with nothing handled otherwise: the limit is lower than that of section 2.2.3 of MQTT 3.1.1. |
| `Framing.FirstByte` | src/ClientThreadManager.cpp:127-138 | A first byte is refused if and only if its type is 0 or unknown, and it handles nothing. |
| `Framing.LengthRead` | src/ClientThreadManager.cpp:139-157 | A length field is read as its value below the limit and refused from the limit on. |
| `Framing.FeedCat` | src/ClientThreadManager.cpp:125-179 | Feeding two pieces is feeding their concatenation. |
| `Framing.FeedData` | src/ClientThreadManager.cpp:158-177 | Body bytes taken in bulk have the same effect as one at a time. |
| `Framing.FeedValid` | src/ClientThreadManager.cpp:125-179 | A packet in progress never holds more bytes than its length. |
| `Framing.MQTTClientConnection.HandleChunk` | src/ClientThreadManager.cpp:125-179 | The loop over one chunk, with its bulk copies, has the effect of feeding the bytes one by one. |
| `Framing.MQTTClientConnection.HandleData` | src/ClientThreadManager.cpp:158-177 | Takes as many bytes as the packet still lacks, no more, and hands it over when complete. |
| `Framing.MQTTClientConnection.HandleLength` | src/ClientThreadManager.cpp:139-157 | One byte of the length field. |
| `Framing.MQTTClientConnection.HandleFirst` | src/ClientThreadManager.cpp:127-138 | The first byte; an unknown type is a violation. |
| `Rqsort.Rqsort` | thirdparty/quickjs-2021-03-27/cutils.c:512-629 | For every total preorder and every array segment the result is sorted and a permutation; the stack of 50 entries never overflows and the loop ends. |
| `Rqsort.Split` | thirdparty/quickjs-2021-03-27/cutils.c:535-622 | Partitions until the segment is short: what is stacked and in hand is all that is left to do, at depths that bound the stack, and the total left never grows. |
| `Rqsort.Partition` | thirdparty/quickjs-2021-03-27/cutils.c:542-605 | Smaller, equal and greater elements separated, equals in the middle, nothing lost. |
| `Rqsort.PartitionScan` | thirdparty/quickjs-2021-03-27/cutils.c:547-573 | The scan with equals collected at both ends. |
| `Rqsort.Gather` | thirdparty/quickjs-2021-03-27/cutils.c:580-599 | The two block exchanges move the equals to the middle, whichever zone is shorter. |
| `Rqsort.ZonesSwapped` | thirdparty/quickjs-2021-03-27/cutils.c:580-599 | Exchanging the shorter of two neighbouring zones with the far end of the other exchanges the zones. |
| `Rqsort.SegmentSplit` | thirdparty/quickjs-2021-03-27/cutils.c:606-621 | Sorting both outer parts sorts the segment: order across segments is settled once for all. |
| `Rqsort.ShallowSnoc` | thirdparty/quickjs-2021-03-27/cutils.c:606-621 | An entry of depth d is at index at most d - 1, so 50 entries suffice. |
| `Rqsort.InsertionSort` | thirdparty/quickjs-2021-03-27/cutils.c:623-627 | Short segments are sorted in place and only rearranged. |
| `Rqsort.NothingPending` | thirdparty/quickjs-2021-03-27/cutils.c:529-628 | With nothing pending the whole range is sorted. |
| `Rqsort.Med3` | thirdparty/quickjs-2021-03-27/cutils.c:504-509 | A median: at least two of the three are not greater and at least two not smaller. |
| `Heapsort.Heapsortx` | thirdparty/quickjs-2021-03-27/cutils.c:470-502 | The fallback sorts in place and only rearranges. |
| `Heapsort.SiftDown` | thirdparty/quickjs-2021-03-27/cutils.c:482-488 | Sinking an element restores the heap from it on. |
| `Heapsort.BuildHeap` | thirdparty/quickjs-2021-03-27/cutils.c:477-489 | The first half of the sort makes a heap of the whole segment. |
| `Heapsort.HeapMax` | thirdparty/quickjs-2021-03-27/cutils.c:490-491 | The first of a heap is its largest. |
| `Heapsort.TailGrows` | thirdparty/quickjs-2021-03-27/cutils.c:490-500 | Moving the first to the end grows the sorted tail. |
| `ReCompile.LreCompile` | thirdparty/quickjs-2021-03-27/libregexp.c:1821-1909 | Compiling succeeds if and only if the text means a pattern (of the modelled syntax); that pattern is the only one it can mean, and the code is its program. |
| `ReCompile.ReParseState.ReParseDisjunction` | thirdparty/quickjs-2021-03-27/libregexp.c:1738-1771 | Emits the code of the one pattern the text up to a closing parenthesis or the end can mean, inserting the split before code already emitted; fails if there is none. |
| `ReCompile.ReParseState.ReParseAlternative` | thirdparty/quickjs-2021-03-27/libregexp.c:1704-1736 | The same for a sequence of terms. |
| `ReCompile.ReParseState.ReParseTerm` | thirdparty/quickjs-2021-03-27/libregexp.c:1215-1702 | The same for an atom with or without quantifier. |
| `ReCompile.ReParseState.ReParseAtom` | thirdparty/quickjs-2021-03-27/libregexp.c:1235-1499 | The same for a character, a dot or a group; a brace is a character unless a repetition count starts there. |
| `ReCompile.ReParseState.ReParseGroup` | thirdparty/quickjs-2021-03-27/libregexp.c:1273-1283 | The same for a non-capturing group. |
| `ReCompile.ReParseState.ParseQuantifier` | thirdparty/quickjs-2021-03-27/libregexp.c:1502-1562 | The quantifier at a position, if there is one; bounds in the wrong order are the only error. |
| `ReCompile.ReParseState.ParseBraces` | thirdparty/quickjs-2021-03-27/libregexp.c:1521-1553 | Finds a repetition count exactly if there is one, and fails exactly if two bounds in the wrong order follow, closed or not. |
| `ReCompile.ReParseState.BraceIsOrdinary` | thirdparty/quickjs-2021-03-27/libregexp.c:1245-1265 | A brace is an ordinary character exactly if no repetition count starts there. |
| `ReCompile.ReParseState.ParseDigits` | thirdparty/quickjs-2021-03-27/libregexp.c:446-469 | All digits are read and their value, clamped, is returned. |
| `ReCompile.ReParseState.ReEmitQuantifier` | thirdparty/quickjs-2021-03-27/libregexp.c:1563-1691 | Turns the atom already emitted into the quantified atom, in each of its forms, by insertion before it. |
| `ReCompile.ReParseState.EmitGreedy` | thirdparty/quickjs-2021-03-27/libregexp.c:1566-1589 | The optimised form, inserted around the atom. |
| `ReCompile.ReParseState.EmitStar` | thirdparty/quickjs-2021-03-27/libregexp.c:1621-1637 | The unbounded loop around the atom. |
| `ReCompile.ReParseState.EmitCounted` | thirdparty/quickjs-2021-03-27/libregexp.c:1639-1648 | The counted loop around the atom. |
| `ReCompile.ReParseState.EmitRepeat` | thirdparty/quickjs-2021-03-27/libregexp.c:1658-1665 | The counted loop of required repetitions, and where the atom now starts. |
| `ReCompile.ReParseState.EmitTail` | thirdparty/quickjs-2021-03-27/libregexp.c:1667-1688 | The optional repetitions around a copy of the atom. |
| `ReCompile.ReParseState.InsertJump` | thirdparty/quickjs-2021-03-27/libregexp.c:1753-1758 | A jump inserted before code already emitted. |
| `ReCompile.ReParseState.ReEmitGoto` | thirdparty/quickjs-2021-03-27/libregexp.c:409-417 | A jump to an absolute offset, as a distance from behind it. |
| `ReCompile.ReParseState.EmitRequired` | thirdparty/quickjs-2021-03-27/libregexp.c:1655-1688 | Required repetitions, then the optional ones around a copy of the atom. |
| `ReCompile.ReParseState.DbufInsert` | thirdparty/quickjs-2021-03-27/libregexp.c:114-122 | Shifts what lies behind and leaves a gap. |
| `ReCompile.ReParseState.PatchGoto` | thirdparty/quickjs-2021-03-27/libregexp.c:1765-1767 | Fills in the jump over the second alternative. |
| `ReText.MeansOwnText` | thirdparty/quickjs-2021-03-27/libregexp.c:1215-1771 | A pattern without braces in its text is what its text means, so it is compiled to its own program. |
| `ReReading.NumberOfDecimal` | thirdparty/quickjs-2021-03-27/libregexp.c:446-469 | Reading the decimal digits of n gives n, or 2^31 - 1 if n is not below it. |
| `ReReading.LeadingZero` | thirdparty/quickjs-2021-03-27/libregexp.c:446-469 | Zeros in front do not change a count. |
| `ReReading.ShortQuantifiers` | thirdparty/quickjs-2021-03-27/libregexp.c:1506-1520 | A character with a star, plus or question mark, lazy or not, means that character with these bounds. |
| `ReReading.Exactly` | thirdparty/quickjs-2021-03-27/libregexp.c:1521-1553 | A character with a decimal number in braces means exactly that many. |
| `ReReading.AtLeast` | thirdparty/quickjs-2021-03-27/libregexp.c:1521-1553 | With a comma behind the number it means at least that many. |
| `ReReading.Between` | thirdparty/quickjs-2021-03-27/libregexp.c:1521-1553 | With two numbers it means the range between them if they are in order, and nothing otherwise. |
| `ReReading.OneByte` | thirdparty/quickjs-2021-03-27/libregexp.c:1224-1499 | What each text of one byte means, or that it means nothing covered here. |
| `ReReading.OtherTexts` | thirdparty/quickjs-2021-03-27/libregexp.c:1235-1283 | What two characters, two alternatives and a group mean. |
| `ReUnique.OneMeaning` | thirdparty/quickjs-2021-03-27/libregexp.c:1215-1771 | A text means at most one pattern. |
| `ReText.BracesUnique` | thirdparty/quickjs-2021-03-27/libregexp.c:1521-1553 | At most one repetition count starts at a position. |
| `ReText.QuantUnique` | thirdparty/quickjs-2021-03-27/libregexp.c:1502-1562 | At most one quantifier is meant at a position. |
| `ReText.NoBadCountBehindFirst` | thirdparty/quickjs-2021-03-27/libregexp.c:1534-1541 | A text that means something has no bounds in the wrong order behind its first character, closed or not. |
| `ReText.OpenBadCountRefused` | thirdparty/quickjs-2021-03-27/libregexp.c:1534-1549 | The text `a{2,1` means no pattern. |
| `ReText.OpenCountIsCharacters` | thirdparty/quickjs-2021-03-27/libregexp.c:1546-1549 | The text `a{2,3` means its five characters. |
| `ReText.OneMoreTerm` | thirdparty/quickjs-2021-03-27/libregexp.c:1704-1736 | If the only term meant next is found, what was read still begins every alternative the text can mean. |
| `ReText.OneMoreAlternative` | thirdparty/quickjs-2021-03-27/libregexp.c:1738-1771 | The same for the next alternative. |
| `ReTheorem.ProgramCorrect` | thirdparty/quickjs-2021-03-27/libregexp.c:2089-2494 | For patterns whose quantified atoms always consume, the compiled program halts with the first match by position, then by priority, and its capture 0, or with failure if there is none. |
| `ReMeaning.EndsAreWords` | thirdparty/quickjs-2021-03-27/libregexp.c:2089-2494 | The matches of a pattern from a position are exactly its words there, where words are told without order or lists: sequences split, alternatives choose, and quantifiers repeat as often as their bounds allow. |
| `ReMeaning.QuantOrder` | thirdparty/quickjs-2021-03-27/libregexp.c:1600-1691 | Over an atom of fixed width a greedy quantifier tries the longest match first and goes down strictly, a lazy one goes up. |
| `ReMeaning.CharacterRun` | thirdparty/quickjs-2021-03-27/libregexp.c:1502-1691 | A quantified character matches as many of it as stand there within the bounds, the most first if greedy, the fewest if lazy. |
| `ReMeaning.AltFirst` | thirdparty/quickjs-2021-03-27/libregexp.c:1738-1771 | The matches of the first alternative come first, those of the second count when there are none. |
| `ReMeaning.CatFirst` | thirdparty/quickjs-2021-03-27/libregexp.c:1704-1736 | The first match of a sequence goes through the first match of its first part behind which the second matches. |
| `ReMeaning.DotEnds` | thirdparty/quickjs-2021-03-27/libregexp.c:2245-2255 | A dot matches one byte other than 10 and 13, or any byte with the dotAll flag. |
| `ReSearch.Search` | thirdparty/quickjs-2021-03-27/libregexp.c:1821-1909 | Compiling a text and running the program: the search succeeds if and only if a word of the one pattern the text means starts where it may look, and then reports a word at the first such position, the preferred one there. |
| `ReSearch.SearchDot` | thirdparty/quickjs-2021-03-27/libregexp.c:2245-2255 | The text of a dot, searched on one byte, matches if and only if the flag is set or the byte is neither 10 nor 13. |
| `ReSearch.SearchCount` | thirdparty/quickjs-2021-03-27/libregexp.c:1521-1553 | A character counted n in decimal, searched on m of them, matches if and only if m is at least n, and takes n. |
| `ReTheorem.CodeGives` | thirdparty/quickjs-2021-03-27/libregexp.c:2089-2494 | Running the code of a pattern arrives behind it at each of its ends, in priority order, whatever surrounds it, and then fails back. |
| `ReTheorem.QuantGives` | thirdparty/quickjs-2021-03-27/libregexp.c:1563-1691 | The same for every form the compiler gives a quantifier. |
| `ReTheorem.AltGives` | thirdparty/quickjs-2021-03-27/libregexp.c:1738-1771 | The same for an alternation with its two jumps. |
| `ReTheorem.BackFromOne` | thirdparty/quickjs-2021-03-27/libregexp.c:1650-1653 | The one-or-more form with a single backward split gives the same ends. |
| `ReTheorem.TailGives` | thirdparty/quickjs-2021-03-27/libregexp.c:1667-1688 | The optional repetitions behind required ones. |
| `ReTheorem.AttemptReaches` | thirdparty/quickjs-2021-03-27/libregexp.c:1860-1873 | One attempt at a position: match with capture 0 set, or failure into the states before it. |
| `ReTheorem.SearchStep` | thirdparty/quickjs-2021-03-27/libregexp.c:1851-1859 | The search loop moves one character on when an attempt fails. |
| `ReTheorem.FirstMatch` | thirdparty/quickjs-2021-03-27/libregexp.c:2499-2535 | The first position with a match, every earlier one having none; a sticky search only looks at its start. |
| `ReCorrect.StarGives` | thirdparty/quickjs-2021-03-27/libregexp.c:1621-1637 | The loop yields any number of repetitions in the order the quantifier prefers, with or without the advance check. |
| `ReCorrect.BackGives` | thirdparty/quickjs-2021-03-27/libregexp.c:1650-1653 | The split behind the body that jumps back to it. |
| `ReCorrect.CountedGives` | thirdparty/quickjs-2021-03-27/libregexp.c:1639-1648 | The loop with its counter on the stack yields up to that many repetitions. |
| `ReCorrect.RepeatGives` | thirdparty/quickjs-2021-03-27/libregexp.c:1658-1665 | The counted loop of required repetitions yields exactly that many. |
| `ReCorrect.EndsWithin` | thirdparty/quickjs-2021-03-27/libregexp.c:950-1033 | Every end lies in the subject, at least the minimal length on. |
| `ReGreedy.GreedyGives` | thirdparty/quickjs-2021-03-27/libregexp.c:2450-2489 | The optimised opcode tries the continuation after q, q - 1, ..., min repetitions and then fails: the same ends in the same order, with the same stack and captures, as the plain loop. |
| `ReGreedy.GreedyStep` | thirdparty/quickjs-2021-03-27/libregexp.c:2450-2489 | What the opcode does at once: fail with too few repetitions, else go on, with one entry for the others. |
| `ReGreedy.GreedyBack` | thirdparty/quickjs-2021-03-27/libregexp.c:2137-2158 | Failing into that entry gives back one repetition at a time down to the minimum. |
| `ReGreedy.GreedyRunCounts` | thirdparty/quickjs-2021-03-27/libregexp.c:2464-2476 | The nested runs count the repetitions that match, up to the maximum. |
| `ReGreedy.GreedyEnds` | thirdparty/quickjs-2021-03-27/libregexp.c:1566-1589 | The meaning of a greedy quantifier over a fixed-width atom is that descending list. |
| `ReGreedy.ScanCode` | thirdparty/quickjs-2021-03-27/libregexp.c:1034-1071 | The scan of the emitted code finds exactly the patterns that are straight-line, and their width. |
| `ReGreedy.SimpleRunCode` | thirdparty/quickjs-2021-03-27/libregexp.c:2089-2494 | The nested run through straight-line code matches like the pattern. |
| `ReGreedy.SimpleEnds` | thirdparty/quickjs-2021-03-27/libregexp.c:1034-1071 | Such a pattern has at most one end, its width on. |
| `ReMachine.GivesBind` | thirdparty/quickjs-2021-03-27/libregexp.c:2089-2494 | Sequencing: the ends of what follows, for each end of what comes first, in order. |
| `ReMachine.YieldsAppend` | thirdparty/quickjs-2021-03-27/libregexp.c:2117-2173 | Failing into one backtrack point after another yields their lists one after another. |
| `ReSteps.SplitGives` | thirdparty/quickjs-2021-03-27/libregexp.c:2192-2210 | A split yields first one side, then the other. |
| `ReExec.LreExec` | thirdparty/quickjs-2021-03-27/libregexp.c:2499-2535 | On a compiled program the matcher reports a match exactly if there is one, from the first matching position to the preferred end. |
| `ReExec.ExecContext.LreExecBacktrack` | thirdparty/quickjs-2021-03-27/libregexp.c:2089-2494 | The loop over mutable registers ends as the run of the step function does, with its captures. |
| `ReExec.ExecContext.ExecOp` | thirdparty/quickjs-2021-03-27/libregexp.c:2102-2493 | One opcode changes the registers as one step. |
| `ReExec.ExecContext.PopState` | thirdparty/quickjs-2021-03-27/libregexp.c:2113-2173 | Failure takes up the newest backtrack point, or a greedy one once more. |
| `ReExec.ExecContext.ExecGreedy` | thirdparty/quickjs-2021-03-27/libregexp.c:2450-2489 | The greedy opcode as a loop. |
| `ReExec.ExecContext.ExecJump` | thirdparty/quickjs-2021-03-27/libregexp.c:2192-2226 | The opcodes with a jump or a constant. |
| `ReExec.ExecContext.ExecSimple` | thirdparty/quickjs-2021-03-27/libregexp.c:2089-2494 | The nested run as a loop. |
| `ReExec.ExecContext.PushState` | thirdparty/quickjs-2021-03-27/libregexp.c:2050-2087 | Saves position, stack and captures. |
| `CharRanges.MatchSet` | thirdparty/quickjs-2021-03-27/libregexp.c:2367-2443 | The code emitted for a set of ranges, run on a character, matches exactly the members; the search never leaves the table. |
| `CharRanges.MatchRange` | thirdparty/quickjs-2021-03-27/libregexp.c:2367-2405 | The binary search over 16-bit ranges, 0xffff standing for a range without end. |
| `CharRanges.MatchRange32` | thirdparty/quickjs-2021-03-27/libregexp.c:2406-2443 | The binary search over 32-bit ranges. |
| `CharRanges.ReEmitRange` | thirdparty/quickjs-2021-03-27/libregexp.c:821-857 | Emits the table in the narrower form that fits; fails exactly for 65535 ranges or more. |
| `CharRanges.EmitTable16` | thirdparty/quickjs-2021-03-27/libregexp.c:841-847 | The loop over the ranges, 16-bit form. |
| `CharRanges.EmitTable32` | thirdparty/quickjs-2021-03-27/libregexp.c:850-853 | The loop over the ranges, 32-bit form. |
| `CharRanges.LastHolds` | thirdparty/quickjs-2021-03-27/libregexp.c:2384-2390 | A written end 0xffff means a range without end, and then every character from 0xffff on is a member. |
| `CharRanges.TableRead` | thirdparty/quickjs-2021-03-27/libregexp.c:837-854 | What the matcher reads at index i are the ends of range i. |
| `CharRanges.NarrowAll` | thirdparty/quickjs-2021-03-27/libregexp.c:834-837 | The 16-bit form is only chosen when everything it writes fits. |
| `LimbOps.MpAdd` | thirdparty/quickjs-2021-03-27/libbf.c:1024-1040 | Sum of two numbers and a carry, as integers, with carry out; in place or not. |
| `LimbOps.MpSub` | thirdparty/quickjs-2021-03-27/libbf.c:1058-1075 | Difference with borrow out. |
| `LimbOps.MpNeg` | thirdparty/quickjs-2021-03-27/libbf.c:1077-1092 | Negative with borrow out. |
| `LimbOps.MpAddUi` | thirdparty/quickjs-2021-03-27/libbf.c:1042-1056 | One limb added; the early stop loses nothing. |
| `LimbOps.MpSubUi` | thirdparty/quickjs-2021-03-27/libbf.c:1094-1111 | One limb subtracted. |
| `LimbOps.MpMul1` | thirdparty/quickjs-2021-03-27/libbf.c:1130-1143 | Product with one limb plus a limb. |
| `LimbOps.MpAddMul1` | thirdparty/quickjs-2021-03-27/libbf.c:1145-1159 | Multiply and add. |
| `LimbOps.MpSubMul1` | thirdparty/quickjs-2021-03-27/libbf.c:1198-1212 | Multiply and subtract, the wrapped double word giving the borrow limb. |
| `LimbOps.SubMulWord` | thirdparty/quickjs-2021-03-27/libbf.c:1204-1209 | The negated high half of the wrapped difference is what to borrow. |
| `LimbMul.MpMul` | thirdparty/quickjs-2021-03-27/libbf.c:1161-1174 | Schoolbook product. |
| `LimbMul.MpShr` | thirdparty/quickjs-2021-03-27/libbf.c:1113-1127 | Right shift with the bits shifted in and the remainder out. |
| `LimbMul.MpCmp` | thirdparty/quickjs-2021-03-27/libbf.c:1415-1430 | Compares two numbers by their first difference. |
| `LimbMul.MpScanNz` | thirdparty/quickjs-2021-03-27/libbf.c:362-371 | Zero test. |
| `Limbs.ValInjective` | thirdparty/quickjs-2021-03-27/libbf.c:1024-1040 | A run of limbs is determined by its value: the integer contracts leave no freedom. |
| `Udiv.Udiv1norm` | thirdparty/quickjs-2021-03-27/libbf.c:1224-1242 | For every normalised divisor and smaller high limb, exactly quotient and remainder, despite wrap-around. |
| `Udiv.Udiv1normInit` | thirdparty/quickjs-2021-03-27/libbf.c:1214-1222 | The inverse that makes it so. |
| `Udiv.EstimateBounds` | thirdparty/quickjs-2021-03-27/libbf.c:1229-1232 | The estimate is the quotient or one less. |
| `Udiv.DoubleFits` | thirdparty/quickjs-2021-03-27/libbf.c:1235-1239 | The wrapped 128-bit difference shows its sign in the high limb. |
| `Udiv.MpDiv1norm` | thirdparty/quickjs-2021-03-27/libbf.c:1245-1265 | Division by one limb; the loop with the inverse and the plain loop meet the same contract. |
| `Divnorm.MpDivnormSchool` | thirdparty/quickjs-2021-03-27/libbf.c:1291-1343 | Schoolbook division: quotient and remainder, leading quotient limb at most 1. |
| `Divnorm.DivDigit` | thirdparty/quickjs-2021-03-27/libbf.c:1310-1342 | One digit; the add-back runs at most twice. |
| `Divnorm.FirstDigit` | thirdparty/quickjs-2021-03-27/libbf.c:1296-1308 | The leading digit is found by comparing, and taken off. |
| `Divnorm.AddBack` | thirdparty/quickjs-2021-03-27/libbf.c:1328-1340 | Adds the divisor back until the window is no longer negative, at most twice. |
| `Divnorm.EstimateIsClose` | thirdparty/quickjs-2021-03-27/libbf.c:1311-1320 | The digit estimated from the leading limbs is never too small and at most 2 too large. |
| `Divnorm.DividedIsUnique` | thirdparty/quickjs-2021-03-27/libbf.c:1275-1344 | What the division promises holds of exactly one pair: floor quotient and remainder. |
| `Divnorm.QuotientTop` | thirdparty/quickjs-2021-03-27/libbf.c:1275-1344 | The leading quotient limb is 0 or 1. |
| `Recip.MpRecip` | thirdparty/quickjs-2021-03-27/libbf.c:1346-1412 | For every normalised number of n limbs: r of n + 1 limbs, leading limb 1, with a*r below B^(2n) below a*(r+2). |
| `Recip.MpRecipBase` | thirdparty/quickjs-2021-03-27/libbf.c:1356-1373 | One or two limbs, by division. |
| `Recip.NewtonIteration` | thirdparty/quickjs-2021-03-27/libbf.c:1375-1403 | From the reciprocal of the high half to that of the whole. |
| `Recip.CorrectEstimate` | thirdparty/quickjs-2021-03-27/libbf.c:1389-1393 | The decrement loop ends with the product below B^(n+h). |
| `Recip.Complement` | thirdparty/quickjs-2021-03-27/libbf.c:1394-1396 | The product is replaced by what it lacks to B^(n+h). |
| `Recip.Assemble` | thirdparty/quickjs-2021-03-27/libbf.c:1400-1403 | The last addition loses no carry. |
| `Recip.MpDivnorm` | thirdparty/quickjs-2021-03-27/libbf.c:1275-1344 | Quotient and remainder, by whichever of the two paths. |
| `Recip.MpDivnormLarge` | thirdparty/quickjs-2021-03-27/libbf.c:1433-1522 | Division by a reciprocal: exact after the corrections. |
| `Recip.LargeEstimate` | thirdparty/quickjs-2021-03-27/libbf.c:1473-1478 | The estimated quotient is never above the true one, and less than 5 below. |
| `Recip.SubtractProduct` | thirdparty/quickjs-2021-03-27/libbf.c:1487-1494 | The remainder fits nb + 1 limbs, so the truncated subtraction loses nothing. |
| `Recip.CorrectQuotient` | thirdparty/quickjs-2021-03-27/libbf.c:1496-1510 | Raises the quotient until the remainder is below the divisor. |
| `Recip.DivisorReciprocal` | thirdparty/quickjs-2021-03-27/libbf.c:1453-1472 | The reciprocal of the divisor, padded or truncated and rounded up. |
| `RecipMath.NewtonStep` | thirdparty/quickjs-2021-03-27/libbf.c:1384-1403 | One Newton step keeps the error bound. |
| `RecipMath.RecipIsClose` | thirdparty/quickjs-2021-03-27/libbf.c:1346-1350 | The bound means: the largest such r, or one less. |
| `RecipMath.RecipRange` | thirdparty/quickjs-2021-03-27/libbf.c:1346-1350 | A reciprocal of a normalised number has leading limb 1. |
| `RecipMath.EstimateNotAbove` | thirdparty/quickjs-2021-03-27/libbf.c:1473-1478 | Never above, on plain integers. |
| `RecipMath.EstimateNotFarBelow` | thirdparty/quickjs-2021-03-27/libbf.c:1473-1478 | Less than 5 below, on plain integers. |
| `SqrtRec.MpSqrtrem` | thirdparty/quickjs-2021-03-27/libbf.c:2050-2068 | For every n and every number with one of its two leading bits set: the floor of the square root, and the remainder in n + 1 limbs. |
| `SqrtRec.MpSqrtremRec` | thirdparty/quickjs-2021-03-27/libbf.c:1976-2042 | The recursion, including a quotient of exactly B^l and a root that wraps. |
| `SqrtRec.MpSqrtrem2` | thirdparty/quickjs-2021-03-27/libbf.c:1944-1970 | Two limbs. |
| `SqrtRec.DivideByTwiceRoot` | thirdparty/quickjs-2021-03-27/libbf.c:1998-2014 | Dividing by the root and halving is dividing by twice the root. |
| `SqrtRec.ReduceRemainder` | thirdparty/quickjs-2021-03-27/libbf.c:1998-2001 | When the remainder has its extra bit, one root is taken off it. |
| `SqrtRec.HalfOf` | thirdparty/quickjs-2021-03-27/libbf.c:2006-2010 | The quotient is copied and halved. |
| `SqrtRec.AddRootIf` | thirdparty/quickjs-2021-03-27/libbf.c:2011-2014 | The root is added to the remainder of an odd quotient. |
| `SqrtRec.RaiseRoot` | thirdparty/quickjs-2021-03-27/libbf.c:2020-2020 | The carry of the quotient goes to the root, which may wrap to 0. |
| `SqrtRec.ExtendRoot` | thirdparty/quickjs-2021-03-27/libbf.c:1998-2042 | From the root of the leading limbs to that of all. |
| `SqrtRec.SubtractSquare` | thirdparty/quickjs-2021-03-27/libbf.c:2025-2034 | The square is taken off, the high limb wrapping when the result is negative. |
| `SqrtRec.LowerRoot` | thirdparty/quickjs-2021-03-27/libbf.c:2035-2039 | One correction makes a negative remainder right. |
| `SqrtRec.FinishRoot` | thirdparty/quickjs-2021-03-27/libbf.c:2020-2041 | The steps after the division give root and remainder of the whole. |
| `Sqrt.MpSqrtrem1` | thirdparty/quickjs-2021-03-27/libbf.c:1885-1928 | One limb, from the table by two doublings. |
| `Sqrt.SqrtByTable` | thirdparty/quickjs-2021-03-27/libbf.c:1891-1897 | The table entry, corrected at most once, is the root of the leading 16 bits. |
| `Sqrt.SqrtDouble` | thirdparty/quickjs-2021-03-27/libbf.c:1899-1924 | One doubling in wrapped words. |
| `Sqrt.SqrtTwoLimbs` | thirdparty/quickjs-2021-03-27/libbf.c:1950-1969 | Two limbs, in double words, including a quotient of 2^32. |
| `SqrtTable.EntryCovers` | thirdparty/quickjs-2021-03-27/libbf.c:1881-1883 | Every table entry is the root for its leading byte, or one below it. |
| `SqrtMath.SqrtStep` | thirdparty/quickjs-2021-03-27/libbf.c:1998-2042 | The step that doubles the length: at most one too large, and then the remainder shows it. |
| `SqrtMath.SqrtIsUnique` | thirdparty/quickjs-2021-03-27/libbf.c:2044-2068 | Root and remainder are unique. |
| `SqrtMath.SqrtRange` | thirdparty/quickjs-2021-03-27/libbf.c:2044-2068 | Being the root is the same as 0 <= r <= 2s. |
| `NttFft.BFNTTState.NttConv` | thirdparty/quickjs-2021-03-27/libbf.c:7940-7970 | The cyclic convolution modulo m of two buffers of 2^k values, for one level of transforms. |
| `NttFft.BFNTTState.NttFft` | thirdparty/quickjs-2021-03-27/libbf.c:7721-7778 | The values at all powers of the root, in natural order, every word below 2m. |
| `NttFft.BFNTTState.NttVecMul` | thirdparty/quickjs-2021-03-27/libbf.c:7780-7801 | Pointwise products scaled by the inverse of the length. |
| `NttFft.BFNTTState.GetTrig` | thirdparty/quickjs-2021-03-27/libbf.c:7818-7853 | Tables of powers of the root with their inverses, built once; none beyond the largest size. |
| `NttFft.BFNTTState.constructor` | thirdparty/quickjs-2021-03-27/libbf.c:8265-8290 | Builds the roots of every order and the inverses of every length from one root. |
| `NttFft.FillRoots` | thirdparty/quickjs-2021-03-27/libbf.c:8281-8289 | Squaring from the largest root down gives a root of every order. |
| `NttFft.FillLenInverses` | thirdparty/quickjs-2021-03-27/libbf.c:8273-8279 | Multiplying by one half gives the inverse of every length. |
| `NttFft.FillTrig` | thirdparty/quickjs-2021-03-27/libbf.c:7839-7850 | The powers of the root, each with its inverse. |
| `NttFft.ConvolvedIs` | thirdparty/quickjs-2021-03-27/libbf.c:7940-7970 | Transforming, multiplying and transforming back is convolving. |
| `NttFft.PairsInverse` | thirdparty/quickjs-2021-03-27/libbf.c:8281-8289 | If the largest roots are inverse to each other, so are all of them. |
| `NttRoots.NttStaticInit` | thirdparty/quickjs-2021-03-27/libbf.c:8246-8290 | The tables of each of the five built-in moduli are valid. |
| `NttRoots.Base0` | thirdparty/quickjs-2021-03-27/libbf.c:7289-7302 | The first built-in root has order 2^51 and the listed inverse. |
| `NttRoots.Base1` | thirdparty/quickjs-2021-03-27/libbf.c:7289-7302 | The second. |
| `NttRoots.Base2` | thirdparty/quickjs-2021-03-27/libbf.c:7289-7302 | The third. |
| `NttRoots.Base3` | thirdparty/quickjs-2021-03-27/libbf.c:7289-7302 | The fourth. |
| `NttRoots.Base4` | thirdparty/quickjs-2021-03-27/libbf.c:7289-7302 | The fifth. |
| `Ntt.NttPass` | thirdparty/quickjs-2021-03-27/libbf.c:7738-7766 | One pass does all butterflies of its stage, with words below 2m. |
| `Ntt.NttLastPass` | thirdparty/quickjs-2021-03-27/libbf.c:7767-7776 | The last pass, in place or not. |
| `NttStage.StageKeeps` | thirdparty/quickjs-2021-03-27/libbf.c:7738-7766 | One pass turns rows for a root into twice as many of half the length for its square, with the same values. |
| `NttStage.SpectralEnd` | thirdparty/quickjs-2021-03-27/libbf.c:7767-7776 | Rows of length two, evaluated at 1 and -1, are the transform in natural order. |
| `NttMath.ConvolutionTheorem` | thirdparty/quickjs-2021-03-27/libbf.c:7940-7970 | Transforming back the scaled product of two transforms gives the cyclic convolution. |
| `NttMath.InverseTransform` | thirdparty/quickjs-2021-03-27/libbf.c:7940-7970 | The transform with the inverse root undoes the transform, up to the length. |
| `NttMath.CyclicEval` | thirdparty/quickjs-2021-03-27/libbf.c:7940-7970 | At a root of unity the cyclic convolution has the product of the values. |
| `NttMath.GeoRoot` | thirdparty/quickjs-2021-03-27/libbf.c:7721-7778 | The powers of a root of unity other than 1 sum to 0. |
| `NttWords.ModFast` | thirdparty/quickjs-2021-03-27/libbf.c:7387-7405 | Exactly r mod m for every r below 2^125 and every m strictly between 2^61 and 2^62. |
| `NttWords.InitMulModFast` | thirdparty/quickjs-2021-03-27/libbf.c:7418-7425 | The truncated inverse is right if and only if m is not 2^61, which the assertion lets through. |
| `NttWords.SmallestModulus` | thirdparty/quickjs-2021-03-27/libbf.c:7390-7425 | With the modulus 2^61 and the inverse computed for it, the result is the remainder if and only if the number is below 2^62 or its excess over 2^62 is, modulo 2^64, below 2^61. |
| `NttWords.SmallestModulusFails` | thirdparty/quickjs-2021-03-27/libbf.c:7390-7425 | An example: 3 * 2^61 gives 2^61 instead of 0. |
| `NttWords.QuotientClose` | thirdparty/quickjs-2021-03-27/libbf.c:7395-7398 | The estimated quotient is at most the true one and at most two less. |
| `NttWords.MaskedIsLess` | thirdparty/quickjs-2021-03-27/libbf.c:7398-7404 | The two masked additions on wrapped words reduce from below 3m to below m. |
| `NttWords.MulModFast` | thirdparty/quickjs-2021-03-27/libbf.c:7410-7416 | The product mod m. |
| `NttWords.MulModFast2` | thirdparty/quickjs-2021-03-27/libbf.c:7429-7440 | The product mod m for every 64-bit a and b below m. |
| `NttWords.MulModFast3` | thirdparty/quickjs-2021-03-27/libbf.c:7444-7452 | The product less a multiple of m, below 2m. |
| `NttWords.InitMulModFast2` | thirdparty/quickjs-2021-03-27/libbf.c:7454-7457 | The inverse for a repeated multiplier. |
| `NttWords.AddMod` | thirdparty/quickjs-2021-03-27/libbf.c:7368-7375 | The sum, reduced once. |
| `NttWords.SubMod` | thirdparty/quickjs-2021-03-27/libbf.c:7378-7385 | The difference, a wrapped one corrected. |
| `FastDiv.FastUdivExact` | thirdparty/quickjs-2021-03-27/libbf.c:5485-5491 | One multiplication and two shifts give the exact quotient of every 64-bit number. |
| `FastDiv.FastUdivInit` | thirdparty/quickjs-2021-03-27/libbf.c:5464-5483 | For every d up to 2^63 the constants have the precision this needs. |
| `DecShift.TableExact` | thirdparty/quickjs-2021-03-27/libbf.c:5520-5554 | Every entry of the built-in table divides exactly by its power of ten. |
| `DecShift.PowersOfTen` | thirdparty/quickjs-2021-03-27/libbf.c:5494-5517 | The table holds the powers of ten from 1 to 10^19. |
| `DecShift.LastEntryDiffers` | thirdparty/quickjs-2021-03-27/libbf.c:5520-5554 | The entry for 10^19, out of the range of the initialisation, is not what its formula gives. |
| `DecShift.LastEntryExact` | thirdparty/quickjs-2021-03-27/libbf.c:5520-5554 | It divides exactly all the same. |
| `DecShift.FastShrRemDec` | thirdparty/quickjs-2021-03-27/libbf.c:5557-5563 | Quotient and remainder by a power of ten. |
| `DecShift.MpShrDec` | thirdparty/quickjs-2021-03-27/libbf.c:5937-5952 | Exact division of the whole base-10^19 number by 10^shift, the returned limb being the remainder. |
| `DecShift.MpShlDec` | thirdparty/quickjs-2021-03-27/libbf.c:5955-5970 | Exact multiplication, the returned limb being the carry. |
| `BfRound.BfRound` | thirdparty/quickjs-2021-03-27/libbf.c:484-589 | The mantissa rounded to prec bits in each of six modes, the exponent raised exactly on a carry out, inexact reported exactly when the value changed, and the number left normalised without low zero limbs. |
| `BfRound.BfGetRndAdd` | thirdparty/quickjs-2021-03-27/libbf.c:395-446 | Whether to round away, and whether bits are lost, as the exact remainder decides. |
| `BfRound.UnitLeavesPrec` | thirdparty/quickjs-2021-03-27/libbf.c:484-589 | The unit rounded to leaves exactly prec bits: unit times 2^prec is the weight of the limbs. |
| `BfRound.RoundLimbs` | thirdparty/quickjs-2021-03-27/libbf.c:525-577 | Rounds the limbs from the last kept bit on. |
| `BfRound.RoundHigh` | thirdparty/quickjs-2021-03-27/libbf.c:525-577 | Adds the unit, clears the lower bits and halves after a carry out of the top. |
| `BfRound.Compact` | thirdparty/quickjs-2021-03-27/libbf.c:580-587 | Drops zero limbs at the bottom; only the scale changes. |
| `BfRound.ClearLow` | thirdparty/quickjs-2021-03-27/libbf.c:570-576 | The bits below the last one kept are cleared. |
| `BfRound.SkipZeros` | thirdparty/quickjs-2021-03-27/libbf.c:580-582 | The lowest limb that is not zero. |
| `BfRound.BitsDecide` | thirdparty/quickjs-2021-03-27/libbf.c:404-441 | Rounding bit, sticky bits and last bit decide as the exact remainder does. |
| `BfRound.StaysNormal` | thirdparty/quickjs-2021-03-27/libbf.c:525-550 | A rounded normalised number is at least half the weight. |
| `RoundSpec.RoundedNear` | thirdparty/quickjs-2021-03-27/libbf.c:412-445 | The result is a multiple of the unit next to the number, the number itself exactly if it is one. |
| `RoundSpec.TowardZero` | thirdparty/quickjs-2021-03-27/libbf.c:412-441 | Toward zero: the largest multiple not above the magnitude. |
| `RoundSpec.AwayFromZero` | thirdparty/quickjs-2021-03-27/libbf.c:412-441 | Away from zero: the smallest not below. |
| `RoundSpec.Nearest` | thirdparty/quickjs-2021-03-27/libbf.c:412-441 | To nearest: no multiple is closer, ties to even or away. |
| `RoundSpec.Monotone` | thirdparty/quickjs-2021-03-27/libbf.c:412-445 | Rounding is monotone. |
| `Bits.GetBit` | thirdparty/quickjs-2021-03-27/libbf.c:341-348 | The bit at a position, zero outside the number. |
| `Bits.WeightIsPower` | thirdparty/quickjs-2021-03-27/libbf.c:341-348 | The weight of a bit is the power of two of its position. |
| `Bits.ScanBitNz` | thirdparty/quickjs-2021-03-27/libbf.c:373-392 | Whether any bit up to a position is set, by masked limbs. |
| `Bits.MaskFits` | thirdparty/quickjs-2021-03-27/libbf.c:350-360 | A mask of a range of bits fits a limb for every range. |
| `Bits.AndLow` | thirdparty/quickjs-2021-03-27/libbf.c:373-392 | Masking low bits is taking a remainder. |

## Left out

Broker:

- QoS 1 in the composed protocol, and clean sessions inside its runs: the handlers are modelled, the run theorem is about QoS 2 and resumed sessions.
- QosProtocol.FinishedIsDelivered: assumes, as an enabling condition of publishing, that the counter does not come back to an unfinished identifier; `NoEarlyReuse` says how long that takes, `ReuseLosesMessage` and `StalledBlocks` what happens otherwise.
- QosReuse.ReuseLosesMessage: looks as far as the packets then in flight, and says nothing about later resumptions.
- QoS 0 delivery.
- Properties, reason codes and packet formats of MQTT 5; wills; retained messages; subscriptions and their cleanup; scripts and WebSocket subscribers as owners.
- Real threads, locks, epoll and sockets: a locked section is one step, the result of a send is any count, and `FreshFor` stands for a new address and a generated client id.
- LoginState.LoggedInCore: connections and sessions are entries of tables under handles, so aliasing is by key and not by reference.
- LoginRuns.LinksOverRuns: each connection asks for its login once, which the connection state in CONNECT handling provides (`src/ClientThreadManager.cpp:221-290`).
- Unsubscribing requests count references like subscribing ones and are not separate events.
- SendRuns.SendScatter: a closed socket and a failing one are one result, `Failed`; the limit on I/O vectors is `Batch`.
- The packet factories, whose length field depends on SharedBuffer and the encoder; SharedBuffer, BinaryEncoder and BinaryDecoder are not part of this model. A packet's prelude is any sequence of bytes.
- Framing.MQTTClientConnection.HandleFirst: Enums.hpp is not part of this model, so the number of packet types is a parameter.
- What the handler of a packet does while the next one is framed, in particular throwing.

Sorting:

- Rqsort.Rqsort: element sizes and the choice of exchange functions; the array is of any type, and sizes do not overflow.

Regular expressions:

- ReCompile.LreCompile: of the text, only characters below 128 without special meaning, the dot, sequences, alternatives, non-capturing groups and quantifiers; anything else is answered `NotModelled`. The header, flags, the stack size and its limit, and the check of the C stack are left out.
- ReTheorem.ProgramCorrect: quantified atoms always consume (`Advancing`). The lazy loop has no check for an empty repetition, so it may run forever otherwise.
- Captures other than 0, back references, assertions, lookahead, classes and escapes in patterns, ignoring case, UTF-16.
- CharRanges.MatchSet: the set operations that make a range table.
- ReExec.ExecContext.ExecGreedy: checks that its nested run advanced, which the compiler's code always does, so that the loop is total.

Numbers:

- Failing allocation; branches for 32-bit limbs and for AVX2.
- The transform behind `mp_mul` for long operands, with its splitting into limbs and the Chinese remaindering; `LimbMul.MpMul` is the schoolbook form throughout.
- NttFft.BFNTTState.NttConv: one level of transforms (`k2 == 0`); the transforms of a strip, and parts of a buffer as arguments.
- NttFft.BFNTTState.constructor: one object for each modulus instead of one for all; the tables are sequences instead of shared arrays.
- BfRound.BfRound: exponent limits with underflow and overflow, subnormal results, precision counted after the radix point, infinite precision and the faithful mode; the number of limbs passed in is that of the number, and no status flags come in with the call.
- Transcendental functions, whose error analysis the source marks as open.
- Decimal numbers beyond the two shifts.
