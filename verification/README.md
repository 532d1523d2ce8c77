# Verified model of lm-transport

This project models the parts of lm-transport that carry state or do arithmetic on
messages, and proves what they promise:

- **The asynchronous resolver (`asyncns.c`).** A client keeps 256 query slots, sends
  requests to up to 16 workers over one datagram socket and reads replies from another.
  `Client.dfy` gives the client as a value; `AsyncNs.dfy` is the context as the code keeps
  it (array of query objects, wrapping id counter, doubly linked done list), each operation
  proved against the value; `ReceiveLoop.dfy` is its receive loop; `Protocol.dfy` puts client,
  sockets and workers into one transition system whose messages are the datagrams themselves,
  built by one side and taken apart by the other, cut at the receive buffers, with every failing
  assert as an outcome. `Delivery.dfy` has its invariant and `Provenance.dfy` says where stored
  answers come from; `Runs.dfy`, `Hazards.dfy`, `LateReplies.dfy` and `Histories.dfy` hold the
  theorems over all interleavings.
- **The datagrams.** `AddrInfo.dfy` and `AddrCodec.dfy` are the address-list reply (linked
  list in, bounded buffer, linked list out); `Datagram.dfy`, `Lookups.dfy` and `Framing.dfy`
  are the headers, the three requests and the other two replies. Structures are laid out as on
  64-bit little-endian Linux (`rheader_t` 16 bytes, `addrinfo_serialization_t` 32 bytes, and
  so on); error codes and message types have their values there.
- **The SRV answer parser (`lm-resolver.c`).** `DnsNames.dfy` (names with compression, RFC
  1035 section 4.1.4, text form of section 5.1) and `SrvParser.dfy` (RFC 1035 sections 4.1.1
  to 4.1.3, record data of RFC 2782).
- **The output buffer (`lm-old-socket.c`)** in `OutputBuffer.dfy`, and **connecting to the
  resolved addresses (`lm-socket.c`, `lm-socket-address.c`)** in `SocketSpec.dfy` and
  `SocketConnect.dfy`. `EndToEnd.dfy` composes a host lookup across the files.

Every class carries a ghost value that its invariant ties to the real fields; each method
states the new value as a function of the old one, and the theorems are about those functions.

## What the proofs found

- `alloc_query` does not advance the id counter after handing an id out. If a query is
  cancelled while the counter still stands at its id and its request is still in flight, the
  next query gets the same id. Then, with two lookups of one type, the second query is completed
  with the first lookup's answer, and when its own answer comes the assert at asyncns.c:895
  fires; with lookups of different types it is an assert at asyncns.c:986, 1019 or 1041
  (`Hazards.AskCancelAskCrashes`). `Hazards.AskIsSafeIffNoHazard` shows that this hazard is
  exactly the unsafe case, `Runs.PoliteCallersAreServed` gives the rule a caller can follow, and
  `Runs.OneQueryContextIsServed` shows that a context used for one query, as
  `lm-asyncns-resolver.c` uses it, needs no rule.
- `asyncns_getnameinfo` accepts socket addresses of up to 10208 bytes, and the worker copies them
  into a `struct sockaddr_storage` of 128 bytes: a request is taken apart correctly iff its
  address is at most that long (`Framing.RequestRoundTrip`, `Framing.LongAddressOverruns`).
- Responses are matched by a 32-bit id. No response must be read 2^32 ids after its request was
  issued, and that limit is exact: `LateReplies.LateReplyMisleads` is a run that keeps every
  other rule, in which a response exactly that old completes a query with another one's answer.
- A client short of memory stores less of an address list, under EAI_MEMORY; memory for 159 nodes
  is always enough (`Framing.AmpleRoom`, `Runs.AmpleMemory`).
- The room test of `serialize_addrinfo` counts the bytes before the write position twice, so
  a list is sent whole iff `2 * S(n-1) + l(n) <= BUFSIZE`, and its entry assert can fire:
  a lookup that finds 86 IPv6 addresses is never answered (`AddrCodec.LongAnswerAborts`).
- The reply buffer for resolver answers (10272 bytes) is larger than the buffer `recv` is given
  (10256 bytes): an answer of more than 10224 bytes makes the client's length assert fire
  (`Framing.ResReplyArrivesIff`). Over whole runs that is the only assert of the client left to
  fire (`Runs.EveryAnswerIsItsOwn`), and none is for resolver answers within that size
  (`Runs.BriefResolversNeverFail`).
- A failed `malloc` in `alloc_query` leaves the counter behind the last id for good, so "an id
  repeats iff the last query was released" holds only while no allocation has failed
  (`Histories.NextId`, `Histories.FailedAllocationSkipsAnId`).
- The output buffer loses bytes iff a non-empty write meets an I/O error while nothing is buffered
  (`OutputSpec.NothingLost`), and it is stuck for good, with its buffer kept but never sent again,
  iff the buffered-write callback meets an I/O error (`OutputSpec.StuckFromStart`,
  `OutputSpec.NothingAfterError`).
- `asyncns_getaddrinfo_done` refuses on a dead context although the answer is there: if the
  worker's death notice is read together with its reply, the host lookup fails
  (`EndToEnd.HostReply`).

## Model

| member | source | states |
|---|---|---|
| AddrCodec.DecodeEncodedNode | asyncns.c:393-422 | a node written by the worker is read back with every field, the address bytes and the canonical name (absent or present) unchanged, whatever follows it |
| AddrCodec.EncodeDecodedNode | asyncns.c:908-961 | any bytes that decode to a node are exactly that node's encoding, so decoding reads no byte beyond it and loses none |
| AddrCodec.DecodeEncodedNodes | asyncns.c:991-1009 | an encoded list decodes to the same list in order; with memory for fewer nodes, to the prefix, marked incomplete |
| AddrCodec.DecodeAnyBytes | asyncns.c:991-1009 | on every byte string the accepted nodes re-encode to a prefix of the input, the whole input iff the loop ran to the end, at least one node header per node |
| AddrCodec.FirstMisfit | asyncns.c:404-405 | every node before the result fits by the code's own test and the result itself does not |
| AddrCodec.SentWholeIff | asyncns.c:404-405 | a list is sent whole iff it is empty or its last node passes twice-the-length-so-far plus its size at most BUFSIZE |
| AddrCodec.MisfitStays | asyncns.c:399-405 | once a node does not fit no later node would fit either |
| AddrCodec.LongAnswerAborts | asyncns.c:399-405 | 86 or more addresses of 28 bytes without names make the entry assert fire instead of a reply |
| AddrCodec.AtMostNodes | asyncns.c:404-405 | no reply holds more than 159 nodes |
| AddrCodec.MostNodesFit | asyncns.c:404-405 | 159 nodes without address and name do go into one |
| AddrCodec.SerializeAddrInfo | asyncns.c:393-422 | assert, no room, or the node's encoding at p with p and length moved on, nothing else in the buffer changed |
| AddrCodec.SerializeNext | asyncns.c:443-446 | one turn of the loop: the next node is written behind the others iff it fits, and the outcome is the assert's or the room test's |
| AddrCodec.SerializeList | asyncns.c:437-448 | p stays at the reply length and within BUFSIZE; the loop stops at the first misfit with exactly the nodes before it written, and the assert fires iff twice the length exceeds BUFSIZE there |
| AddrCodec.SendAddrInfoReply | asyncns.c:424-454 | the datagram sent is the whole list, the part before the first misfit with EAI_MEMORY, only a header for a failed lookup, or none when the assert fires |
| AddrCodec.UnserializeAddrInfo | asyncns.c:908-961 | null iff the bytes hold no node or memory is out; otherwise a new node with the decoded contents and the position behind its encoding |
| AddrCodec.LinkBehind | asyncns.c:1003-1008 | the new node becomes the last of the linked list, the others keep place and contents |
| AddrCodec.LinkNodes | asyncns.c:991-1009 | the linked list built holds the decoded nodes in order and is acyclic |
| AddrCodec.ReceiveAddrInfo | asyncns.c:979-1013 | status and linked list are those of the reply, with EAI_MEMORY when decoding ended early |
| AddrCodec.AddrReplyDelivered | asyncns.c:424-454 | every reply sent passes the client's length checks, carries the request's id, and gives the client the list up to the first misfit or the memory limit, with the worker's status when it is complete and EAI_MEMORY when something is missing |
| Framing.RequestRoundTrip | asyncns.c:509-580 | every request within BUFSIZE passes handle_request's length asserts and yields the id and exactly the node, service, hints, socket address or domain name given, absent told apart from empty; a socket address of more than 128 bytes instead overruns the worker's buffer |
| Framing.LongAddressOverruns | asyncns.c:1228-1259 | a socket address of 129 bytes meets every check of the caller's side and overruns the worker's buffer |
| Framing.BuildRequest | asyncns.c:1158-1183 | the buffer filled piece by piece holds the request's encoding; a request longer than BUFSIZE is not built |
| Framing.TerminateParsed | asyncns.c:832-843 | the termination packet is recognised as such |
| Framing.RequestChecks | asyncns.c:509-580 | on every datagram: which of handle_request's asserts fires, when the socket address overruns, what is ignored, and of what kind the lookup is |
| Framing.NameReplyRoundTrip | asyncns.c:456-485 | host and service names come back as sent, absent told apart from empty |
| Framing.ResReplyArrivesIff | asyncns.c:487-507 | a resolver answer arrives unchanged iff it has at most 10224 bytes, otherwise the client's length assert fires |
| Framing.ReplyRoundTrip | asyncns.c:963-1057 | for every answer that is sent: it fits the receive buffer iff it is no resolver answer above 10224 bytes; then the client acts on the answer as cut by the reply buffer and its own memory, otherwise its length assert fires |
| Framing.SendableIff | asyncns.c:424-507 | no assert ends the worker iff the list is sent whole or passes the entry test at its first misfit, and a resolver answer has at most 10240 bytes |
| Framing.ArrivesUnchangedIff | asyncns.c:979-1013 | the client stores the very answer the worker gave iff a list is complete and fits its memory, and a failed lookup brings no list |
| Framing.AmpleRoom | asyncns.c:399-405 | with memory for 159 nodes a list is cut nowhere but where the reply buffer cut it |
| Framing.ParsedNormal | asyncns.c:1024-1053 | whatever arrives, stored names are C strings and a failed resolver query carries no data |
| Framing.DatagramChecks | asyncns.c:963-1064 | on every datagram and in every state, read off bytes and table: which assert fires, what is ignored, when the context dies, and which query is completed |
| Framing.StrNDupCopies | asyncns.c:182-199 | the copy holds the characters up to the first zero, the limit or the end, and a zero |
| Framing.HandleDatagramValid | asyncns.c:963-1064 | handling any datagram whatsoever keeps the table invariant unless an assert fires |
| Framing.DeathNoticeRoundTrip | asyncns.c:381-391 | the death notice is recognised as such |
| Client.AdvanceFindsFree | asyncns.c:1113-1120 | with fewer queries than slots the slot search ends within 255 steps |
| Client.Advance | asyncns.c:1113-1120 | every slot passed over is occupied and the one stopped at is free |
| Client.AllocValid | asyncns.c:1104-1141 | allocation keeps the table invariant, moves the id on by at most 255, and puts a fresh unfinished query into a slot that was free |
| Client.RemoveValid | asyncns.c:1412-1446 | cancelling keeps the table invariant |
| Client.CompleteValid | asyncns.c:892-906 | completing keeps the table invariant |
| Client.HandleResponseValid | asyncns.c:963-1064 | completing, ignoring or dying on a message keeps the table invariant |
| Client.IssueValid | asyncns.c:1143-1195 | issuing, with failed allocation or send included, keeps the table invariant; a request goes out only for a query that is in its slot |
| Client.DoneReleasesOne | asyncns.c:1204-1226 | a *_done call gives the query's own answer and empties its slot and no other, the remaining completions keeping their order; on a dead context it refuses, on an unfinished query it says "again", and neither changes anything |
| ReceiveLoop.WaitHandlesInOrder | asyncns.c:1066-1102 | a non-blocking wait equals handling the pending datagrams in order up to the first death notice, uses exactly those, and fails only where handling does, by the same assert |
| ReceiveLoop.WaitHandlesAll | asyncns.c:1066-1102 | on any mix of datagrams, empty sockets and errors, blocking or not, the datagrams read are handled in order and an assert fires iff handling them makes one fire |
| ReceiveLoop.WaitGoesOn | asyncns.c:1079-1100 | it goes on only behind a datagram that is no death notice, or behind an empty socket while it may block and has handled nothing |
| ReceiveLoop.WaitStops | asyncns.c:1074-1095 | every result it gives has its reason in the last thing read or in there being nothing more |
| AsyncNs.Context.FindSlot | asyncns.c:1113-1120 | the loop with its wrap-around leaves index and 32-bit id at the cyclically first free slot |
| AsyncNs.Context.AllocQuery | asyncns.c:1104-1141 | the context's new value is Alloc of the old one, also when memory is out |
| AsyncNs.Context.LookupQuery | asyncns.c:881-890 | the query returned is the one in the id's slot iff its id is the one asked for |
| AsyncNs.Context.LinkLast | asyncns.c:897-905 | the query is appended to the doubly linked done list |
| AsyncNs.Context.Unlink | asyncns.c:1421-1432 | the query is cut out of the doubly linked done list wherever it stands |
| AsyncNs.Context.CompleteQuery | asyncns.c:892-906 | the context's new value is Complete of the old one |
| AsyncNs.Context.Cancel | asyncns.c:1412-1446 | the context's new value is Remove of the old one, finished or not |
| AsyncNs.Context.HandleDatagram | asyncns.c:963-1064 | length, lookup, type and done asserts in the code's order: the assert that fires is the one the value-level client names, otherwise the new value is the one it gives |
| AsyncNs.Context.StoreAddrs | asyncns.c:979-1013 | the query gets the linked list decoded from the reply, which no other query shares, and the status that goes with it |
| AsyncNs.Context.StoreNames | asyncns.c:1016-1035 | the names stored are C strings, absent iff their length is 0 |
| AsyncNs.Context.StoreData | asyncns.c:1038-1057 | the data stored is as long as the return code says, and absent iff the query failed |
| AsyncNs.Context.Wait | asyncns.c:1066-1102 | result, datagrams used and new value are those of Wait, blocking or not |
| AsyncNs.Context.Ask | asyncns.c:1143-1195 | the context's new value is Issue of the old one, the datagram handed to send is the request under the new query's id, and a query is returned iff its request went out |
| AsyncNs.Context.GetAddrInfoDone | asyncns.c:1197-1226 | code, linked list, errno and h_errno for a dead context, an unfinished query and a finished one, which is released; the list handed out belongs to no query any more |
| AsyncNs.Context.GetNameInfoDone | asyncns.c:1275-1313 | the same for names, cut to the caller's buffers |
| AsyncNs.ShownName | asyncns.c:1295-1305 | a buffer gets the whole name if it fits, else its first characters, with a terminating zero either way |
| AsyncNs.Context.ResDone | asyncns.c:1369-1400 | the same for resolver answers with their negated error codes |
| AsyncNs.Context.GetNext | asyncns.c:1402-1405 | the query at the head of the done list is the first in completion order |
| AsyncNs.Context.Free | asyncns.c:866-868 | the sweep leaves no query, no slot and no list entry |
| AsyncNs.Context.constructor | asyncns.c:751-812 | a new context is the empty value |
| Protocol.InFlightWork | asyncns.c:666-694 | a worker taking up a request and sending its reply neither loses nor duplicates it |
| Protocol.InFlightAsk | asyncns.c:1185-1188 | asking adds the new query's request to the messages in flight, iff it was sent |
| Protocol.InFlightLost | asyncns.c:1079-1097 | only a handled response and the job of a worker that ends, by an assert or otherwise, leave the messages in flight |
| Delivery.ResponseFindsItsQuery | asyncns.c:881-890 | a response's 32-bit id names the unfinished query that sent its request, or no query |
| Delivery.ReplyHandled | asyncns.c:963-1064 | in every state the client handles a worker's datagram as the answer of that worker's lookup, cut at the memory it has in this very step, or its length assert fires because the datagram is longer than the buffer |
| Delivery.TakeGivesJob | asyncns.c:509-580 | a worker that receives a datagram of a reachable state reads off it the id and the lookup of the query that sent it |
| Delivery.ReceiveTracked | asyncns.c:963-1064 | on the datagram answering a tracked message no assert fires but the one on the length, that one iff the datagram is longer than the buffer; otherwise exactly the query that asked is completed, with that answer cut at the memory at hand, or is gone and nothing changes; the message is accounted for and no unfinished query loses its request |
| Delivery.IssueTracked | asyncns.c:1143-1195 | asking outside a hazard keeps every message in flight matched to its own query |
| Delivery.RemoveTracked | asyncns.c:1412-1446 | cancelling or releasing any query keeps every message in flight matched |
| Delivery.DeathIsHeard | asyncns.c:381-391 | a worker that says that it ends is heard: its notice joins the responses, and the client that reads it is dead and otherwise unchanged |
| Delivery.InvStep | asyncns.c:509-593 | every careful step of client or worker keeps the system invariant, or is the length assert on an overlong reply |
| Provenance.StepTraced | asyncns.c:963-1064 | every careful step keeps: each stored answer, and each reply under way, comes from a worker's lookup for that very query |
| Runs.EveryAnswerIsItsOwn | asyncns.c:963-1064 | in every careful interleaving, for every finished query there is an earlier step in which a worker ended its lookup for that very query and a later one in which the client read that reply, and what is stored is that lookup's answer cut at the memory of that read; and nothing goes wrong but the length assert on a reply above 10256 bytes |
| Runs.AnswerFields | asyncns.c:526-574 | what a finished query of such a run holds, field by field from what the lookup function gave the worker: the list up to the first misfit or the memory limit with EAI_MEMORY iff some is missing, the names iff asked for and found, the resolver's bytes |
| Runs.AmpleMemory | asyncns.c:979-1013 | with memory for 159 nodes at every read that answer is cut only at the reply buffer, and is the lookup's own answer iff the buffer held all of it |
| Runs.BriefResolversNeverFail | asyncns.c:487-507 | with no resolver answer above 10224 bytes not even that |
| Runs.ResponsesReachTheirSenders | asyncns.c:881-890 | at every point of a careful run, if the id in the datagram about to be read finds a query, that query sent the request it answers and is unfinished |
| Runs.PoliteCallersAreServed | asyncns.c:1412-1446 | the same for every caller that cancels no unfinished query while the counter stands at its id, gives no socket address above 128 bytes, and uses fewer than 2^32 ids |
| Runs.OneQueryContextIsServed | lm-asyncns-resolver.c:164-209 | the same for every run of a context that asks at most once, whenever that is |
| Runs.OneMessagePerUnfinishedQuery | asyncns.c:1185-1188 | with all workers alive each unfinished query has exactly one message in flight |
| Runs.InternalRunBounded | asyncns.c:666-694 | each take, reply and receive uses up at least one unit of 3*requests + 2*busy + responses |
| Runs.UnfinishedQueriesProgress | asyncns.c:666-694 | while a query is unfinished and all workers live, some take, reply or receive is enabled |
| Runs.AllQueriesFinish | asyncns.c:1066-1102 | from every reachable state with its workers alive, if some answer to each outstanding request can be sent and received, and whatever memory the client has, the outstanding work can be run until no query is unfinished, each with its own answer |
| Runs.WorkFinishesInAnyOrder | asyncns.c:1066-1102 | if every answer to the outstanding requests can be sent and received, any order of the work that cannot go on has finished every query, each with its own answer |
| Hazards.AskIsSafeIffNoHazard | asyncns.c:1113-1131 | with every request answerable, asking can be followed by the done assert or a type assert iff the current id's slot is free while a request under that id is in flight |
| Hazards.DoomedCrashes | asyncns.c:892-895 | once two requests carry one id and can be answered, the workers and the receive loop alone reach the done assert or a type assert |
| Hazards.ImpoliteCancelMakesHazard | asyncns.c:1412-1446 | cancelling an unfinished query at the current id creates the hazard |
| Hazards.AskCancelAskCrashes | asyncns.c:892-895 | ask, cancel, ask from a fresh context: the second query is completed with the first lookup's answer and then the done assert fires if the types agree, otherwise a type assert does |
| LateReplies.LateReplyMisleads | asyncns.c:881-890 | after 2^32 ids handed out by the rules, the reply to the first request is still under way and completes the newest query with the first lookup's answer, or fires a type assert |
| LateReplies.Rounds | asyncns.c:1113-1120 | a client that asks before it collects moves the counter on by one each time, for any number of times, while one worker is still at the first request |
| Histories.NextId | asyncns.c:1113-1131 | the next id is never below the last, at most 255 above it, and equal iff the last query is gone and no failed allocation moved the counter |
| Histories.FailedAllocationSkipsAnId | asyncns.c:1122-1125 | after a failed allocation the last query's id is not reused though it was released |
| Histories.IdsAreMonotone | asyncns.c:1113-1131 | over every run the j-th and k-th ids handed out are in order and at most 255 per query apart |
| Histories.NextIsOldestCompletion | asyncns.c:1402-1405 | in every run the query offered is the oldest completion not yet released, and one is offered whenever there is one |
| Histories.DeadForever | asyncns.c:1074-1077 | after a death notice was read no query is issued or completed, no response is read, *_done releases nothing, and only cancel empties slots |
| DnsNames.Expand | lm-resolver.c:280-282 | a name takes at least one byte and stays within the message |
| DnsNames.ExpandEncoded | lm-resolver.c:280-298 | a written name reads back with its labels and its pointer followed, taking exactly its encoded size |
| DnsNames.CompressionExample | lm-resolver.c:280-282 | two names of a given message, one with a pointer, byte for byte |
| DnsNames.LongestName | lm-resolver.c:280-282 | 255 octets are accepted and 256 are not, although the text would fit |
| DnsNames.TextReadsBack | lm-resolver.c:298-303 | a reader of the text form, unescaping and splitting at the dots that are not escaped, gives back exactly the labels |
| DnsNames.PlainLabel | lm-resolver.c:298-303 | a label of printing characters that are not special is its own text |
| SrvParser.ParseSrvResponse | lm-resolver.c:253-313 | the two loops compute Parse on every message |
| SrvParser.QuestionsSkipped | lm-resolver.c:279-283 | the question loop ends exactly behind the questions, or behind those that can be read |
| SrvParser.AnswersScanned | lm-resolver.c:285-305 | the answer loop stays on record boundaries, ends exactly behind the answers, or behind those that can be read, and sees the priorities, targets and ports written |
| SrvParser.PickIsFirstLowest | lm-resolver.c:299-303 | the running minimum is the first record of the lowest priority |
| SrvParser.ParsePicksPreferred | lm-resolver.c:253-313 | on every well-formed answer, even if its header promises more records than can be read: the port of the first lowest-priority record, and a name that reads as the labels of its target, iff that priority is below 9999 and the target is not the root |
| SrvParser.BrokenQuestion | lm-resolver.c:279-286 | a question that cannot be read leaves no server, whatever the answers are |
| SrvParser.NetworkOrder | lm-resolver.c:276-277 | 16-bit numbers are read most significant byte first |
| SrvParser.WinningPriorityIgnoresOrder | lm-resolver.c:299-303 | the winning priority is the same for every order of the answers |
| SrvParser.UncompressedAnswers | lm-resolver.c:285-305 | answers without compression need only names that fit the buffer |
| SrvParser.UncompressedMessage | lm-resolver.c:268-305 | so every whole message without compression is well-formed in that sense |
| OutputSpec.WriteInv | lm-old-socket.c:266-286 | a write, buffered, partial, complete or failed, keeps accepted bytes equal to delivered plus buffered, the buffer non-empty and the watch in step |
| OutputSpec.WritableInv | lm-old-socket.c:177-217 | the writable callback keeps the same |
| OutputSpec.CallbackKeepsWatch | lm-old-socket.c:177-217 | the callback keeps its watch iff the channel has neither failed nor taken all there was; exactly the front it took leaves the buffer |
| OutputSpec.RunInv | lm-old-socket.c:159-286 | so does every run, with errors |
| OutputSpec.NothingLost | lm-old-socket.c:159-286 | over every run, delivered plus buffered is everything written, in order, iff no non-empty write was refused while nothing was buffered |
| OutputSpec.StuckFromStart | lm-old-socket.c:177-217 | over every run, the watch the socket believes in still calls back iff no callback has met an error |
| OutputSpec.NothingAfterError | lm-old-socket.c:196-200 | in every run in which a callback meets an error, all that is ever delivered was delivered before the first such callback |
| OutputSpec.CallbacksDrain | lm-old-socket.c:177-217 | while not stuck, as many callbacks as bytes are buffered, each taking at least one, deliver them all |
| OutputSpec.ErrorIsFinal | lm-old-socket.c:196-200 | once stuck, nothing more is delivered and later writes only pile up |
| OutputBuffer.OldSocket.DoWrite | lm-old-socket.c:240-264 | retries through EAGAIN, for ever if nothing else comes, and otherwise returns the bytes taken, or -1 with none taken |
| OutputBuffer.ResultDecides | lm-old-socket.c:249-261 | the first answer of the channel that is not EAGAIN decides |
| OutputBuffer.OldSocket.Write | lm-old-socket.c:266-286 | the socket's new value is Write of the old one, or nothing has changed and it is still retrying |
| OutputBuffer.OldSocket.BufferedWriteCb | lm-old-socket.c:177-217 | the socket's new value and the callback's result are Writable of the old one, or nothing has changed and it is still retrying |
| SocketSpec.TryFromInOrder | lm-socket.c:363-382 | one search goes on in list order from where the last stopped, stops at the first attempt that gets going, and says "tried all" iff every remaining one failed |
| SocketSpec.StepInOrder | lm-socket.c:353-383 | every callback keeps the addresses tried a prefix of the results; "tried all" is said only when that prefix is the whole list |
| SocketSpec.StepTells | lm-socket.c:276-332 | every callback keeps successes followed by "opened" and separated by "closed" |
| SocketSpec.TraceSound | lm-socket.c:453-524 | both in every state of every trace of callbacks |
| SocketSpec.StepDoes | lm-socket.c:265-558 | what each callback does to every field: which addresses are tried, what is told, what is reset, and that a pending error or a connect without results changes nothing |
| SocketSpec.FailureGoesOn | lm-socket.c:489-514 | a connection that fails while it is being made is followed by the next addresses in order, up to one that gets going, or by "tried all" |
| SocketConnect.Address.SetResults | lm-socket-address.c:123-141 | every node of the list gets the port, as a 16-bit number with the most significant byte first, and keeps everything else |
| SocketConnect.PortsWritten | lm-socket-address.c:123-141 | the bytes written count to the port modulo 65536, and no other byte or field changes |
| SocketConnect.Iter.GetNext | lm-socket-address.c:143-154 | hands out the current node and moves on, staying at the end |
| SocketConnect.Socket.TryAddresses | lm-socket.c:363-382 | the loop over the iterator is TryFrom of the old value |
| SocketConnect.Socket.AttemptConnectNext | lm-socket.c:353-383 | the socket's new value is AttemptNext of the old one, with a restarted iterator after a reset |
| SocketConnect.Socket.OutCb | lm-socket.c:453-487 | the socket's new value is Out of the old one |
| SocketConnect.Socket.ErrCb | lm-socket.c:489-514 | the socket's new value is Err of the old one, and the watch stays iff the error is only pending |
| SocketConnect.Socket.HupCb | lm-socket.c:516-524 | emits "closed" and resets |
| SocketConnect.Socket.Close | lm-socket.c:265-274 | emits "closed" and resets |
| SocketConnect.Socket.Connect | lm-socket.c:539-558 | the socket's new value is Connect of the old one, a lookup being started iff there are no results |
| SocketConnect.Socket.LookupFinished | lm-socket.c:334-351 | after the lookup the socket goes on with the list found, ports set, or reports the failure |
| EndToEnd.MessagesSurviveTheWire | asyncns.c:509-593 | every request sent is what the worker reads off the wire unless its address overruns the buffer, and on the datagram of every reply sent the client does, in every state, what it does on the answer as cut, or its length assert fires |
| EndToEnd.HostDone | lm-asyncns-resolver.c:211-231 | the query is collected and the list stored in it reaches the socket node for node, changed only in the port; on a dead context, an unfinished query or a failed lookup the socket is told of the failure |
| EndToEnd.HostReply | lm-asyncns-resolver.c:138-162 | when the worker's reply is read, and perhaps its death notice behind it, the socket goes on with the worker's list, ports set, iff the lookup succeeded, all of the list got through and no death notice came |
| EndToEnd.FoundIsAll | lm-asyncns-resolver.c:211-231 | the socket gets a list iff the lookup succeeded and all of it got through, and then node for node with the port set |
| EndToEnd.SrvDone | lm-asyncns-resolver.c:234-267 | the query is collected, and the stored answer parsed iff it is not empty |
| EndToEnd.SrvReply | lm-asyncns-resolver.c:138-267 | when the worker's reply is read, the server is what the parser makes of the very DNS message the worker was given; none after a failure or a death notice |
| EndToEnd.TriedAreTheWorkersAddresses | lm-socket.c:353-383 | in every later state the addresses tried are the worker's, in order, each changed only in its port; after a failed lookup nothing is tried and the failure is told |

## Left out

- Processes, threads, signals, privileges and file descriptor flags of `asyncns.c`: system calls without a result to state; a worker is a step that takes a request and replies, or dies.
- The lookup calls themselves: `getaddrinfo`, `getnameinfo` and `res_query` are an arbitrary function of the request and of when it is made.
- Termination packets in the transition system: they are sent only by `asyncns_free`, after which the context is gone.
- Failed allocations while a name or resolver answer is stored: address lists are modelled with a memory limit, the other two answers as stored successfully.
- Workers as threads: the build files never define HAVE_PTHREAD, so workers are processes and an assert in a worker ends that worker only; what runs after an overrun of its buffer is not modelled.
- Failing `send` calls of workers, and the size of the kernel's socket queues.
- Overflow of `size_t` sums: lengths are mathematical integers; only the id counter wraps.
- AsyncNs.Context.Ask: stands for the three issuing functions, which differ only in the request, and is given whether `send` succeeded.
- AsyncNs.Context.AllocQuery: stores the query type, which the code stores in the caller right after.
- Framing.ReplyRoundTrip: the name and resolver replies are built and parsed as values, not in a buffer written in place.
- Malformed name and resolver replies: a field that points beyond the datagram is cut at its end, where the code would read on in its buffer.
- DnsNames.Expand: a pointer must lead backwards, as section 4.1.4 of RFC 1035 has it; what the library does with other pointers is not modelled.
- SrvParser.ParseSrvResponse: where the code would read past the message or use a target name that failed to expand, the outcome is `Unspecified`.
- Record types and data lengths of DNS answers: the parser ignores them; weighted selection among equal priorities and priorities of 9999 and above are not implemented by the code.
- OutputBuffer.OldSocket.DoWrite: the channel takes no bytes when it answers EAGAIN; truncation of lengths to 32 bits is not modelled.
- `SocketConnect.Socket`: the handle, the channel and the watches are not kept, because old watches outlive the attempt they were made for; every callback may therefore come at any time, signal handlers do not call back into the socket, and the lookup's result comes once.
- Reference counts, object finalization, the main loop, and the GnuTLS, channel and blocking-resolver files: wrappers whose behaviour lies in libraries.
