# Verified model of the gatt library

The library is a Bluetooth Low Energy GATT stack in Go. This project models its Linux
stack, from the attribute table down to the ACL packets, together with the client that
talks to it, the advertising code and the registry of its Android server, and proves what
these parts promise when both ends of each protocol are put together.

How the model is laid out, bottom up:

- `bytes.dfy`, `att.dfy`: octets and 16-bit words, Attribute Protocol constants, the
  client's matcher of replies.
- `response_writers.dfy`: the writer bounded by the MTU, and the buffer read handlers fill.
- `attribute_table.dfy`: laying services out on handles, looking handles and ranges up.
- `replies.dfy`: what the server answers, as functions of table, MTU, handlers and request;
  `server.dfy`: the server's handlers, which drive the writer in loops and are proved to send
  exactly that.
- `reply_bytes.dfy`: the same answers said octet by octet, without those functions.
- `discovery.dfy`, `client_rounds.dfy`, `peripheral.dfy`: what discovery requests find in a
  generated table, round by round, and the client's loops, run against a server.
- `exchange.dfy`, `notifiers.dfy`, `acl_credits.dfy`, `hci_commands.dfy`: the concurrent
  protocols, as steps; the theorems range over every possible run.
- `l2cap.dfy`, `hci_demux.dfy`: fragmentation in place, reassembly, several connections.
- `adv_packet.dfy`, `advertising.dfy`, `adv_reports.dfy`: building and parsing advertising
  data, what a scanner reads of it, the advertising report event.
- `local_device.dfy`: the device, which rebuilds the table when services are added and tells
  the controller what to advertise.
- `jni_registry.dfy`: centrals and notifiers of the Android server.

An object whose methods change it in the library is a class here (the writers, the server's
connection, the client, an L2CAP connection, the HCI demultiplexer, the packet builder, the
device, the records of advertisers, the registry). Each of its methods is proved against a function of the old state, and
the theorems are about those functions.

## Assumptions

These are what the code itself needs of its callers, and appear as preconditions.

- Service, characteristic and descriptor UUIDs have 2 or 16 bytes; no user characteristic or
  descriptor is typed 0x2800 or 0x2803 and no characteristic is typed 0x2902; the table fits
  below handle 0xFFFF (`Discovery.Publishable`).
- Requests are long enough for their opcode, the slice a range request cuts is not reversed,
  and a read or a write reaches only handlers that are installed (`Replies.Answerable`).
- L2CAP payloads have at most 65535 bytes, connection handles 12 bits, and writes on one
  connection are serialized.
- An advertising field is appended only when two bytes are free.
- The bodies of user handlers are parameters: one request sees a function `Replies.Env`, and
  the status a read handler may set is ignored, as in the library.
- The controller reports only packets it holds, and drops those of connections it does not have.

## Where the code does not do what it promises

- `Subrange` is documented not to panic. It panics exactly when the range is backwards by
  more than one and starts inside the table: `Discovery.RangePanicsIff`. A client can ask for
  such a range: `BackwardsRequestPanics`.
- A comment says declarations are read only. A write to the handle of a characteristic's
  declaration reaches the write handler exactly when the characteristic is writable:
  `ClientRounds.DeclarationWriteReachesHandler`.
- Descriptor write handlers never run; the write reports success:
  `ClientRounds.DescriptorWriteIsIgnored`.
- A Write Command is answered, although nobody waits for the reply, exactly when it fails:
  `StrayReplyIffCommandFails`. No such reply is ever consumed: the client sends it back and it
  is answered again (`StraysAreConserved`), and while no request is outstanding it keeps
  notifications from the subscribers (`StrayBlocksReader`). It never reaches a caller
  (`CallersGetTheirReplies`).
- Tokens of packets in flight when a connection ends, and of packets written after it has ended,
  are never given back; writers are blocked for ever exactly when all 14 are lost:
  `BlockedIffAllLost`, `TokensCanAllBeLost`. When no connection is made any more, the tokens of
  writers on ended connections count as well: `BlockedWithoutConnectionsIff`.
- A request longer than the server's read buffer closes the server's side; it is never answered,
  and nobody is served after it: `LongRequestHangs`.
- Commands carry no number, so an event can answer another command than its own. The k-th event
  of an opcode resolves the k-th command with it exactly when no event up to it came before its
  command: `KthEventResolvesKthSend`; one early event shifts all later ones: `EarlyEventShifts`.
- A name that fits the advertising data leaves an older scan response in place, and a scanner
  reads that older name exactly when the two show differently:
  `LocalDevice.Device.AdvertiseNameAndServices`, `StaleNameIsRead`.
- Advertising data can crash its reader: exactly when the first field that cannot be read has the
  length byte 255, is an empty flags or power field, or is service data shorter than its UUID:
  `WalkOutcome`.
- Service data is copied from byte 2 whatever the size of the UUID: `ServiceDataIsTail`.

Two more conditions are proved exactly, but cannot fail between parts of this library: a long
read would stop early for a client told a larger MTU than its server uses
(`Client.ReadLongCharacteristic`), and removing the notifiers of an address would reach another
address that ends with a colon and the first (`OtherAddressHitIff`).

## Model

| member | source | states |
|---|---|---|
| `ResponseWriters.L2capWriter.Commit` | l2cap_writer_linux.go:38-50 | a chunk goes out whole iff it fits the MTU, and is gone either way |
| `ResponseWriters.L2capWriter.CommitFit` | l2cap_writer_linux.go:55-66 | the longest prefix of the chunk that fits is written |
| `ResponseWriters.L2capWriter.WriteFit` | l2cap_writer_linux.go:115-127 | all of a write goes into an open chunk; otherwise the prefix that fits, reporting truncation |
| `ResponseWriters.L2capWriter.ChunkSeek` | l2cap_writer_linux.go:133-143 | drops an offset from the chunk, or empties it and reports that it was too short |
| `ResponseWriters.Collect` | central.go:47-52 | a buffer keeps exactly the writes that fit whole, in order, within its capacity |
| `ResponseWriters.CollectStep` | central.go:47-52 | a write that fits is added, one that does not leaves no trace, later ones are not affected |
| `ResponseWriters.ResponseWriter.Serve` | central.go:47-55 | a handler's writes leave what `Collect` says |
| `AttributeTable.GenerateDescAttributes` | attr.go:154-167 | a descriptor gets its handle; a string value replaces the value |
| `AttributeTable.GenerateCharAttributes` | attr.go:126-152 | declaration, value and descriptors on consecutive handles |
| `AttributeTable.GenerateServiceAttributes` | attr.go:98-124 | a service's rows and range; the last one ends at 0xFFFF |
| `AttributeTable.GenerateAttributes` | attr.go:85-96 | the services with every handle assigned, and exactly their rows |
| `AttributeTable.GeneratedIndexed` | attr.go:85-167 | attribute i of a generated table has handle base+i, one per attribute |
| `AttributeTable.ServiceRangesPartition` | attr.go:98-124 | service ranges are adjacent, disjoint and cover base..0xFFFF |
| `AttributeTable.AtFindsExactly` | attr.go:35-52 | a lookup finds precisely the attribute with that handle |
| `AttributeTable.AttrRange.Subrange` | attr.go:54-74 | the slice is reversed, and panics, exactly when base <= end+1 < start < base+n |
| `AttributeTable.SubrangeIsScan` | attr.go:54-74 | whenever it does not panic, a range is the filter start <= handle <= end |
| `Discovery.RangePanicsIff` | attr.go:54-74 | in a generated table a range panics iff it is backwards by more than one and starts inside the table |
| `Discovery.BackwardsRequestPanics` | attr.go:54-74 | Find Information from 5 to 2 at a server of two characteristics panics |
| `LocalDevice.PlaceAgain` | device_linux.go:156-160 | adding to services that already have handles gives the same table as generating afresh |
| `LocalDevice.HandlesStay` | device_linux.go:156-160 | adding a service gives every earlier service, characteristic and descriptor the handle it had; only the last range ends earlier |
| `LocalDevice.Device.AddService` | device_linux.go:156-160 | the table is that of all services added, in order |
| `LocalDevice.Device.SetServices` | device_linux.go:168-173 | the table is that of exactly the services set |
| `LocalDevice.Device.RemoveAllServices` | device_linux.go:162-166 | no services, no table |
| `Replies.FindIsAt` | attr.go:45-52 | the reference lookup agrees with the index |
| `Replies.FitIsLongest` | central_linux.go:117-148 | the entries taken are the longest prefix of one size that fits |
| `Replies.ListReplyIsLongestPrefix` | central_linux.go:117-239 | a list reply decodes to the longest prefix of the matches in range with one entry size that fits the MTU; it is non-empty exactly when the first entry fits |
| `Replies.ServiceListsAreNonEmpty` | central_linux.go:117-189 | service lists and handle-UUID lists are never cut to nothing |
| `Replies.ReplyFits` | central_linux.go:77-113 | every reply fits the MTU in force after the request, and that stays in 23..256 |
| `Replies.EveryRequestIsAnswered` | central_linux.go:77-102 | every request but a Write Command gets one reply, accepted by the client's matcher and never a notification |
| `Replies.CommandReply` | central_linux.go:359-418 | a Write Command is silent exactly when it does not fail |
| `ReplyBytes.MtuIsGranted` | central_linux.go:104-113 | an MTU wish within 23..256 is granted, a smaller one becomes 23, a larger one 256 |
| `ReplyBytes.OnlyMtuRequests` | central_linux.go:77-113 | no other request changes the MTU |
| `ReplyBytes.AcceptedOctets` | peripheral_linux.go:538-541 | a reply is taken iff it has the opcode behind the request's, or is an error that names the request |
| `ReplyBytes.UnknownIsUnsupported` | central_linux.go:96-99 | unknown opcodes get error 6 and change nothing |
| `ReplyBytes.OtherGroupIsUnsupported` | central_linux.go:320-329 | groups other than primary services get error 0x10 with the start handle |
| `ReplyBytes.OtherTypeIsNotFound` | central_linux.go:152-162 | types other than primary services get error 0x0A with the start handle |
| `ReplyBytes.MissingIsInvalid` | central_linux.go:243-371 | reads and writes of a missing handle get error 1 and change nothing |
| `ReplyBytes.UnpermittedIsRefused` | central_linux.go:243-376 | reads without property bit 1 get error 2, writes without bit 3 and Write Commands without bit 2 error 3 |
| `ReplyBytes.StoredOctets` | central_linux.go:243-277 | a read of a stored value |
| `ReplyBytes.StoredOctetsFrom` | central_linux.go:280-318 | a read from an offset: the rest, cut to the MTU, or error 7 behind the end |
| `ReplyBytes.ServedOctets` | central_linux.go:243-318 | what a handler writes in one go, if it fits |
| `ReplyBytes.WriteOctets` | central_linux.go:359-403 | a write is answered with the handler's status, a Write Command is not |
| `ReplyBytes.SubscribeOctets` | central_linux.go:405-418 | two octets with one of the lower two bits subscribe, other two octets unsubscribe, other lengths get error 0x0D |
| `ReplyBytes.ServicesAreFoundByUuid` | central_linux.go:152-189 | for any range, the handle ranges of exactly the services with the UUID asked for, in order, as many as fit; an error iff there is none |
| `ReplyBytes.ServicesAreListed` | central_linux.go:320-357 | for any range, the handle ranges and UUIDs of exactly the services in it, as many of one size as fit |
| `ReplyBytes.TypesAreListed` | central_linux.go:117-148 | for any range and table, handles and types in order, as many of one size as fit |
| `ReplyBytes.ValuesAreListed` | central_linux.go:192-239 | for any range, table and type, handles and values of exactly the attributes of that type |
| `Server.FillIsFit` | central_linux.go:117-148 | filling a response entry by entry gives header plus the longest fitting prefix |
| `Server.FindInfoIn` | central_linux.go:123-148 | the Find Information loop sends exactly the specified list |
| `Server.FindServicesIn` | central_linux.go:163-189 | the Find By Type Value loop sends exactly the specified list |
| `Server.GroupsIn` | central_linux.go:330-356 | the Read By Group loop sends exactly the specified list |
| `Server.TypesIn` | central_linux.go:196-239 | the Read By Type loop sends exactly the specified list, handler values included, whenever the attributes it gets to have a value or a handler |
| `Server.ReadResponse` | central_linux.go:272-276 | a read sends the value cut to the MTU |
| `Server.BlobResponse` | central_linux.go:308-317 | a blob read sends the rest from the offset, cut to the MTU, or an offset error |
| `Server.Central.HandleMtu` | central_linux.go:104-113 | the MTU becomes the request clamped to 23..256, said outright, and is what the reply says |
| `Server.Central.HandleFindInfo` | central_linux.go:117-148 | Find Information over the attributes scanned in range |
| `Server.Central.HandleFindByTypeValue` | central_linux.go:152-189 | services by UUID in range; other types are not found |
| `Server.Central.HandleReadByType` | central_linux.go:192-239 | values by type in range |
| `Server.Central.HandleReadByGroup` | central_linux.go:320-357 | primary services in range; other groups are unsupported |
| `Server.Central.HandleRead` | central_linux.go:243-277 | a value, or the error for a missing handle or a missing permission |
| `Server.Central.HandleReadBlob` | central_linux.go:280-318 | part of a value, or the matching error |
| `Server.AnswerableIsHandleable` | central_linux.go:192-239 | it is enough that every attribute of the type in range has a value or a handler |
| `Server.Central.HandleWrite` | central_linux.go:359-419 | the reply of a write and what it does to subscriptions, and to no other |
| `Server.Central.StartNotify` | central_linux.go:442-452 | a second start keeps the notifier that is there |
| `Server.Central.StopNotify` | central_linux.go:454-462 | the notifier is stopped and forgotten, all others untouched |
| `Server.Central.HandleReq` | central_linux.go:77-102 | reply, MTU and subscriptions after any request on which the server does not panic |
| `Server.Central.SendNotification` | central_linux.go:421-436 | one PDU: opcode, value handle low octet first, then the data cut to the MTU; and the count of data bytes |
| `Server.Central.Notify` | central.go:144-151 | a stopped notifier sends nothing and fails; a live one sends such a PDU under its value handle |
| `Server.Central.Close` | central_linux.go:45-52 | every subscription is stopped |
| `Server.Central.Loop` | central_linux.go:58-75 | the replies written are those of a run of the specification; a read that is empty or too long for the buffer closes |
| `Server.EveryRun` | central_linux.go:58-113 | in every run the replies are one for each request that awaits one, in order, matching and within the MTU |
| `Discovery.PlacedIsServed` | attr.go:85-167 | generation lays any publishable database out in order without overlap |
| `Discovery.PublishedTableServes` | attr.go:85-167 | the table of a publishable database is indexed and typed as a connection needs |
| `Discovery.WellFormedIsAnswerable` | central_linux.go:77-102 | with its handlers installed, a server of it answers every well-formed request without a panic |
| `Discovery.GroupsSelected` | central_linux.go:320-357 | a service request finds exactly the services from its start on |
| `Discovery.DeclarationsSelected` | central_linux.go:192-239 | a declarations request finds exactly the characteristics left of its service |
| `Discovery.DescriptorsSelected` | central_linux.go:117-148 | a descriptor request finds exactly the descriptors left of its characteristic |
| `Discovery.GroupsReply` | central_linux.go:320-357 | a service reply is a non-empty run of the services that are left, under any MTU >= 23 |
| `Discovery.CharsReply` | central_linux.go:192-239 | asked for the rest of a service, the reply is a non-empty run of its characteristics from there on |
| `Discovery.DeclarationListsAreNonEmpty` | central_linux.go:192-239 | for any range in which a declaration matches, the reply is the longest non-empty list that fits, whose longest entry just does |
| `Discovery.DescsReply` | central_linux.go:117-148 | the same for descriptors |
| `ClientRounds.AscendingPairs` | peripheral_linux.go:62-283 | in a discovery loop every request starts strictly after the one before, and at most one past its end |
| `ClientRounds.FinishOctets` | peripheral_linux.go:42-60 | an error ends a loop iff it names request and handle; any error but 0x0A is reported |
| `ClientRounds.ServicesReply` | peripheral_linux.go:65-109 | one round lists a prefix of the services left, ends iff it lists the last, and says where to go on |
| `ClientRounds.CharsRound` | peripheral_linux.go:169-221 | the same for characteristics |
| `ClientRounds.DescsRound` | peripheral_linux.go:232-281 | the same for descriptors, ranges one past their end included |
| `ClientRounds.CharsHeld` | peripheral_linux.go:460-467 | each declaration is found in its own service and no earlier one |
| `ClientRounds.WithServicesAt` | peripheral_linux.go:91-107 | services are recorded one by one, in order |
| `ClientRounds.FoundCharsAt` | peripheral_linux.go:193-225 | each characteristic has its UUID, properties, handles, and ends where the next starts |
| `ClientRounds.ListedAgainAt` | peripheral_linux.go:164-226 | asking again lists the characteristics again behind those known, which stay |
| `ClientRounds.LaterEntryGetsNone` | peripheral_linux.go:193-225 | asked for by a later entry of a service listed twice, its characteristics still join the first entry |
| `ClientRounds.WithDescsAt` | peripheral_linux.go:265-280 | every descriptor is recorded, in order, and the last CCC descriptor is remembered |
| `ClientRounds.LastCccIsLast` | peripheral_linux.go:272-276 | the descriptor remembered is one of them, of CCC type, and none after it is |
| `ClientRounds.DescribedFields` | peripheral_linux.go:164-283 | all a client ends up with for a characteristic: UUID, properties, handles, range, every descriptor, and its CCC descriptor if it has one |
| `ClientRounds.PlacedContents` | attr.go:98-167 | generation keeps UUIDs, properties, values and handlers and adds consecutive handles |
| `ClientRounds.DiscoveredIsPublished` | peripheral_linux.go:62-283 | a rebuilt service is the published one: UUIDs, properties, handles, ranges, descriptors |
| `Peripheral.Client.constructor` | device_linux.go:111-120 | a new connection knows nothing, and believes in no MTU larger than its server's |
| `Peripheral.Client.DiscoverServices` | peripheral_linux.go:62-111 | all services with their ranges, in order, by ascending requests |
| `Peripheral.Client.SearchService` | peripheral_linux.go:460-467 | the first service whose range holds both handles |
| `Peripheral.Client.DiscoverCharacteristics` | peripheral_linux.go:164-226 | all characteristics of one service by ascending requests: they join those known of the first entry of that service, and nothing else changes but the end of the last range of the entry asked for |
| `Peripheral.Client.DiscoverDescriptors` | peripheral_linux.go:228-283 | all descriptors of one characteristic and nothing else changed, by ascending requests |
| `Peripheral.Discover` | peripheral_linux.go:62-283 | for every publishable database and server MTU in 23..256, the client of a new connection finds the services, characteristics and descriptors published |
| `ClientRounds.ValueReads` | central_linux.go:243-318 | a static value, or one served by a read handler, can be read from every offset |
| `ClientRounds.CharValueIsRead` | central_linux.go:243-318 | that holds for every readable characteristic of a generated table, static or served, by its value handle |
| `ClientRounds.ServiceDeclarationIsRead` | attr.go:98-110 | a service declaration reads as its UUID |
| `ClientRounds.CharDeclarationIsRead` | attr.go:126-140 | a readable characteristic's declaration reads as properties, value handle and UUID |
| `ClientRounds.DescriptorIsRead` | attr.go:154-167 | a readable descriptor reads as its string if it has one, else as its value |
| `ClientRounds.UnreadableIsRefused` | central_linux.go:243-252 | a missing handle, or one without read permission, is refused with the error that says so |
| `ClientRounds.FoundByHandle` | attr.go:45-52 | every declaration, value and descriptor of a generated table is found under its own handle |
| `ClientRounds.ValueWriteIsHandled` | central_linux.go:359-403 | a write or Write Command to a value handle runs that characteristic's handler, whose status is the reply, and changes no subscription |
| `ClientRounds.DeclarationWriteReachesHandler` | central_linux.go:380-403 | in a generated table, a write to a declaration's handle runs the value's handler iff the characteristic is writable, and is refused otherwise |
| `ClientRounds.DescriptorWriteIsIgnored` | central_linux.go:380-403 | in a generated table, a write to a writable ordinary descriptor reports success whatever the handlers, and reaches none |
| `ClientRounds.SubscriptionIsForItsValue` | central_linux.go:405-462 | two bytes written to a CCC descriptor start or stop notifications of the value it belongs to; other lengths are refused |
| `Peripheral.Client.ReadCharacteristic` | peripheral_linux.go:285-298 | the value cut to one reply, or the server's error |
| `Peripheral.Client.ReadLongCharacteristic` | peripheral_linux.go:300-344 | every client gets the whole value; one told a larger MTU than its server uses gets what one reply holds; a refusal is an error |
| `Peripheral.Client.SetMTU` | peripheral_linux.go:593-613 | a wish within 23..256 becomes the MTU of both ends, a smaller one the client's, a larger one 256 for both |
| `Exchange.ExchangeIsSequential` | peripheral_linux.go:485-591 | in every interleaving, failing Write Commands included: one request outstanding, exactly its reply on the way back, all earlier calls answered as by a server asked one at a time; subscribers get notifications only |
| `Exchange.AnsweredAt` | central_linux.go:77-113 | calls made one at a time, each answered under the MTU agreed before it |
| `Exchange.CallersGetTheirReplies` | peripheral_linux.go:485-591 | the i-th reply is the server's to the i-th request, under the MTU after all earlier requests |
| `Exchange.CallerCanBeAnswered` | peripheral_linux.go:485-591 | from any reachable state with an open server, whatever is under way, some run gives the waiting caller its reply |
| `Exchange.SentIsHopeful` | central_linux.go:58-69 | sending up to 672 octets to an open server leads to such a state |
| `Exchange.ExchangeIsAnswer` | peripheral_linux.go:485-591 | under fixed handlers each caller gets what asking the peer directly gives, with the MTU carried from call to call |
| `Exchange.StraysAreConserved` | peripheral_linux.go:543-552 | in every interleaving there are exactly as many unexpected replies going round as Write Commands that failed |
| `Exchange.NoFailuresNoStrays` | peripheral_linux.go:543-552 | without failing Write Commands there are no strays, and the reader holds nothing but the reply awaited |
| `Exchange.StrayBlocksReader` | peripheral_linux.go:558-573 | a stray held while no request is outstanding keeps everything after it from subscribers |
| `Exchange.NotificationsArrive` | central_linux.go:421-436 | what subscribers have got and what is on its way are, in order, exactly the notifications sent |
| `Exchange.LongRequestHangs` | central_linux.go:58-69 | a request that does not fit the server's read buffer is never answered, and nobody is after it |
| `Exchange.MatchKeeps` | peripheral_linux.go:543-552 | a reply is accepted iff it is no stray, and then it is the server's reply to the outstanding request under the MTU in force |
| `Exchange.ServeKeeps` | central_linux.go:58-75 | serving one packet keeps the exchange sequential |
| `Exchange.NotifyKeeps` | central_linux.go:421-436 | so does a notification at any moment |
| `Exchange.FetchKeeps` | peripheral_linux.go:566-581 | so does the client's reader, which never hands a notification to a requester |
| `Exchange.StrayReplyIffCommandFails` | central_linux.go:359-418 | a command on a quiet connection leaves a stray reply iff it fails and fits the server's read buffer |
| `Notifiers.EveryRunIsGood` | central_linux.go:442-462 | in every interleaving no handle has two live notifiers, and senders and stops exclude each other |
| `Notifiers.StoppedIsFinal` | central.go:144-167 | a stopped notifier stays stopped and sends nothing more |
| `Notifiers.LiveNotifierSends` | central.go:144-151 | a live notifier whose lock is not held by a stop can send |
| `Notifiers.StoppedNotifierDoesNotSend` | central.go:144-151 | a stopped one gives up |
| `Notifiers.UnsubscribeReturns` | central_linux.go:454-462 | when unsubscribing returns, nothing of that notifier is under way or will ever go out |
| `L2cap.Conn.Write` | linux/l2cap.go:124-159 | the device receives exactly the fragments, although headers overwrite the buffer in place |
| `L2cap.Conn.WritePayload` | linux/l2cap.go:174-176 | a user's payload goes out on channel 4 |
| `L2cap.FragmentsAre` | linux/l2cap.go:138-156 | fragment i carries its part of the PDU, full but for the last, flagged a continuation but for the first |
| `L2cap.PacketOctets` | linux/l2cap.go:143-147 | packet type, handle and flags, length, low octets first |
| `L2cap.SduOctets` | linux/l2cap.go:128-136 | length and channel, low octets first, then the payload |
| `L2cap.Conn.Receive` | linux/l2cap.go:60-106 | one fragment: the complete PDUs are delivered, the rest is kept |
| `L2cap.Conn.Loop` | linux/l2cap.go:48-107 | a stream of fragments, one after the other, then the end of the payloads |
| `L2cap.Conn.Read` | linux/l2cap.go:161-172 | the oldest payload, cut with an error when the buffer is too short; the end of file once the connection has ended and all payloads are read |
| `L2cap.UnmarshalPacket` | linux/l2cap.go:19-34 | decoding inverts the packet header for 12-bit handles |
| `L2cap.UnmarshalIff` | linux/l2cap.go:19-34 | a packet is refused iff its length field is wrong |
| `L2cap.AnyCutReassembles` | linux/l2cap.go:54-107 | a PDU cut anywhere, behind any start (not flushable, flushable, complete), is delivered once from any residual buffer, signals never, and the buffer ends empty |
| `L2cap.UncutArrives` | linux/l2cap.go:71-105 | a whole PDU drops the residue of a cut one, whatever its start flag |
| `L2cap.FragmentsReassemble` | linux/l2cap.go:54-159 | what this library sends reassembles to its payload from any residual buffer |
| `L2cap.ParseSplit` | linux/l2cap.go:80-105 | parsing may stop anywhere and go on when more has arrived |
| `L2cap.ReassemblyIsOneShot` | linux/l2cap.go:60-106 | incremental reassembly delivers what parsing each start-and-continuations group once gives |
| `HciDemux.Hci.HandleL2cap` | linux/hci.go:452-469 | only the connection named in the header sees a packet |
| `HciDemux.RoutedIsProjection` | linux/hci.go:452-469 | each connection behaves as if alone with its own packets |
| `HciDemux.MergedProjects` | linux/hci.go:452-469 | of merged streams with different handles, the packets that decode to a handle are its own stream |
| `HciDemux.StrangersSeeNothing` | linux/hci.go:452-469 | packets with other handles leave a connection as it was |
| `HciDemux.ConnectionsDoNotDisturbEachOther` | linux/hci.go:452-469 | whatever order the packets of streams with different handles arrive in, and however their PDUs are cut, every connection delivers exactly the payloads of its own stream, in order |
| `AclCredits.EntriesOfEncode` | linux/event/event.go:244-257 | decoding the completion event inverts its layout |
| `AclCredits.EntryOctets` | linux/event/event.go:244-257 | octet by octet: 12-bit handle, count, low octets first |
| `AclCredits.MissingOctets` | linux/event/event.go:244-257 | octets missing at the end read as zero |
| `AclCredits.Credits.Unmarshal` | linux/event/event.go:244-257 | as many entries as announced; missing bytes read as zero |
| `AclCredits.Credits.HandleNumberOfCompletedPkts` | linux/hci.go:332-343 | one token back for every packet reported |
| `AclCredits.CreditsAreConserved` | linux/hci.go:73-74 | over all interleavings tokens are conserved, the controller holds at most 14 packets, a completion handler never blocks, and no token is lost before a connection ends |
| `AclCredits.BlockedIffAllLost` | linux/hci.go:388-406 | a writer is blocked for ever iff all 14 tokens are lost, to packets in flight when their connection ended or written after it had |
| `AclCredits.BlockedWithoutConnectionsIff` | linux/l2cap.go:138-156 | the same without new connections, where tokens of writers whose connection has ended count as lost |
| `AclCredits.SomeWriterCanGoOn` | linux/l2cap.go:149-152 | while a token can still come back, every writer can be let through, with or without new connections |
| `AclCredits.TokensCanAllBeLost` | linux/hci.go:388-406 | two runs that lose them all: a connection that ends with 14 packets in flight, and 14 writes after it has ended |
| `HciCommands.Cmd.Send` | linux/cmd/cmd.go:76-93 | a command joins the end of the pending list |
| `HciCommands.Cmd.HandleEvent` | linux/cmd/cmd.go:111-142 | an event resolves and removes the first pending command with its opcode, or changes nothing |
| `HciCommands.FirstInFirstOut` | linux/cmd/cmd.go:76-142 | per opcode, resolved and pending commands together are those sent, in order |
| `HciCommands.OnlyItsOpcode` | linux/cmd/cmd.go:111-142 | an event resolves a command iff it carries its 16-bit opcode |
| `HciCommands.PendingIsUnresolved` | linux/cmd/cmd.go:76-142 | over all opcodes, what is pending is exactly the commands not yet resolved, in the order sent |
| `HciCommands.KthEventResolvesKthSend` | linux/cmd/cmd.go:111-142 | the k-th event of an opcode resolves its k-th command iff no prefix of the run with at most k+1 such events has more of them than commands |
| `HciCommands.FoundIffInStep` | linux/cmd/cmd.go:111-142 | all events up to the k-th find a command iff events never run ahead of commands |
| `HciCommands.EarlyEventShifts` | linux/cmd/cmd.go:111-142 | event, command, event: the second event answers the first command |
| `HciCommands.ResolvedAtMostOnce` | linux/cmd/cmd.go:111-142 | no command is resolved twice |
| `AdvData.Advertisement.Unmarshall` | adv.go:2430-2511 | the fields of any packet applied in turn, with the malformed and crashing inputs told apart |
| `AdvData.FlagsAreRead` | adv.go:2467-2468 | flags are the first octet of their field; nothing else changes |
| `AdvData.TxPowerIsRead` | adv.go:2485-2486 | so is the transmission power |
| `AdvData.NamesAreRead` | adv.go:2481-2484 | a name ends with its field or before its first zero |
| `AdvData.ServiceListsAreRead` | adv.go:2469-2480 | UUIDs of 2, 4 and 16 octets join the services; a ragged list loses them all |
| `AdvData.SolicitedListsAreRead` | adv.go:2487-2492 | the same for solicited services |
| `AdvData.ServiceDataIsRead` | adv.go:2448-2506 | service data of 2, 4 and 16 octet UUIDs |
| `AdvData.ManufacturerIsRead` | adv.go:2493-2500 | manufacturer data whole, its first two octets the company |
| `AdvData.OthersAreSkipped` | adv.go:2507-2508 | fields of other types change nothing |
| `AdvData.WalkOutcome` | adv.go:2454-2511 | a packet crashes the reader, or is refused, iff the first field that cannot be read is a crashing, or a malformed, one |
| `AdvData.UuidListIsAll` | adv.go:2433-2446 | a UUID list is all of its bytes iff they divide evenly; otherwise everything listed so far is lost |
| `AdvData.ServiceDataIsTail` | adv.go:2448-2452 | service data is what follows the UUID iff the UUID has 2 bytes |
| `AdvData.AdvPacket.AppendField` | adv.go:2544-2554 | one field is added, its data cut to the room left; at most 31 bytes |
| `AdvData.AdvPacket.AppendName` | adv.go:2563-2569 | a complete name, or a shortened one cut to the room left |
| `AdvData.NameOctets` | adv.go:2544-2569 | a complete name field, or a shortened one that fills 31 octets |
| `AdvData.AdvPacket.AppendManufacturerData` | adv.go:2572-2575 | company and data as one field when they fit |
| `AdvData.AdvPacket.AppendUUIDFit` | adv.go:2579-2613 | true iff every service UUID fits; appended are those that fit, in order |
| `AdvData.UuidOctets` | adv.go:2593-2611 | one field for each UUID, typed complete iff all fit |
| `AdvData.ServicesLeftOut` | adv.go:2579-2595 | exactly 0x1800 and 0x1801 are never advertised |
| `AdvData.AppendedSplitsBack` | adv.go:2454-2554 | any sequence of appended fields stays within 31 bytes and is read back as exactly those fields, cut ones included |
| `AdvData.WalkIsApplyAll` | adv.go:2454-2511 | reading a packet back applies its fields one after the other |
| `AdvData.TakenIsLongestPrefix` | adv.go:2579-2613 | what is appended is the longest prefix of the UUIDs that fits, all of them iff all fit |
| `AdvData.TakenFields` | adv.go:2593-2611 | each appended UUID is read back as one field |
| `LocalDevice.Device.AdvertiseNameAndServices` | device_linux.go:188-206 | what a scanner then reads on any device: flags, the services that fit, and a name, the right one iff it went into the scan response, or none is held, or that shows the same |
| `LocalDevice.Device.AdvertiseNameAndIBeaconData` | device_linux.go:208-226 | the same for a beacon, which is cut to the room there is |
| `LocalDevice.Device.AdvertiseIBeacon` | device_linux.go:236-245 | a reader finds the company and exactly the beacon asked for |
| `LocalDevice.Device.Update` | device_linux.go:281-301 | the controller keeps what it is not told to change |
| `Advertising.WhatAScannerReads` | device_linux.go:188-226 | whatever comes first in the packet, a scanner reads that and one name: the new one, or an older scan response |
| `Advertising.NameIsPlaced` | device_linux.go:193-203 | a name goes into the advertising data iff it leaves an octet free there, else up to 29 octets of it into the scan response |
| `Advertising.BeaconOctets` | device_linux.go:208-234 | flags, company 0x004C and up to 24 octets of payload |
| `Advertising.BeaconPayload` | device_linux.go:236-245 | the beacon: type, UUID last octet first, both numbers high octet first, power |
| `Advertising.ServicesAreRead` | device_linux.go:188-206 | flags and the services that fit, in order, and the name up to 29 bytes |
| `Advertising.BeaconIsRead` | device_linux.go:208-234 | the company and the beacon payload, and the name up to 29 bytes |
| `Advertising.StaleNameIsRead` | device_linux.go:193-203 | a long name followed by a short one: the long one is still read |
| `AdvReports.LEAdvertisingReportEP.Unmarshal` | linux/event/event.go:300-354 | total: an error, or the five columns read within bounds |
| `AdvReports.DecodeInvertsEncode` | linux/event/event.go:300-354 | the event that carries any list of up to 255 reports decodes to exactly that list |
| `AdvReports.OneReportOctets` | linux/event/event.go:300-354 | one report octet by octet, the address last octet first, the signal strength signed |
| `AdvReports.Scanner.HandleReports` | linux/hci.go:291-330 | the records kept and the handler calls, report by report; a record handed to a handler is the one kept, and later only grows |
| `AdvReports.AdvertisementStarts` | linux/hci.go:318-328 | an advertisement starts its record afresh: address and type, data, strength, connectable for event types 0 and 1 |
| `AdvReports.ResponseExtends` | linux/hci.go:306-316 | a scan response adds its data to that record, or is ignored |
| `AdvReports.AdvertisersAreSeparate` | linux/hci.go:300-328 | the record of an advertiser depends on its own reports alone |
| `AdvReports.ResponsesExtend` | linux/hci.go:306-314 | an advertisement followed by scan responses holds all their data, in order |
| `JniRegistry.Central.Close` | android/jni/central.go:47-62 | the device reference is deleted exactly once however often it is closed |
| `JniRegistry.ServerNotifier.Write` | android/jni/gatt_server.go:70-122 | a notification goes out only while neither the notifier is stopped nor its central closed |
| `JniRegistry.GattServerState.PopNotifiersForCentralAddress` | android/jni/gatt_server.go:145-164 | exactly the notifiers of the address, or whose key ends with it, are taken out |
| `JniRegistry.OwnAddressIsHit` | android/jni/gatt_server.go:141-164 | the key of a notifier ends with a colon and its address |
| `JniRegistry.GattServerState.RememberConnectedCentral` | android/jni/gatt_server.go:166-191 | the registry stays sound; a replaced central is closed and its notifiers stopped, the current one is left alone, other addresses keep their references |
| `JniRegistry.GattServerState.DisconnectCentral` | android/jni/gatt_server.go:193-212 | the registry stays sound; the central is closed and its notifiers stopped |
| `JniRegistry.GattServerState.FindCentral` | android/jni/gatt_server.go:1000-1018 | the current central, or a new one that becomes current |
| `JniRegistry.GattServerState.HandleCCCDWrite` | android/jni/gatt_server.go:872-937 | one subscription is ended or replaced, all others stay live |
| `JniRegistry.GattServerState.CloseCentrals` | android/jni/gatt_server.go:214-230 | every central ever registered has had its reference deleted exactly once |
| `JniRegistry.GattServerState.CloseGattServer` | android/jni/gatt_server.go:353-373 | every notifier ever created is stopped, every central closed |
| `JniRegistry.GattServerState.UserClose` | android/jni/central.go:47-62 | a central closed by user code leaves the registry sound |
| `JniRegistry.OtherAddressHitIff` | android/jni/gatt_server.go:145-164 | another address loses notifiers iff it ends with a colon and the address removed |
| `JniRegistry.EqualLengthAddressesAreSeparate` | android/jni/gatt_server.go:145-164 | addresses of one length never disturb each other |

## Left out

- `Service`, `Characteristic` and `Descriptor` are values here: the handles the library stores in
  them come back as a new list, and table rows carry the handles of their owner instead of a
  pointer. Not captured: aliasing of one object in two services.
- LocalDevice.Device.AddService: services are values, so that generating the table writes to
  objects an older table shares is not captured; `HandlesStay` shows that it writes the handles
  they had, except the end of the last service.
- Client records of services, characteristics and descriptors are values held by the client,
  addressed by index instead of by pointer.
- AttributeTable.GenerateAttributes: handles do not wrap around at 0xFFFF; the theorems ask that
  the table fits, which the library needs too.
- ClientRounds.Serves: the client's transport is the server's reply function; that the two
  goroutines and the link queues implement it, for handlers that answer the same while it is
  used, is `Exchange.ExchangeIsAnswer`.
- Replies.Answerable: the condition under which a client relies on an answer asks every attribute
  of the type in range to be readable; the server itself needs less, `Server.Handleable`.
- Peripheral.Discover: the discovery of a new connection; a second one is covered loop by loop.
- AdvReports.Scanner.HandleReports: report events are handled one after another, while the library
  starts a goroutine for each.
- Filtered discovery, included services, descriptor reads and writes by the client, and
  subscriptions on the client side.
- L2CAP signals: recognised and dropped, as in the code; the connection parameter update the
  host may send is not modelled.
- The bounded channels between the HCI loop, a connection and its reader: delivery never blocks
  here.
- Cancellation by context and failing device writes; liveness beyond what can happen next: that a
  writer can go on, a caller be answered, a notifier send.
- The check of a command's status byte in `SendAndCheckResp`.
- Security levels: generated attributes never ask for any.
- The table of company names, UUID names, logging, option setters, HCI command layouts.
- Sockets, ioctls, macOS and the Android backends other than the registry; JNI calls are reduced
  to a count of reference deletions.
- Clock accuracy in the connection event and zero padding of scan records.
