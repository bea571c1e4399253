# Verified model of a mesh VPN daemon's control plane, data plane and wire formats

The project models the parts of the daemon in which several functions, several steps or several nodes have to work
together, and proves what they keep. Sources are cited by path and line.

**Distance-vector routing.** `Routing`, `DistanceVector`, `Rebuild` and `Daemon` model one node: the bounded route
table, the application of one neighbour's advertisement in place, the poison-reversed advertisement, the rebuild from
the peer snapshot and the stored advertisements, and the reception branch with its version guard. Each method is proved
against a function on values; the functions are then characterised destination by destination (`PointUpdate`,
`IsBest`) and, in terms of peers, clock, routes and identifiers alone, in `AppliedRoutes` and `Rebuild.RebuiltIsLeastWay`. `Identity` models the generation number that separates the runs of one daemon, `PrivateStorage` the three ways
a write can end: it takes place, it does not, or it takes place and is reported as a failure.

`Graph` and `Network` model a network in synchronous rounds: every node hears the poison-reversed table of every
neighbour, stores it and rebuilds. The tables at the start are arbitrary well-formed ones, the clock and the order of
the peer lists may differ from round to round. `Convergence` proves what one node makes of what it hears: routes right up
to a level r at the neighbours give routes right up to level r + 1. `Stabilisation` applies that to rounds,
`RoundByReception` shows that a round is what the reception code does, in whatever order, under whatever versions and
however often the advertisements arrive, and `Limits` shows by example that the bounds cannot be improved.
`Graph.HopDistance` shows that the distance used is the length of a shortest path, and 16 exactly when there is none.

`Asynchronous` drops the rounds. Nodes stamp their own versions, every message ever sent may arrive at any time, any
number of times and in any order, and the two locked regions of a reception, taking the advertisement in and rebuilding,
are separate steps between which anything else may happen. An epoch is a stretch in which every node gets at least one
advertisement across to each neighbour and the rebuilds that became due have taken place; `Epochs` proves what epochs do
to the tables, `Schedules` that every consistent world has any number of them ahead of it. `Restarts` adds daemons that
lose everything and start again under a greater generation while their old messages are still on the way.

**Data plane.** `Forwarding` models the engine with its wrapping counters, `Delivery` the journey of a packet over the
tables of all nodes, loops included, while those tables change from hop to hop.

**Known contacts.** `Xor`, `Kademlia` and `SelfLookup` model the bucket table, the closest-contacts query and the
iterative lookup. The lookup takes an arbitrary list of answers, so it covers every query function, also one that
changes its mind.

**Framing and codecs.** `Codec` and `Session` model frames and their reception from arbitrary chunks; `Base64Url` (section
5 of RFC 4648), `Invite`, `Contacts` and `BigEndianBytes` model the encodings; `InviteStore` models the directory of
one-time invitations as a state machine with failing file operations. The formats are also stated byte by byte and bit by
bit (`FrameOf`, `ContactLaidOut`, `Spells`, `PayloadLaidOut`), apart from the functions that compute them.

Where the code does something its surroundings do not suggest:

- The rebuilt table is the minimum over all candidates if and only if at most 16 destinations have one
  (`Rebuild.RebuiltIsArgmin`). With more, the order in which neighbours are folded in can decide what is installed:
  `Limits.OrderMattersBeyondCapacity` has two neighbours that are Connected but not alive and advertise sixteen nodes each.
- Self-stabilisation takes 16 rounds: they suffice (`Stabilisation.SelfStabilisation`), and 15 do not
  (`Limits.FifteenRoundsAreNotEnough`, three nodes that mislead each other about a fourth). A destination k hops away is
  exact from round k + 1 on. Without rounds, 16 epochs suffice (`Epochs.AsynchronousStabilisation`).
- Nothing filters routes to the node itself. They are absent from the third round on, as a theorem
  (`Stabilisation.NoRouteToSelf`), and never appear from empty tables (`Stabilisation.ExactFromEmpty`).
- The re-encoding test of `base64url_decode` rejects nothing that the other checks accept
  (`Base64Url.ReencodingRejectsNothingMore`).
- `transport_close` empties the receive buffer before `transport_receive` asks whether it holds an incomplete message
  (src/transport/session.cpp:393-400), so the error text about an incomplete message is never set: in
  `Session.Receive`, which `TransportReceive` is proved equal to, a closed connection is always
  `ConnectionClosed(false)`.
- With an error string the 8192-byte limit of the receive buffer is out of reach (`Session.BufferNeverExceeds`); without
  one a malformed header goes unnoticed until the buffer is full (`Session.BadHeaderUnnoticed`).
- `invite_store` can report a failure although the ticket is in place and will be accepted, since
  `private_write_atomically` synchronises the directory after it has replaced the file
  (src/platform/private_storage.cpp:335-341). So a secret can be consumed that its issuer was never told to be stored
  (`InviteStore.UnreportedIsAccepted`); that happens exactly through such a store (`InviteStore.UnreportedIff`), and
  otherwise consumptions never exceed the reported stores (`InviteStore.ReportedBalance`). In the same way
  `identity_load` can fail and leave a new identity file behind.
- A matching invitation presented outside its lifetime is refused and burnt (`InviteStore.TrustState.Consume`).
- A join response comes back field by field exactly if its two copies of the bootstrap identifier agree
  (`Contacts.ResponseExactIff`); otherwise it comes back equal in the sense of its `operator==`.

Assumptions that the source itself guarantees appear as preconditions: destination identifiers are set and addresses
match them (validation, src/network/route_advertisement.cpp:48-61), stored advertisements name a destination once
(tables never hold two routes to one node), peer lists name a peer once and never the empty identifier. `Valid...`
predicates say so.

## Model

| member | source | states |
|---|---|---|
| `Bytes.LexicographicIsNumeric` | src/network/distance_vector.cpp:17-20 | Byte-wise lexicographic comparison of identifiers is comparison of the numbers they denote, so it is a total order |
| `Routing.RouteTable.AddRoute` | src/network/routing.cpp:42-75 | The table in place becomes `Added(old table, route)` and the result tells whether it was installed |
| `Routing.AddRouteView` | src/network/routing.cpp:42-75 | A sound table with room ends up with the preferred of old and new route at that destination and is unchanged everywhere else |
| `Routing.AddedToOne` | src/network/routing.cpp:42-75 | Two arbitrary routes: the same destination by identifiers when both are set and by addresses otherwise; then the smaller metric stays, on a tie the smaller next hop |
| `Routing.RouteTable.Lookup` | src/network/routing.cpp:21-34 | Lookup reports the first route to the node, valid below infinity, or nothing |
| `DistanceVector.CreateAdvertisement` | src/network/route_advertisement.cpp:5-36 | The advertisement carries exactly the routes its split-horizon mode lets through |
| `DistanceVector.OtherModes` | src/network/route_advertisement.cpp:15-28 | Split horizon leaves out exactly the routes through the target; without a target or with the mode disabled nothing is left out |
| `DistanceVector.PoisonReverseView` | src/network/route_advertisement.cpp:15-28 | Poison reverse keeps every destination, its metric hidden exactly from the route's own next hop, and the result is well-formed |
| `DistanceVector.ApplyRoutes` | src/network/distance_vector.cpp:22-98 | Erasing, overwriting and appending in place yields `Apply(old table)` and its change flag |
| `DistanceVector.KeptView` | src/network/distance_vector.cpp:29-39 | The erase step withdraws exactly the neighbour's routes it no longer mentions, and the table shrinks exactly if there was one |
| `DistanceVector.ApplyView` | src/network/distance_vector.cpp:22-98 | If the destinations fit, the whole update is one declarative rule applied to each destination independently |
| `AppliedRoutes.ApplyAftermath` | src/network/distance_vector.cpp:22-98 | Every destination's route afterwards, time stamp included, from the route before and the route advertised: erased, raised to 16, replaced or left alone, by metric, neighbour and least identifier |
| `DistanceVector.ChangedIff` | src/network/distance_vector.cpp:39-97 | The change flag is set exactly if some destination not squeezed out by a full table has its metric or next hop changed |
| `DistanceVector.DistanceVectorUpdate` | src/network/distance_vector.cpp:129-163 | Accepts exactly newer versions from the claimed sender, records the version, and updates the table; otherwise nothing changes |
| `Rebuild.RebuiltIsArgmin` | src/core/daemon.cpp:319-355 | For every destination the rebuilt route is the least (metric, next hop) over the direct link and all offers below infinity, and absent without one, if and only if at most 16 destinations have a candidate |
| `Rebuild.RebuiltIsLeastWay` | src/core/daemon.cpp:319-355 | The same from peer list, files and clock alone: the direct link to a Connected peer heard from within 5000 ms, or one hop more than a Connected peer advertises below 16, least metric and then least identifier first |
| `Rebuild.SilentPeersGetNoRoute` | src/network/peer.cpp:43-53 | With nothing on file a direct route leads to exactly the Connected peers heard from within the last 5000 ms |
| `Rebuild.RebuildOrderIrrelevant` | src/core/daemon.cpp:331-355 | With room for all destinations, visiting the neighbours in any order gives the same routes |
| `Rebuild.ChangedIsExact` | src/core/daemon.cpp:1225-1250 | When the live table agrees with a rebuild, applying a new advertisement reports a change if and only if a rebuild with it stored would differ |
| `Daemon.AppState.CollectNeighbors` | src/core/daemon.cpp:331-344 | Collects the Connected senders of stored advertisements in ascending order |
| `Daemon.AppState.AdvertiseTo` | src/core/daemon.cpp:1005-1018 | The advertisement for one session: the table with poison reverse towards the target, under generation and next sequence number, which then advances on 64 bits |
| `Daemon.AppState.RebuildRoutingTable` | src/core/daemon.cpp:310-355 | Clearing and refilling the table yields the rebuild from snapshot and stored advertisements, whatever was in it |
| `Daemon.AppState.ReceiveAdvertisement` | src/core/daemon.cpp:1213-1254 | The whole node state after a reception, with each of the three clock readings on its own, and when the node becomes dirty |
| `Daemon.RebuiltAnyTime` | src/core/daemon.cpp:310-355 | A rebuild depends on clock and peer list only through who is Connected and who is alive |
| `Daemon.ReceiveKeepsInStep` | src/core/daemon.cpp:1225-1250 | Skipping the rebuild when nothing changed is sound: every reception keeps the table equal to a rebuild |
| `Daemon.RunStaysInStep` | src/core/daemon.cpp:1213-1254 | The same over every run of receptions, each with its own clock readings and peer list, as long as the same peers are Connected and alive whenever the code looks |
| `Daemon.ReceiveGuard` | src/network/distance_vector.cpp:142-155 | A reception is stored exactly if it comes from the sender it names, with at most 16 well-addressed destinations at metrics up to 16, and its generation, or at the same generation its sequence number, exceeds the recorded one; otherwise nothing changes |
| `Daemon.AcceptedIncrease` | src/network/distance_vector.cpp:142-155 | In every run the accepted versions of an origin strictly increase, and the last one is the recorded one |
| `Daemon.StoredIsNewest` | src/core/daemon.cpp:1228-1242 | What is stored for an origin was delivered and nothing delivered is newer |
| `Daemon.DeliveryOrderIrrelevant` | src/core/daemon.cpp:1228-1242 | Runs that deliver the same advertisements in other orders and multiplicities store the same, when versions determine contents |
| `Daemon.GreaterGenerationAccepted` | src/network/distance_vector.cpp:142-155 | Whatever was received from a sender, in any order: an advertisement of a greater generation than all of it is accepted and stored |
| `Daemon.RestartAccepted` | src/core/daemon.cpp:593-596 | A sender's latest run is accepted and stored at once, however many starts and failed writes of its identity file came before |
| `Identity.Identity.Load` | src/crypto/identity.cpp:174-257 | The generation comes from the file, which is created with 1 when missing, also by a write that reports a failure and so makes loading fail; a generation of 0 is refused; a failed load forgets the generation in use |
| `Identity.Identity.BumpGeneration` | src/crypto/identity.cpp:330-353 | File first, then memory; nothing beyond the greatest 64-bit number; a failed write leaves memory alone |
| `Identity.Identity.StartUp` | src/core/daemon.cpp:593-596 | File and generation in use after a start, for every way its two writes can end |
| `Identity.StartUses` | src/core/daemon.cpp:593-596 | A start succeeds exactly if its writes do and the number in the file, 1 for a new one, is neither 0 nor the greatest; it then uses the next number; the file follows the writes that take place, reported or not |
| `Identity.GenerationsIncrease` | src/crypto/identity.cpp:330-353 | Over every sequence of starts, whichever writes fail or are reported as failures, the generations in use strictly increase |
| `Network.RoundBest` | src/core/daemon.cpp:310-355 | A round leaves, at every node and for every destination, the best of what the poison-reversing neighbours offer, and keeps the tables sound |
| `RoundByReception.ReceivingIsRebuilding` | src/core/daemon.cpp:1213-1254 | Receiving certain routes from each of a set of neighbours, in any order, with repetitions, under any versions of which one per neighbour is news, at any times, ends in the rebuild from them |
| `RoundByReception.RoundIsReception` | src/core/daemon.cpp:1213-1254 | One node's part of a synchronous round is what its reception code does step by step, each neighbour stamping its own versions and clocks advancing |
| `Convergence.LevelUp` | src/core/daemon.cpp:319-355 | What a rebuild makes of neighbours' routes that are right up to level r is right up to level r + 1: metrics at least min(distance, level), exact with least-identifier next hop below the level, no route to oneself from level 3 on, none to the unreachable from level 16 on |
| `Convergence.TakenKeepsLevel` | src/network/distance_vector.cpp:41-96 | Applying one neighbour's advertisement, before any rebuild, leaves routes right up to their level |
| `Convergence.KnownUp` | src/core/daemon.cpp:319-355 | From empty tables knowledge spreads exactly one hop per exchange |
| `Stabilisation.SelfStabilisation` | src/core/daemon.cpp:310-355 | From arbitrary well-formed tables of a symmetric graph of at most 16 nodes, after 16 rounds every table holds exactly the shortest-path routes, and so it stays |
| `Stabilisation.MetricsNeverTooSmall` | src/network/distance_vector.cpp:45-63 | Bounded counting to infinity: from arbitrary tables, after r rounds no metric for another node is below min(distance, r), and a node without a path is gone after 16 |
| `Stabilisation.NearDestinationsSettle` | src/core/daemon.cpp:319-355 | A destination k hops away has its shortest route, tie broken by least identifier, from round k + 1 on |
| `Stabilisation.NoRouteToSelf` | src/network/route_advertisement.cpp:20-24 | From the third round on no node has a route to itself |
| `Stabilisation.ExactFromEmpty` | src/core/daemon.cpp:321-354 | From empty tables, after r rounds exactly the destinations 1 to r hops away are known, each with its distance and the least neighbour one hop nearer |
| `Limits.FifteenRoundsAreNotEnough` | src/network/distance_vector.cpp:45-63 | For any four nodes a network and tables for which no 15 rounds suffice |
| `Limits.OrderMattersBeyondCapacity` | src/core/daemon.cpp:331-355 | A peer list and stored advertisements of 32 destinations for which two orders of the neighbours install different routes and the rebuild is not the minimum |
| `Asynchronous.StepKeeps` | src/core/daemon.cpp:1213-1254 | Sending, taking in and rebuilding, in any interleaving, keep every node's table the best of its files unless a rebuild is due, and versions ahead of everything sent |
| `Epochs.LevelAfterEpochs` | src/core/daemon.cpp:1213-1254 | After r epochs, and at every moment afterwards, every route of every node is right up to level r |
| `Epochs.AsynchronousStabilisation` | src/core/daemon.cpp:1213-1254 | Whatever was in tables, files and on its way, after 16 epochs every table holds exactly the shortest-path routes at every moment, also between the two halves of a reception |
| `Schedules.EpochExists` | src/core/daemon.cpp:990-1018 | While sequence numbers last, every consistent world has an epoch ahead of it that uses up at most 256 of them at each node |
| `Schedules.EpochRunExists` | src/core/daemon.cpp:990-1018 | And any number of epochs in a row |
| `Restarts.FreshWorldIsConsistent` | src/core/app.cpp:520-524 | A network of daemons that have just started, each under its own generation, meets the assumptions of the theorems |
| `Restarts.RestartKeeps` | src/core/daemon.cpp:593-596 | A daemon that loses its table, its files and its version record and starts again under a greater generation leaves the world consistent, whatever it sent before and is still on its way |
| `Restarts.HistoryKeeps` | src/core/daemon.cpp:1213-1254 | Every history of sending, taking in, rebuilding and restarting, in any order, keeps the world consistent |
| `Restarts.RestartsAreForgotten` | src/core/daemon.cpp:593-596 | After any such history from the first start on, 16 epochs without a further restart leave every table with exactly the shortest-path routes, at every later moment |
| `Restarts.HistoryCanConverge` | src/core/daemon.cpp:990-1018 | After any such history the 16 epochs exist while sequence numbers last |
| `Restarts.FreshStartConverges` | src/core/app.cpp:520-524 | From a fresh start they always exist |
| `Forwarding.ForwardingState.Forward` | src/network/forwarding.cpp:17-69 | Action, packet and next hop are the decision on the lookup; every call has one outcome, dropped = expired + unknown, forwarded + dropped + delivered = calls, modulo the counters' width |
| `Forwarding.CountersCount` | src/network/forwarding.cpp:29-64 | After any calls each counter is the number of calls that ended that way, modulo its width |
| `Forwarding.SnapshotSuffices` | src/core/daemon.cpp:738-747 | Deciding on the one copied route is deciding on the whole table |
| `Delivery.TransmissionsBounded` | src/network/forwarding.cpp:23-46 | On any tables, changing from hop to hop, a packet is sent at most max(1, TTL) times, ends once, is delivered exactly at its destination, and only its TTL changes: by one for every node other than the source that sends it on or tries to, to 0 when it expires |
| `Delivery.JourneyIsWalk` | src/network/forwarding.cpp:48-68 | Whatever the tables say and become, a packet moves along links |
| `Delivery.EndToEnd` | src/network/forwarding.cpp:73-79 | While the tables change but are converged at every hop, a packet for a node k hops away takes a shortest path and arrives exactly if k is at most max(1, TTL); without a path it is dropped at the source |
| `Delivery.SettledNetworkDelivers` | src/core/daemon.cpp:908-918 | After 16 rounds from anything, packets with TTL 64 reach every reachable destination in as many transmissions as there are hops, whatever further rounds take place while they travel |
| `Delivery.SettledWorldDelivers` | src/core/daemon.cpp:908-918 | The same after 16 epochs, whatever is sent, taken in and rebuilt while the packet travels |
| `Codec.MessageEncode` | src/protocol/codec.cpp:53-69 | Valid messages give version, type, the size of the payload high byte first, and the payload; all others the empty buffer |
| `Codec.EncodedIsFrame` | src/protocol/codec.cpp:53-69 | Exactly the valid messages have a frame, with these fields at these offsets |
| `Codec.PeekIff` | src/protocol/codec.cpp:131-170 | Peeking finds exactly the size that a well-formed header announces |
| `Codec.DecodeIff` | src/protocol/codec.cpp:71-129 | Decoding gives a message exactly if its frame is at the front, whatever follows |
| `Codec.PeekThenDecode` | src/protocol/codec.cpp:131-170 | The peeked size is at most 4096, decoding that many bytes succeeds and re-encodes to them |
| `Codec.ParseReproduces` | src/protocol/codec.cpp:71-129 | The pure parser loses nothing: its messages re-encoded plus the rest are the stream |
| `Codec.ParseEncoded` | src/protocol/codec.cpp:53-129 | Parsing inverts encoding for every list of messages, whatever follows |
| `Session.TransportSession.TransportReceive` | src/transport/session.cpp:297-418 | Result, buffer, remaining input and open flag after a call, and the buffer at every pass through the loop, for every interleaving of data, quiet spells, close and failure |
| `Session.PassTakes` | src/transport/session.cpp:361-366 | A pass that goes on takes the next 1024 bytes, or as many as have come or as fit 8192 |
| `Session.ReceiveParses` | src/transport/session.cpp:314-417 | One call returns the first message of buffer plus stream and leaves exactly the rest, loses nothing on a timeout, and fails only when there is no message to be had |
| `Session.HowACallEnds` | src/transport/session.cpp:314-417 | How every call ends and what it leaves, from buffer and arrivals alone: the first message; a malformed header, if reported or 8192 bytes long; otherwise an orderly close, a failure or a timeout, according to what ends the data |
| `Session.DrainIsParse` | src/transport/session.cpp:314-417 | For every chunking and every interleaving of timeouts, repeated calls yield exactly the messages of the pure parser |
| `Session.ChunkingIrrelevant` | src/transport/session.cpp:361-416 | Two deliveries of the same bytes yield the same messages |
| `Session.SentIsReceived` | src/transport/session.cpp:314-417 | Encoded messages arrive as sent, and a truncated last frame adds none |
| `Session.BufferStaysSmall` | src/transport/session.cpp:315-417 | With an error string the buffer stays below 4096 + 1024 bytes at every pass through the loop and at return, and the size limit is never hit |
| `Session.BufferNeverExceeds` | src/transport/session.cpp:314-417 | From a fresh session on, over all calls until it closes, the buffer never exceeds 4095 + 1024 bytes |
| `Session.BadHeaderUnnoticed` | src/transport/session.cpp:315-359 | Without an error string a malformed header is kept and read past; only a buffer of 8192 bytes closes the session on its account |
| `Base64Url.Base64UrlEncode` | src/security/invite.cpp:50-69 | The wrapping 32-bit accumulator computes the encoding by bit positions of RFC 4648 |
| `Base64Url.EncodedSpells` | src/security/invite.cpp:50-69 | The one text whose character j is the letter, of A-Z a-z 0-9 - _, at the position that bits 6j to 6j + 5 denote |
| `Base64Url.Base64UrlDecode` | src/security/invite.cpp:71-118 | Accepts exactly the encodings of non-empty byte strings and inverts encoding |
| `Base64Url.EncodedIsCanonical` | src/security/invite.cpp:50-69 | Decoding inverts encoding; encodings pass the alphabet, length and trailing-bit checks |
| `Base64Url.CanonicalIff` | src/security/invite.cpp:74-110 | Those checks alone accept exactly the encodings of non-empty byte strings |
| `Base64Url.ReencodingRejectsNothingMore` | src/security/invite.cpp:109-115 | Zero trailing bits if and only if re-encoding reproduces the input |
| `Invite.InviteEncode` | src/security/invite.cpp:246-272 | Valid tickets give their token, all others the empty string |
| `Invite.IssuableIff` | src/security/invite.cpp:246-257 | What may be issued, field by field: endpoint, identifier, secret, at most a day to live, network prefix |
| `Invite.TokenLayout` | src/security/invite.cpp:246-272 | A token is the scheme and, as base64url, the fields at their offsets, numbers high byte first |
| `Invite.InviteDecode` | src/security/invite.cpp:274-345 | Accepts exactly the tokens of valid tickets, field by field at the fixed offsets |
| `Invite.TokenSize` | src/security/invite.cpp:246-272 | Tokens have at most 466 characters |
| `Invite.TokenRoundTrip` | src/security/invite.cpp:246-345 | Every issuable ticket comes back from its token |
| `Invite.TokenIff` | src/security/invite.cpp:274-345 | A token decodes to a ticket if and only if it is the token of that valid, unconsumed ticket |
| `Invite.LaidOutTokenIff` | src/security/invite.cpp:274-345 | The same from the characters alone: scheme, base64url, fields at their offsets, limits |
| `InviteStore.TrustState.ClearExpired` | src/security/invite.cpp:361-403 | The scan removes only expired invitations and counts the others; it fails on an unreadable file |
| `InviteStore.TrustState.Store` | src/security/invite.cpp:347-428 | Installs the ticket after clearing expired ones exactly if there is room, no collision and nothing unreadable and the write takes place, and succeeds exactly if the write also reports it; a call that installs nothing fails and has removed expired tickets at most |
| `InviteStore.TrustState.Consume` | src/security/invite.cpp:430-496 | Burns the identical ticket at its issuer, in time or not, and succeeds only in time; otherwise changes nothing |
| `InviteStore.RunAccounted` | src/security/invite.cpp:347-496 | In every run consumptions of a secret plus tickets held never exceed its installations, reported and unreported, and at most 64 tickets are held |
| `InviteStore.InstalledSurvives` | src/security/invite.cpp:361-403 | A ticket is held from its installation on, as long as it is not presented to its issuer and no store takes place at or after its expiry |
| `InviteStore.InvitationWorks` | src/security/invite.cpp:430-496 | Presented then, with file operations that go through, it is burnt, and accepted if and only if it is in time |
| `InviteStore.StoreSucceedsIff` | src/security/invite.cpp:347-428 | With file operations that go through, issuing succeeds if and only if the ticket is issuable, its secret no unexpired one's, and fewer than 64 are unexpired; those and the new one are then held |
| `InviteStore.HeldIff` | src/security/invite.cpp:446-458 | A file holds a ticket if and only if it is the token of an issuable one and a newline |
| `InviteStore.ReportedBalance` | src/security/invite.cpp:347-496 | They never exceed the successful stores as long as no store of the secret installs it and reports a failure |
| `InviteStore.UnreportedIff` | src/platform/private_storage.cpp:335-341 | A secret without a successful store is ever held if and only if a store of it installed the ticket and reported a failure |
| `InviteStore.UnreportedIsAccepted` | src/security/invite.cpp:424 | A run, for any ticket, with one successful consumption and no successful store |
| `InviteStore.ConsumptionIsJustified` | src/security/invite.cpp:446-493 | A success presents, in time and to its issuer, a ticket installed before and not consumed since, and uses it up |
| `Xor.ComputeBucketIndex` | src/network/kademlia.cpp:26-39 | The bytewise scan returns the length of the common prefix in bits: all bits before agree, the bit there differs; 256 for equal identifiers |
| `Xor.BucketIndexIsCommonPrefix` | src/network/kademlia.cpp:26-39 | The same of the index as a function, so a contact's bucket is its common-prefix length |
| `Xor.BucketIndexRange` | src/network/kademlia.cpp:26-39 | The index is 256 exactly for the local identifier and below otherwise |
| `Xor.HigherBucketIsCloser` | src/network/kademlia.cpp:17-39 | A longer common prefix is a strictly smaller XOR distance |
| `Xor.CloserIff` | src/network/kademlia.cpp:17-24 | Of two identifiers the one is closer that agrees with the target in the first bit in which they differ |
| `Kademlia.KademliaTable.Insert` | src/network/kademlia.cpp:41-95 | The buckets in place become `Inserted(old buckets)` with the result, for every ping callback |
| `Kademlia.KademliaTable.Remove` | src/network/kademlia.cpp:131-149 | The buckets in place become `Removed(old buckets)` with the result |
| `Kademlia.KademliaTable.FindContact` | src/network/kademlia.cpp:151-164 | Finds what the identifier's bucket holds |
| `Kademlia.KademliaTable.FindClosest` | src/network/kademlia.cpp:97-129 | On a valid table: as many contacts as asked for or known, strictly ascending distance, everything left out strictly farther |
| `Kademlia.KademliaTable.Clear` | src/network/kademlia.cpp:174-178 | Empties every bucket |
| `Kademlia.InsertedFinds` | src/network/kademlia.cpp:41-95 | After an insertion every lookup is determined: the contact itself if accepted, and of the others all but the oldest of a full bucket that did not answer |
| `Kademlia.KnownIsRefreshed` | src/network/kademlia.cpp:60-74 | A known contact inserted again is found with the new key, address, time and round trip, no failed pings, and the new endpoint unless that is empty |
| `Kademlia.UnknownIsAddedOrNot` | src/network/kademlia.cpp:76-94 | What every lookup finds after an unknown contact was offered: added below 20, in place of an oldest one that does not answer, or nothing changed |
| `Kademlia.RemovedFinds` | src/network/kademlia.cpp:131-149 | Removal reports whether the contact was known and forgets exactly that one |
| `Kademlia.FindIsScan` | src/network/kademlia.cpp:151-164 | Looking in one bucket finds what a scan of the whole table finds; identifiers are unique and local is absent |
| `Kademlia.HigherBucketsAreCloser` | src/network/kademlia.cpp:26-39 | Every contact in a higher bucket is strictly closer to local than any in a lower one |
| `Kademlia.RunKeepsInvariant` | src/network/kademlia.cpp:41-95 | Over every run of init, insert, remove and clear, whatever the pings answer, buckets are valid and ordered from longest silent to heard last |
| `Kademlia.EvictedIsLongestSilent` | src/network/kademlia.cpp:80-92 | Only the longest silent contact of a full bucket is evicted, and only when it does not answer |
| `Kademlia.ClosestIsClosest` | src/network/kademlia.cpp:97-129 | The sorted and cut list is the closest contacts |
| `Kademlia.ClosestIsUnique` | src/network/kademlia.cpp:117-126 | There is exactly one such list, so any sorting algorithm gives it |
| `SelfLookup.InsertAll` | src/network/join.cpp:103-109 | Inserting a received list skips local and never pings |
| `SelfLookup.InsertedAllGrows` | src/network/join.cpp:103-109 | Nobody known is forgotten, and everybody received is known afterwards or kept out by a full bucket |
| `SelfLookup.KademliaSelfLookup` | src/network/join.cpp:136-177 | Table and questions asked after the call, for every sequence of answers; nothing for alpha 0 |
| `SelfLookup.NextPeersAreNearest` | src/network/join.cpp:148-161 | A round asks the nearest of the 20 closest contacts not asked yet, alpha of them unless there are fewer |
| `SelfLookup.LookupKeeps` | src/network/join.cpp:146-176 | No peer is asked twice, local never, at most 10 * alpha questions, no known identifier forgotten, everybody heard of is known or kept out by a full bucket |
| `SelfLookup.LookupGoesOn` | src/network/join.cpp:146-176 | At least ten questions are asked, one for each of ten rounds, unless every contact closest in the end has been asked |
| `SelfLookup.LeavingEarlyAskedAll` | src/network/join.cpp:163-165 | A lookup that finds nobody left to ask has asked all of the 20 closest contacts of its final table |
| `BigEndianBytes.AppendBigEndian` | src/network/serialization.cpp:10-37 | The shifting writers append the big-endian bytes of the value |
| `BigEndianBytes.ReadBigEndian` | src/network/serialization.cpp:15-45 | The shifting readers compute the number the bytes denote |
| `Contacts.SerializeNodeContact` | src/network/serialization.cpp:305-324 | The bytes of the contact, or nothing for an endpoint over 255 bytes |
| `Contacts.DeserializeNodeContact` | src/network/serialization.cpp:326-370 | The contact at the front of the data and how many bytes it takes, or a failure |
| `Contacts.ContactRoundTrip` | src/network/serialization.cpp:305-370 | Reading a written contact, whatever follows, returns it and its exact length |
| `Contacts.ContactCanonical` | src/network/serialization.cpp:326-370 | Whatever is read as a contact is what that contact is written as |
| `Contacts.ContactLayout` | src/network/serialization.cpp:305-324 | A contact's bytes are its fields at their offsets, numbers high byte first |
| `Contacts.ReadContactIff` | src/network/serialization.cpp:326-370 | A contact is read exactly if it is laid out like that at the front |
| `Contacts.ListLayout` | src/network/serialization.cpp:607-623 | A list is the number of contacts on two bytes, at most 20, and the contacts one after the other |
| `Contacts.SerializeNeighbors` | src/network/serialization.cpp:607-623 | The counted list, or nothing for too many peers or too long an endpoint |
| `Contacts.DeserializeNeighbors` | src/network/serialization.cpp:625-675 | Exactly the counted contacts and nothing after them |
| `Contacts.NeighborsIff` | src/network/serialization.cpp:607-675 | Decoding accepts exactly what encoding produces and inverts it, so the wire form is unique |
| `Contacts.SerializeJoinResponse` | src/network/serialization.cpp:457-486 | Flag, bootstrap contact with its identifier filled in, counted peers |
| `Contacts.DeserializeJoinResponse` | src/network/serialization.cpp:490-563 | The response the data encodes, or a failure |
| `Contacts.ResponseRoundTrip` | src/network/serialization.cpp:457-563 | Decoding inverts encoding up to `operator==` |
| `Contacts.ResponseLayout` | src/network/serialization.cpp:457-486 | A response is the flag 1 or 0, the bootstrap contact under the bootstrap identifier if its own is empty, and the list of peers |
| `Contacts.ReadResponseIff` | src/network/serialization.cpp:490-563 | A response is read exactly if it is laid out like that, with any flag but 0 for accepted and the contact's identifier in both places |
| `Contacts.ResponseExactIff` | src/network/serialization.cpp:457-563 | It inverts it exactly if and only if the two bootstrap identifiers agree |
| `Contacts.ResponseReencodes` | src/network/serialization.cpp:490-563 | Accepted data re-encodes to itself except that a non-zero flag becomes 1 |
| `Contacts.ResponseFitsFrame` | src/network/serialization.cpp:457-486 | A response with at most 20 peers fits one frame when no endpoint exceeds 97 bytes |
| `Contacts.FullResponseFitsIff` | src/network/serialization.cpp:457-486 | For 20 peers with endpoints of one length that bound is exact |

## Left out

- Sockets, TLS, TUN devices, file locks and atomic replacement: foreign calls. A socket is a source of
  arbitrary chunks, timeouts, closes and failures; a directory is a map whose operations may fail.
- A crash between the steps of a write or a removal: the directory is what the running system shows. That a removal or a
  replacement whose synchronisation failed may be undone by a power failure is not modelled.
- Threads and mutexes: locked regions are atomic steps. Time is a parameter. In `AppState.ReceiveAdvertisement` and in
  the runs of `Daemon` the two locked regions of a reception follow each other; `Asynchronous` lets other steps come
  between them.
- Routing metrics, status output, advertisement expiry and stale-peer pruning in src/core/daemon.cpp: the theorems hold
  the set of Connected and the set of live peers fixed while tables are compared.
- Sequence numbers that wrap: `Asynchronous` ends a run before the 64-bit counter does.
- Key material and the text format of the identity file; only its generation number is modelled.
- `transport_send`, connection setup and the data-plane port filter.
- `parse_endpoint`: a parameter of the invitation codec.
- The trust table (`trust_load`, `trust_add`, `trust_find`): its 15-peer bound is not claimed, since capacity is tested
  only when inserting at the end.
- Hello, neighbour-advertisement, route-advertisement, join-request, announce and find-node codecs and the control-message
  header: fixed layouts without the arithmetic of the ones modelled. The size of the control-message header enters
  `ResponseFitsFrame`.
- The other handlers of src/network/join.cpp: callers of insertion and of the closest-contacts query.
- `routing_remove_route`, `routing_expire_routes`, `routing_count`, `kademlia_total_contacts`: easy members.
- The first overload of `distance_vector_update` (sequence numbers only): the guard of the second, with fewer cases.
- Freedom from loops while topology changes: the code does not guarantee it.
- Delivery.Travel: a transmission that fails for want of a session ends the journey; retries and reconnection are not
  modelled.
- Kademlia.KademliaTable.FindClosest: `std::sort` and `std::partial_sort` are stood in for by insertion into a sorted
  list; `ClosestIsUnique` makes the difference invisible on every valid table.
