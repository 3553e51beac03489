# n2n-go in Dafny

n2n-go is a layer-2 VPN. A supernode keeps communities of edges; each edge keeps a replica of its
community and, for every peer, the state of its attempts to reach that peer directly. This project
models four parts of it in Dafny 4.11 and proves what they keep over whole runs:

- **Supernode membership and relay** (`Membership`, `Partition`, `Collisions`, `EdgeIndex`,
  `Cleanup`, `Records`, `Messages`, `Supernode`, `Relay`). Registration, heartbeat, removal and
  cleanup as functions on a value, as steps of a run, and as methods of an object whose maps share
  mutable edge objects. The object's validity says that its state is the one its history of messages
  leads to, that every index holds the same objects, and that everything sent so far is exactly what
  those messages announce. `Records` reads every field on record off those messages.
- **The edge's peer registry and probing** (`Peers`, `Probing`, `SocketIndex`, `PeerEvents`,
  `PeerRegistry`), and together with the supernode and one inbox per edge the **replicated member
  list** (`Replica`, `Delivery`, `Told`).
- **The hosts-file normaliser** (`HostsText`, `HostsTable`, `HostsClean`, `HostsOps`, `HostsSort`,
  `HostsRuns`, `HostsAliasing`, `Hosts`): a list of entries, its text, its meaning as ordered pairs
  and as a set of pairs, and the object whose loops compute the functions.
- **The wire path and the Internet checksum** (`Wire`, `DataPath`, `Checksum`, `Ping`): the 30-byte
  header, the 7-byte fast path, the reversible payload pipeline, the reused receive buffer, the
  checksum with its exact bound, and echo packets rewritten in place.

Value modules come first and hold the specification and the theorems; the classes and array methods
are proved against them. `dafny verify dfyconfig.toml` checks everything.

What comes from outside is a parameter. Hashing, address derivation, decryption and the printing of
sockets are function values in `Env`; the clock, and whether a network or a virtual address could be
allocated, come with the message; the outcome of a send is a function of the target; which strings
are IP addresses, and how they parse, are function values; each transform is a pair of functions
with a seed for its randomness. The assumptions about these are named predicates: `DerivesStations`
(derived addresses have the shape that `ShapeMac` gives them), `Lawful`, `Tagged` and `IsAead` (a
transform undoes itself; compressed data starts with its magic number; authenticated encryption adds
28 bytes), `LawfulTest` (an IP address holds no white space and does not start with a hash sign).

The address is derived from the machine id and the community's name written one after the other
(`DerivesFromData`), so two communities can give the same one: `SharedAddress` shows the inputs, and
`RegistrationsCollide` and `OfflineRecordLost` what registrations at such inputs do. The index by
address holds one edge per address. `UnionExactly` and `ApartExactly` say exactly in which runs it is
the union of the communities, and `HandleRegister` leaves out the one case in which it would not be,
an accepted registration for an address that is live in another community. `OneCommunityEach`, for a
run, and `HomesNeverCollide`, for a list of messages, are conditions under which that case does not
arise.

Each handler is one atomic step. The program runs several workers and drops locks within a handler
(`pkg/supernode/supernode.go:168-181`, `pkg/supernode/community.go:126-134`), and
`RegisterCommunity` tests a value read before it took the write lock
(`pkg/supernode/registration.go:19-37`); interleavings inside a handler are not modelled.

Where code and documentation disagree the code is followed: `Hosts.Remove` is documented to remove
the given names, but keeps its result only when a whole line disappears; `RemoveExactly` gives the
exact condition.

## Model

| member | source | states |
|---|---|---|
| Bytes.MacTextInjective | pkg/p2p/p2p.go:234 | Two addresses print alike only if they are the same address, so maps keyed by printed addresses are maps keyed by addresses |
| Bytes.HexAt | pkg/p2p/p2p.go:234 | An address prints as two lower-case digits for each byte, the high half first, with a colon between bytes |
| PeerRegistry.Peer.UpdateP2PStatus | pkg/p2p/p2p.go:200-228 | The new status, probe budget and check id are the ones of `Updated`: a repeated Pending costs one of the budget, leaving Unknown for Pending sets it to 30, and without budget the peer becomes Unavailable with no check id |
| PeerRegistry.Peer.SetFullDuplex | pkg/p2p/p2p.go:185-198 | Refused exactly when asked of a peer that is not Available, with nothing changed; otherwise the flag is set and the change reported |
| PeerRegistry.Peer.HandlePong | pkg/edge/handlers.go:210-240 | A matching check id asks for Available, any other for Unknown; full duplex then follows the way the pong came, on Available peers only |
| PeerRegistry.PeerRegistry.AddPeer | pkg/p2p/p2p.go:230-268 | Refused exactly when the address is known and may not be overwritten; otherwise registry and socket index become `Added`, with the same object updated in place; `Probing.OverwrittenExactly` says what an overwritten peer keeps and `SocketIndex.FoundAfter` what the index then finds |
| PeerRegistry.PeerRegistry.RemovePeer | pkg/p2p/p2p.go:270-291 | Peer and socket entry disappear together; an unknown address changes nothing |
| PeerRegistry.PeerRegistry.HandlePeerInfoList | pkg/p2p/p2p.go:347-406 | Each kind of peer event has exactly the effect and the verdict of `Handled`, including the state left behind when an address in the middle of a list is refused |
| PeerEvents.AcceptedExactly | pkg/p2p/p2p.go:347-406 | An event is refused if and only if its kind is unknown, or it adds an address that was known or listed earlier and may not overwrite; after a reset nobody was known |
| PeerEvents.RefusedAt | pkg/p2p/p2p.go:366-371 | Refused additions stop at the first address that is not new, with exactly the earlier ones added |
| PeerEvents.KnownExactly | pkg/p2p/p2p.go:347-406 | After an accepted list the registry knows exactly the peers it names, after an arrival those as well, after a departure those no more; each listed peer with the data last given for it, every other one untouched; after a reset all start afresh |
| PeerEvents.MeExactly | pkg/p2p/p2p.go:358-365 | Over every run the edge takes itself to be what the last list with an origin said |
| PeerRegistry.PeerRegistry.GetPeerBySocket | pkg/p2p/p2p.go:171-183 | The socket lookup returns the object held in the registry under its own address with that socket, or nothing when the index has no such key |
| PeerRegistry.PeerRegistry.UpdatePeersP2PStates | pkg/edge/routines.go:17-54 | The three passes over unknown, pending and available peers leave every peer where one `Ticked` of that peer alone would |
| PeerRegistry.PeerRegistry.PendingPeers | pkg/p2p/p2p.go:320-332 | Exactly the pending peers with budget left are returned; pending ones without budget are given up on the way |
| PeerRegistry.PeerRegistry.HandleP2PStateInfo | pkg/edge/handlers_missing.go:44-72 | The sender, if it describes itself, and every listed peer that is known are asked to become Available, in that order |
| PeerRegistry.PeerRegistry.ProcessAll | pkg/edge/routines.go:57-79 | Any sequence of ticks, pongs, state messages and peer events leaves the objects in the state `EdgeRun` gives |
| Peers.PassesAreTick | pkg/edge/routines.go:17-39 | Passing three times over the whole registry is the same as ticking each peer once, although a peer can be caught by two passes |
| Probing.EveryRunKeepsProbing | pkg/p2p/p2p.go:200-256 | Over every run: budget in 0..30, Pending or Available implies budget at least 1, Unavailable implies budget 0, and the check id is empty or the one built from the present socket |
| Probing.TickExactly | pkg/edge/routines.go:17-54 | What one tick makes of a peer in any state whatever: an unknown one is probed twice at once and left with budget 29, a pending one loses one, an available one none, each with the check id of its present socket, and without budget all are given up |
| Probing.UnavailableStep | pkg/p2p/p2p.go:230-256 | A given-up peer stays given up through an event if and only if the event neither removes it nor lists it with another virtual address or socket |
| Probing.UnavailableIsFinal | pkg/p2p/p2p.go:200-256 | Through any run without such an event a given-up peer stays given up |
| Probing.OverwrittenExactly | pkg/p2p/p2p.go:230-256 | Whatever the status was, new data with another virtual address or socket restarts hole-punching at Unknown without a check id, and any other new data leaves status, check id, budget and full duplex as they were |
| Probing.AvailableStep | pkg/p2p/p2p.go:200-256 | In a state of any run an event leaves a peer Available if and only if it is a pong with the check id on record, which may be the empty one, or a state message naming the peer while there is budget, or the peer was Available and is neither removed, nor listed with another virtual address or socket, nor sends a pong with another check id |
| Probing.AvailableIsEarned | pkg/p2p/p2p.go:200-256 | Over every run a peer is Available only if such a pong or state message arrived since it last got another virtual address or socket |
| Probing.ReachableAllAt | pkg/edge/handlers_missing.go:44-72 | A state message changes exactly the known peers it names: no check id, and Available while there is budget |
| Probing.DuplexStep | pkg/edge/handlers.go:219-240 | Full duplex changes only with a pong that earns Available: on if it came from the peer itself, off if it came through the supernode; a newcomer starts without |
| Probing.UnansweredGivesUpAtThirty | pkg/edge/routines.go:17-39 | An unknown peer that sees only ticks is Pending with budget 30-n after n<30 ticks and Unavailable after exactly 30 |
| Probing.CheckIdInjective | pkg/edge/routines.go:41-42 | For one peer, check ids of different sockets differ |
| Probing.PongEffect | pkg/edge/handlers.go:219-228 | A pong makes the peer Available if and only if it carries the outstanding check id and the peer has budget left |
| Probing.StalePongNeverAvailable | pkg/edge/handlers.go:190-242 | After any run, a pong answering a probe of a socket the peer does not have now never leaves it Available |
| SocketIndex.EveryRunKeepsIndexSound | pkg/p2p/p2p.go:230-291 | Through any run every index entry points to a peer held under its own address and is keyed by that peer's present socket |
| SocketIndex.IndexRefinesScan | pkg/p2p/p2p.go:230-291 | Over every run of events the index finds every peer at every point if and only if each event is quiet in its turn: whenever one of its additions costs a peer that stays its entry, a later one adds that peer again, and no listed peer ends at the socket of a peer that the list drops |
| SocketIndex.EventComplete | pkg/p2p/p2p.go:347-406 | One event of any kind, with any list, keeps an exact index exact if and only if it is quiet, which depends on the peers' sockets alone and not on the index |
| SocketIndex.FoundAfter | pkg/p2p/p2p.go:230-268 | After any additions the index finds a peer if and only if every addition that took over its socket, or gave up one it shared, is followed by an addition of that peer |
| SocketIndex.LookupIsScan | pkg/p2p/p2p.go:171-183 | With a sound and complete index, looking a socket up gives a peer if and only if that peer is in the registry with that socket |
| SocketIndex.HandoverLosesNewcomer | pkg/p2p/p2p.go:365-386 | One list event can lose a peer: a newcomer takes over the socket of a peer that the same list drops, and dropping the old peer deletes the newcomer's entry, although before and after no socket is shared |
| Partition.EveryRunKeepsOk | pkg/supernode/registration.go:14-52 | In every reachable state a community's name hashes to its key, edges are filed under their own derived address and know their community, reported peers belong to live edges, and nobody remembered as offline is live |
| Partition.FullStateIsDisjoint | pkg/supernode/community.go:144-163 | In every reachable state the offline cache of a community is disjoint from its live edges and from the reported reachable peers |
| Partition.OnlineOfflinePartition | pkg/supernode/registration.go:145-186 | In a run in which every address keeps to one community, at every point the addresses that ever registered in a community are exactly the live ones and the offline ones, and no address is both |
| Partition.PartitionExactly | pkg/supernode/registration.go:145-186 | Without that condition: the partition holds for every community at every point of a run if and only if no step writes over the record of an address that is offline for another community |
| Partition.ApartExactly | pkg/supernode/registration.go:76-99 | No address is live in two communities at any point of a run if and only if the run accepts no registration for an address that is live in another community |
| Partition.OneCommunityNeverCollides | pkg/supernode/registration.go:115-131 | In a run in which every address keeps to one community there is no such registration |
| Collisions.UnionExactly | pkg/supernode/handlers.go:129-136 | The index by address is the union of the communities at every point of a run if and only if the run accepts no registration for an address that is live in another community |
| Collisions.SharedAddress | pkg/machine/mac.go:96-113 | Moving the beginning of a community's name to the end of the machine id keeps the derived address, whatever the hash |
| Collisions.RegistrationsCollide | pkg/machine/mac.go:96-113 | Two registrations at such an input: the second collides, the address is then live in both communities, and the index is not their union |
| Collisions.OfflineRecordLost | pkg/supernode/registration.go:145-156 | Register, unregister, register at such an input: the third step writes over the offline record of the first community, and the partition no longer holds |
| Replica.ReplicaConvergence | pkg/p2p/p2p.go:347-406 | At every point of every behaviour with reliable first-in first-out inboxes, an answered edge that takes what is still in its inbox knows exactly the other live members of its community with their present data, which `Told.ReplicaTells` reads off their messages; between deliveries it may tick, take pongs and state messages, and take requests to forget a member where those are harmless |
| Told.InfoTells | pkg/supernode/edge.go:43-51 | In every run the data made of a member's record gives its own address, the virtual address, description and community of the registration that created it, and the socket of the address it last sent from, or of none if it never said one |
| Told.AnnouncedExactly | pkg/supernode/handlers.go:143-173 | An edge is announced if and only if it joined, left, or sent an accepted heartbeat from another address than the one on record: with the data before the message, as gone, if it left, and the data after it, as there, otherwise |
| Told.AnnouncementTells | pkg/supernode/registration.go:133-143 | Over every run each announcement is about one edge and tells of it what that edge's own messages said, field by field |
| Told.SentTells | pkg/supernode/wire.go:85-106 | Every packet a run sends is such an announcement of one of its messages, to a member of that moment other than the edge it is about |
| Told.AnswerTells | pkg/supernode/community.go:165-183 | Each entry of an answer tells of a member what that member's own messages said |
| Told.ReplicaTells | pkg/p2p/p2p.go:347-406 | What an answered edge holds of a peer once its inbox is empty is what that peer's own messages said |
| Replica.FromAnswerToLeaving | pkg/supernode/handlers.go:30-57 | From the answer to an edge's peer-list request on, for as long as the edge stays a member, that promise holds at every point |
| Replica.ForgettingExactly | pkg/edge/handlers_missing.go:12-29 | A direct request to forget a member keeps the promise if and only if it names the edge itself, a stranger, or a member that an event still in the inbox lists or a full list settles |
| Replica.EveryBehaviourConverges | pkg/supernode/handlers.go:108-175 | The invariant behind it, kept by every handler, answer, delivery and local event |
| Replica.InfosDelivered | pkg/p2p/p2p.go:347-406 | What a peer event does to the members' data does not depend on probing state or socket index |
| Replica.OthersAfter | pkg/supernode/registration.go:133-143 | For every edge that stays, the change of the other members' data in one step is exactly the effect of the announcement that step makes, or nothing |
| Delivery.SentIsPosted | pkg/supernode/wire.go:85-106 | Of everything sent over a run, an edge is sent exactly the announcements meant for it, each once and in order |
| Delivery.InboxIsQueue | pkg/p2p/p2p.go:347-406 | Between two points of a behaviour without a peer-list answer to the edge, its inbox is what was in it, then exactly what the run announced to it, less what it took |
| Delivery.SentIsReceived | pkg/supernode/wire.go:225-237 | What the object sent to an edge between two points is what entered the edge's inbox between them |
| Delivery.HandleAndDeliver | pkg/supernode/wire.go:85-106 | While the object handles any list of messages, what it sends is exactly what enters the inboxes of the edges, in every behaviour through the same steps |
| EdgeIndex.Edge.Register | pkg/supernode/community.go:264-303 | A new edge starts with the message's data, the allocated virtual address, and the address and port it came from if these are known |
| EdgeIndex.Edge.Reregister | pkg/supernode/community.go:304-325 | A known edge takes over address, heartbeat time and sequence number, and its connection id when it came over a connection |
| EdgeIndex.Edge.Refresh | pkg/supernode/community.go:224-255 | A heartbeat replaces address, time and sequence number, and reports a move exactly when address or port changed; `Records.EveryRecord` says over every run which message each of these fields comes from |
| EdgeIndex.AddEdgeAgrees | pkg/supernode/community.go:300-301 | Filing a new edge in its community and in the index by address keeps the two in agreement, as maps of the same objects |
| EdgeIndex.DropEdgeAgrees | pkg/supernode/registration.go:133-138 | Taking a member out of its community, both indexes and the reported peers keeps all of them in agreement with the value |
| EdgeIndex.RegistrationKeepsUnion | pkg/supernode/handlers.go:129-136 | Filing an edge leaves the index by address the union of all communities' edges if and only if its address is not live in another community |
| EdgeIndex.CollisionLosesEntry | pkg/supernode/registration.go:133-143 | After a collision the first of the two to leave takes the index entry with it, and the lookup for the other finds nothing |
| Supernode.Supernode.constructor | pkg/supernode/supernode.go:71-124 | An empty supernode is valid |
| Supernode.Supernode.IndexIsUnion | pkg/supernode/handlers.go:129-136 | In every valid state the index by address is exactly the union of all communities' edges: the same objects, each under its own address, each in one community |
| Supernode.Supernode.IndexIsIndexAfter | pkg/supernode/handlers.go:129-136 | After a history without collisions the object's index is the index along that history, and leads under each address to the very edge that the community named there holds |
| Supernode.Supernode.RegisterCommunity | pkg/supernode/registration.go:14-52 | Refused exactly for a wrong hash, a hash taken by another name, or a failed allocation; otherwise the community exists afterwards under its name |
| Supernode.Supernode.EdgeUpdate | pkg/supernode/community.go:258-326 | Creates or updates the edge exactly as `UpdatedEdge` says, or refuses and changes nothing; a newcomer goes on record as registered; an accepted address is at home here or nowhere |
| Supernode.Supernode.HandleRegister | pkg/supernode/handlers.go:108-143 | Unless the registration is accepted for an address live in another community: the new state is the one of `Register`, all indexes agree, and the packets added to those already sent are exactly one announcement of the edge to each other live member, or none when refused; edges in the index afterwards were there before or are new objects. When it is accepted, and which fields and sockets it leaves, is said by `Records.JoinsExactly`, `Records.EveryRecord` and `Records.SocketsExactly` |
| Supernode.Supernode.HandleHeartbeat | pkg/supernode/handlers.go:147-175 | Only a member proving its machine id is refreshed, in place, and only a move is announced, once to each other live member, after everything sent before; the fields this leaves are those of `Records.EveryRecord`, and `Records.HeartbeatExactly` says when a heartbeat counts |
| Supernode.Supernode.HandleUnregister | pkg/supernode/handlers.go:96-106 | A validated member is removed and announced, after everything sent before; anything else changes and sends nothing; no edge enters the index |
| Supernode.Supernode.Remove | pkg/supernode/registration.go:101-143 | After the edge has left its community the lookup by address still finds it, the announcement describes it as it was, and only then does it leave both indexes |
| Supernode.Supernode.HandleReport | pkg/supernode/handlers.go:13-28 | Reported peers are stored for members only; the index and the packets stay as they were |
| Supernode.Supernode.GetPeerInfoList | pkg/supernode/community.go:165-183 | The answer lists each other member once with its present data, and the asking edge itself as origin exactly when wanted and a member; `Told.AnswerTells` reads that data off the messages |
| Supernode.Supernode.GetOfflineCachedEdges | pkg/supernode/registration.go:165-186 | Exactly the addresses on record for the community as not registered, with their records |
| Supernode.Supernode.GetFullState | pkg/supernode/community.go:144-163 | Given to members only; reachable and unreachable never overlap |
| Supernode.Supernode.CleanupStaleEdges | pkg/supernode/cleanup.go:9-37 | Removes exactly the stale edges of all communities, found by the address each edge carries; state and announcements are those of that sequence of removals, the result is `Purged` of the state before, earlier packets stay and no edge enters the index |
| Supernode.Supernode.HandleAll | pkg/supernode/supernode.go:104-118 | Any list of registrations, heartbeats, removals, reports and cleanups without a collision can be handled in turn: the object stays valid, its history grows by the steps of those messages and its packets only grow |
| Messages.HomesNeverCollide | pkg/supernode/registration.go:76-99 | A list whose registrations name one community for each address, the one it is live in if any, has no collision, in whatever order cleanups remove |
| Supernode.Supernode.StaleEdges | pkg/supernode/community.go:416-427 | Each edge of any community older than the expiry is listed once, and no other |
| Supernode.FanOut | pkg/supernode/wire.go:85-106 | Exactly one packet to each edge of the community except the sender |
| Cleanup.CleanupIsExact | pkg/supernode/cleanup.go:9-37 | Removing the stale edges in any order leaves precisely the others in the same state, nothing of a removed edge among members, reported peers or sockets, an offline record for each, every other record untouched, and each removal announced with the edge as it was found |
| Cleanup.PurgeRun | pkg/supernode/cleanup.go:25-33 | The same for any list of distinct stale members |
| Records.JoinsExactly | pkg/supernode/registration.go:76-98 | A registration is accepted if and only if its secret holds a machine id deriving the claimed address, the community's name hashes to the hash given and is the one under that hash or a network is left, and the edge is known or gets a virtual address |
| Records.LeavesExactly | pkg/supernode/registration.go:100-131 | A member leaves in a step if and only if the step is a removal request for it whose secret derives its address, or a cleanup that finds its last message older than the expiry |
| Records.EveryRecord | pkg/supernode/community.go:224-326 | In every run each member's record is read off its messages: address, name, description, virtual address and machine id from the registration that created it, time and sequence number from its last accepted registration or heartbeat, public address from the last of these that says one, connection id from its last registration over a connection |
| Records.HeardLast | pkg/supernode/community.go:246-247 | The time and sequence number on record are those of the member's last accepted message |
| Records.SilentExactly | pkg/supernode/community.go:416-427 | A cleanup removes a member if and only if the last message accepted from it is older than the expiry |
| Records.CleanupByMessages | pkg/supernode/cleanup.go:9-37 | After a whole cleanup, in whatever order, a member is still there if and only if its last accepted message is within the expiry |
| Records.HeartbeatExactly | pkg/supernode/handlers.go:147-165 | A heartbeat of a member counts if and only if its secret holds the machine id of the registration that created the member |
| Records.SocketsExactly | pkg/supernode/handlers.go:129-136 | Over every run a socket is on record for a community if and only if an accepted registration of that community filed its edge there, by address or connection, and no later message filed an edge or removed one there |
| Records.SocketStays | pkg/supernode/handlers.go:124-136 | From an accepted registration on, as long as nothing is filed or removed there, the socket it came from is on record for its community |
| Records.CachedExactly | pkg/supernode/registration.go:145-156 | Over every run the record of an address is the one last written for it: a newcomer as registered with its registration's data, a member that left as not, each with the time of the message |
| Records.ReportsExactly | pkg/supernode/handlers.go:13-28 | Over every run the peers on record as reported by a member are those of its last report since it came, and nobody else has any |
| Relay.ShapeMac | pkg/machine/mac.go:73-113 | The derived address has six bytes, is unicast, locally administered and not zero, and keeps all other bits of the hash |
| Relay.MembersAreStations | pkg/supernode/registration.go:115-131 | In every reachable state every member's address is unicast and not zero, because registration accepts only the derived address |
| Relay.ForwardPacket | pkg/supernode/wire.go:55-82 | One attempt to the target with the flagged packet for version 5 and the unchanged one otherwise; none when flagging fails |
| Relay.RouteByBytes | pkg/protocol/protoV.go:37-62 | Exactly the packets of 30 bytes and version 5 have a route, and community, sender and destination are the bytes at their places, six zero bytes standing for no address |
| Relay.ForwardUnicast | pkg/supernode/wire.go:13-31 | Goes to the destination alone, exactly when sender and destination are members of the packet's community |
| Relay.ForwardWithFallback | pkg/supernode/wire.go:33-52 | The destination alone when it is a member and the send works; otherwise everybody but the sender, after the failed attempt if there was one; nothing for a sender that is not a member |
| Relay.HandleVFuze | pkg/supernode/handlers.go:243-271 | Goes on, unchanged and to the destination alone, exactly when the destination is a live member of the community recorded for the source socket |
| Relay.FastExactly | pkg/protocol/vfuze.go:20-35 | A fast-path packet goes on if and only if the fast path is on, the first byte is 0x51, and the six bytes behind it are a member of the community recorded for the socket |
| Relay.EverythingIsIsolated | pkg/supernode/wire.go:13-106 | Whatever messages and packets were interleaved before, each packet relayed goes to a live edge whose own record names the community filed under the hash it goes out under, and that name hashes to it; a data packet or ping comes from a live edge on record for the same community and changes by the relay flag only; a fast-path packet is unchanged and comes from a socket that an accepted registration in that community recorded |
| Relay.SocketProvenance | pkg/supernode/handlers.go:129-136 | Every socket on record stems from an accepted registration in the recorded community, by address or by connection id |
| Relay.FanOutIsComplete | pkg/supernode/wire.go:33-52 | A data packet from a live member whose destination is absent, multicast, broadcast or zero is attempted exactly once to each other live member and never to the sender |
| Wire.UnpackPack | pkg/protocol/message.go:20-43 | Unpacking what was packed gives header and payload back for version 5 and is refused for every other version |
| Wire.PackUnpack | pkg/protocol/message.go:27-43 | Exactly the packets of at least 30 bytes and version 5 unpack, and packing gives the same bytes back |
| Wire.Layout | pkg/protocol/protoV.go:15-35 | Where each field of the header is on the wire, most significant byte first |
| Wire.SetFromSupernode | pkg/protocol/protoV.go:97-111 | The relay flag is set and the other seven bits stay |
| Wire.FlaggingIsExact | pkg/protocol/message.go:78-85 | Flagging works for exactly the packets that unpack, changes one bit of the fourth byte, and is idempotent |
| Wire.VFuzeRoundTrip | pkg/protocol/vfuze.go:20-35 | Destination and payload of a fast-path packet are recovered, and no fast-path packet is taken for a version 5 packet |
| DataPath.PrepareOutput | pkg/tranform/processor.go:29-40 | Applies the transforms first to last and returns the first error |
| DataPath.ParseInput | pkg/tranform/processor.go:43-55 | Reverses the transforms last to first and returns the first error |
| DataPath.PipelineRoundTrip | pkg/tranform/processor.go:29-55 | For transforms that each undo themselves, parsing undoes preparing, whatever randomness was used |
| DataPath.HandleDataPayload | pkg/edge/handlers.go:98-125 | Short payloads skip the pipeline, others are parsed or dropped, and what is left is zero-padded to 60 bytes |
| DataPath.Pad60 | pkg/edge/handlers.go:114-120 | The frame itself, followed by zeros up to 60 bytes if it is shorter |
| DataPath.DatagramExactly | pkg/edge/routines.go:180-208 | The datagram for a frame byte by byte; the fast path is taken if and only if it is on and some byte of the destination is not 255 |
| DataPath.RobustDelivers | pkg/edge/client.go:171-199 | With no transform, or with authenticated encryption last, the 28-byte shortcut never skips a needed decryption |
| DataPath.BuiltDeliversExactly | pkg/edge/client.go:171-199 | For every pipeline the program builds from compression and encryption, a frame that does not start with the magic number of compressed data arrives if and only if it was not compressed without encryption to fewer than 28 bytes |
| DataPath.TaggedDeliversExactly | pkg/edge/handlers.go:98-112 | For any lawful pipeline whose last transform tags its output, a frame without the tag arrives if and only if the prepared payload has at least 28 bytes |
| DataPath.StationsAreUntagged | pkg/machine/mac.go:73-113 | No frame to a derived address or to everybody starts with the magic number of compressed data |
| DataPath.ShortcutCanAlter | pkg/edge/handlers.go:105-106 | A lawful tagging transform in the place of compression, and a frame that does not arrive |
| DataPath.NoLeftovers | pkg/edge/routines.go:237-278 | Every datagram, cut to the buffer, is handled as if it had a buffer of its own, unless it ends before the payload of a fast-path packet and matches the beginning of one to this edge |
| DataPath.LeftoversExactly | pkg/edge/routines.go:237-278 | The outcome of a datagram, the empty one included, is the same for all earlier contents of the buffer if and only if the datagram is not such a beginning |
| DataPath.Receive | pkg/edge/routines.go:237-280 | One received datagram leads to a frame, a control message or a drop exactly as `Demux` decides from the buffer and the length read |
| DataPath.ReceiveAll | pkg/edge/routines.go:217-281 | Over any list of datagrams in one buffer, each that is not cut short is handled as if it had a buffer of its own; the loop ends early only at one that is, with a slice out of range |
| DataPath.EndToEnd | pkg/supernode/wire.go:33-106 | In every reachable state, what the supernode sends on for a live member's full-header datagram holds a packet that the destination, or without a live destination every other member, turns into the original frame zero-padded to 60 bytes |
| DataPath.HandleThenRelay | pkg/supernode/wire.go:33-106 | From any valid state, after any list of messages, the datagram of a member that the object relays reaches every edge the frame is for as the frame zero-padded to 60 bytes |
| DataPath.EndToEndFast | pkg/supernode/handlers.go:243-271 | The same on the fast path, from the socket an accepted registration came from, for as long as nothing is filed or removed there, to any live member of that community |
| DataPath.WireToTap | pkg/edge/wire.go:67-164 | Directly or past the supernode, by fast path or full header, a frame sent through a robust pipeline is handed to the TAP device padded to 60 bytes, whatever the receive buffer held |
| Checksum.CalculateChecksum | pkg/benchmark/tap_benchmark.go:544-563 | The loop over a wrapping 32-bit sum and the carry loop compute `Code` for every input, and both terminate |
| Checksum.OnesSumIsFold | pkg/benchmark/tap_benchmark.go:556-559 | Folding carries out of a plain sum is the one's complement sum of section 1 of RFC 1071 |
| Checksum.CarryStep | pkg/benchmark/tap_benchmark.go:556-559 | One turn of the carry loop keeps the folded value and makes the number smaller |
| Checksum.NoWrap | pkg/benchmark/tap_benchmark.go:545-554 | Up to 131074 bytes the sum cannot wrap and the code computes the standard checksum |
| Checksum.ExactBound | pkg/benchmark/tap_benchmark.go:544-563 | 131074 is the largest length at which the code computes the standard checksum for all data |
| Checksum.WrapExact | pkg/benchmark/tap_benchmark.go:545-559 | Beyond it the code is right for a piece of data if and only if its word sum did not wrap, or wrapped a multiple of 65535 times without landing on zero |
| Checksum.StoreVerifies | pkg/benchmark/tap_benchmark.go:421-429 | At any length, the numbers that, stored in a zeroed aligned field, make the checksum of the whole zero are the checksum itself and, when that is zero and the sum is not 2^32 - 1, all ones |
| Ping.CreatePingPacket | pkg/benchmark/tap_benchmark.go:338-430 | The buffer becomes the echo request of `EchoRequest`, whatever it held, with the length in 16 bits and both checksums filled in |
| Ping.UpdateSequence | pkg/benchmark/tap_benchmark.go:434-456 | Sequence number and ICMP checksum are rewritten and nothing else |
| Ping.ConvertToEchoReply | pkg/benchmark/tap_benchmark.go:484-541 | The buffer becomes `EchoReply` of what it held |
| Ping.ConvertToEchoReplyWithMac | pkg/benchmark/tap_benchmark.go:758-811 | The same with the responder's own address, leaving the ICMP code alone |
| Ping.ReplyAnswers | pkg/benchmark/tap_benchmark.go:484-541 | For every buffer of any length: addresses swapped, type and code zero, identifier, sequence number and data kept, both checksums verify; the header checksum bytes stay if and only if they were right |
| Ping.VerifiesStandard | pkg/benchmark/tap_benchmark.go:544-563 | Verifying by the code's checksum is verifying by section 1 of RFC 1071 up to 131108 bytes |
| Ping.ReplyFromAnswers | pkg/benchmark/tap_benchmark.go:758-811 | The same for the variant with the responder's address |
| Ping.SwapKeepsSum | pkg/benchmark/tap_benchmark.go:504-506 | Swapping the two addresses does not change the header checksum (section 2 of RFC 1071) |
| Ping.PingExchange | pkg/benchmark/tap_benchmark.go:820-871 | After building, any sequence updates and conversion: the request is the IPv4 frame the program means, byte for byte outside checksums and addresses, with the addresses given; both packets verify, the header checksum is the same, and the reply is accepted for the last sequence number and no other |
| Ping.PingExchangeWithMac | pkg/benchmark/tap_benchmark.go:758-811 | The same exchange through the other responder |
| HostsText.FormatParses | pkg/syshosts/hostsfiles.go:102-136 | A formatted entry parses back to the same address and names if and only if there is a name and all names are non-empty and free of white space |
| HostsText.ParsesExactly | pkg/syshosts/hostsfiles.go:102-136 | A line is an active entry if and only if it has at least two words and the first is an address not starting with a hash sign; those words are then its address and names, and the line itself is always kept |
| HostsText.LineBreaks | pkg/syshosts/hostsfiles.go:67-76 | A line may end in a newline or in a carriage return and a newline, of which one carriage return is dropped |
| HostsText.ScanLimit | pkg/syshosts/hostsfiles.go:67-76 | A single line of plain characters is read if and only if it is shorter than 64 KiB |
| HostsText.PrintPreservesActive | pkg/syshosts/hostsfiles.go:245-267 | For any list whose raw lines carry what they say, the printed file can be read again if and only if every line has fewer than 65536 bytes, and then has the same active table |
| HostsText.PrintScans | pkg/syshosts/hostsfiles.go:67-76 | The scanner reaches the end of a printed file if and only if every raw line fits its buffer |
| HostsText.PrintPreservesEntries | pkg/syshosts/hostsfiles.go:59-79 | The whole list of entries comes back if and only if it is not empty and does not end in an empty line after others |
| HostsTable.RemoveDuplicatesMeaning | pkg/syshosts/extents.go:26-109 | Each name is left once, at its first occurrence; the address found first for a name stays the same, and inactive lines stay |
| HostsClean.CombineKeepsPairs | pkg/syshosts/extents.go:176-248 | Combining lines with the same address keeps exactly the same pairs |
| HostsClean.FindInCombined | pkg/syshosts/extents.go:176-248 | After combining, a name is found at the one of its addresses that appears first in the file |
| HostsClean.CombineNoRepeats | pkg/syshosts/extents.go:176-248 | After combining no address repeats and the inactive lines are the same, in the same order |
| HostsClean.CleanMeaning | pkg/syshosts/extents.go:254-404 | Cleaning reaches a normal form: every active name survives exactly once, under the one of its addresses that appears earliest in the file, addresses are unique, and inactive lines keep content and order |
| HostsClean.CleanIsIdempotent | pkg/syshosts/extents.go:254-404 | Cleaning again changes nothing; the lists it leaves alone are exactly the normal forms |
| HostsClean.WrappedMeaning | pkg/syshosts/extents.go:114-162 | Wrapping keeps the ordered list of pairs and the inactive lines, with at most the given number of names on a line |
| HostsClean.CombineAfterWrap | pkg/syshosts/extents.go:114-248 | Combining after wrapping a list in normal form restores the address and names of every entry |
| HostsOps.AddedIsUnion | pkg/syshosts/hostsfiles.go:142-203 | Adding is union on the set of pairs |
| HostsOps.RemovedIsFilter | pkg/syshosts/hostsfiles.go:417-474 | Removing a name leaves exactly the other pairs in the same order, and the inactive lines |
| HostsOps.RemovedByIpIsFilter | pkg/syshosts/hostsfiles.go:478-505 | Removing an address leaves exactly the pairs of the others in the same order, and the inactive lines |
| HostsOps.RemoveExactly | pkg/syshosts/hostsfiles.go:330-412 | The documented effect of removing names of one address, that exactly those pairs disappear, holds of a removal that reports success if and only if some line of the address loses all its names |
| HostsOps.RemoveCanDoNothing | pkg/syshosts/hostsfiles.go:408-411 | A concrete removal that reports success and leaves everything as it was |
| HostsSort.CompareIpsOrder | pkg/syshosts/extents.go:468-498 | The comparison is a total preorder, and two addresses compare equal exactly when they parse alike; `CompareIpsMeans` says which is smaller |
| HostsSort.CompareIpsMeans | pkg/syshosts/extents.go:468-498 | One address comes before another if and only if it does not parse and the other does, or it is IPv4 and the other IPv6, or both are of one kind and its bytes are smaller at the first difference |
| HostsSort.SortedByIpMeaning | pkg/syshosts/extents.go:431-457 | Sorting lines keeps all of them and the pairs, puts inactive ones first in their order, then the active ones ascending by the bytes of their addresses, and keeps the order among equal addresses |
| HostsSort.StableSortIsUnique | pkg/syshosts/extents.go:447-450 | Order and stability determine the result, so any stable sort gives this list |
| HostsSort.LinesSortedMeaning | pkg/syshosts/extents.go:408-425 | Sorting names orders each line's names and keeps them, with their address, and hence the pairs |
| HostsSort.NameLeIsBytes | pkg/syshosts/extents.go:413-418 | The order of names is that of their UTF-8 bytes: one may stand before another if and only if the other is not smaller at the first difference |
| HostsSort.SortNamesFixed | pkg/syshosts/extents.go:413-418 | Sorting leaves a line alone exactly when its names are in order, which is the test the program makes first |
| HostsRuns.EveryRunPersists | pkg/syshosts/hostsfiles.go:59-136 | After any sequence of operations with names free of white space, every raw line still carries what its entry says; the written file is read again if and only if every line fits the scanner, and then gives the same active table |
| HostsRuns.EveryRunRefinesSet | pkg/syshosts/hostsfiles.go:142-203 | Over any sequence of operations the file refines a set of pairs: adding is union, the removals are filters, combining, wrapping and both sorts are the identity |
| HostsAliasing.SlicesRead | pkg/syshosts/extents.go:137-154 | The slices of the backing array that a wrap makes read as the names of the chunks of `Wrapped` |
| HostsAliasing.AddAfterWrap | pkg/syshosts/extents.go:137-154 | A wrap makes chunks of one backing array, and adding to the address appends behind the first chunk. The lines are what an addition makes of the wrapped list, and every line still reads back, if and only if the names written are those that were there; the pairs are the union if and only if every name written over is still somewhere |
| HostsAliasing.AddAfterWrapCanLose | pkg/syshosts/hostsfiles.go:176-178 | A concrete addition after a wrap that loses a name and leaves a line that does not say what it holds |
| Hosts.Hosts.LoadAndParse | pkg/syshosts/hostsfiles.go:59-79 | The entries are the parsed lines, or an error exactly when some line does not fit the scanner |
| Hosts.Hosts.Open | pkg/syshosts/hostsfiles.go:82-99 | A new object with the entries read, or the error |
| Hosts.Hosts.Reload | pkg/syshosts/hostsfiles.go:531-546 | The entries are replaced by those read; after an error they are as they were |
| Hosts.Hosts.Text | pkg/syshosts/hostsfiles.go:245-258 | The text written is `Print` of the entries |
| Hosts.Hosts.Has | pkg/syshosts/hostsfiles.go:270-289 | Membership of the pair with the trimmed name, which must not be empty |
| Hosts.Hosts.HasHostname | pkg/syshosts/hostsfiles.go:292-311 | Some address has the trimmed name |
| Hosts.Hosts.HasIp | pkg/syshosts/hostsfiles.go:314-324 | Some active line has the address |
| Hosts.Hosts.Add | pkg/syshosts/hostsfiles.go:142-203 | Fails exactly for an invalid address or no usable name, changing nothing; otherwise the entries become `Added`, provided the address is on one line only or no line was split by a wrap since the last combining |
| Hosts.Hosts.Remove | pkg/syshosts/hostsfiles.go:330-412 | Succeeds exactly when a line of the address has one of the names, and then takes effect only when a whole line disappears |
| Hosts.Hosts.RemoveByHostname | pkg/syshosts/hostsfiles.go:417-474 | Fails exactly for a blank or absent name; otherwise every line loses the name and lines left without names go |
| Hosts.Hosts.RemoveByIp | pkg/syshosts/hostsfiles.go:478-505 | All active lines of the address go |
| Hosts.Hosts.RemoveDuplicateHosts | pkg/syshosts/extents.go:26-109 | The two passes with their seen-sets compute `RemoveDuplicates` |
| Hosts.Hosts.CombineDuplicateIps | pkg/syshosts/extents.go:176-248 | The two passes with the map of collected names compute `Combine`, which leaves lists without repeated addresses alone |
| Hosts.Hosts.Tidy | pkg/syshosts/extents.go:254-404 | The three steps compute `Clean` |
| Hosts.Hosts.WrapLines | pkg/syshosts/extents.go:114-162 | The nested loops compute `Wrapped`; a limit of zero or less changes nothing |
| Hosts.Hosts.SortHosts | pkg/syshosts/extents.go:408-425 | Each line's names are sorted, and the result says whether any line changed |
| Hosts.Hosts.SortIps | pkg/syshosts/extents.go:431-457 | The entries become `SortedByIp`, whose meaning `HostsSort.SortedByIpMeaning` gives by the bytes of the addresses |
| Hosts.Hosts.PerformAll | pkg/syshosts/extents.go:9-457 | Any sequence of operations in which additions meet that condition gives the entries `RunOps` gives |

## Left out

- Supernode.Supernode.HandleRegister: does not describe a registration accepted for an address that is live in another community, because the program then overwrites one index entry and its later lookup can find nothing; `EdgeIndex.RegistrationKeepsUnion` and `EdgeIndex.CollisionLosesEntry` state both. Interleavings of concurrent handlers are not modelled; each handler is atomic.
- Supernode.Supernode.EdgeUpdate: leaves out the same collision; a community's maps are a value inside one directory field rather than an object of its own, while the edge objects are shared and updated in place.
- Supernode.Supernode.HandleAll: leaves out lists with such a collision.
- Partition.PartitionExactly: beyond a collision it describes the value functions only. There a removal in the program describes, and drops the socket of, whatever edge the index holds under the address, or finds none and stops the program; the steps remove the member itself.
- Relay.EverythingIsIsolated: beyond a collision, the value functions only.
- Delivery.SentIsPosted: beyond a collision, the value functions only.
- Supernode.Supernode.RegisterMember: claims nothing about virtual addresses being different; the allocation outcome comes with the message.
- Replica.ReplicaConvergence: a direct request to forget a member counts only where it is harmless; `Replica.ForgettingExactly` shows that any other breaks the promise. Beyond a collision it describes the value functions only.
- Relay.HandleVFuze: uses only that a socket on record stems from an accepted registration; heartbeats move an edge without re-indexing it and connection ids are never deleted, so the socket index can hold stale entries.
- DataPath.EndToEnd: assumes that both edges use the same pipeline and that the datagram fits the receive buffer.
- Ping.PingExchange: beyond 131108 bytes both sides verify with the code's own checksum, which is then not the standard one for all data; a textual address that does not parse ends the program and is not modelled.
- HostsRuns.EveryRunPersists: entries are values; `Hosts.Hosts.PerformAll` says for which sequences the program's entries are, and `HostsAliasing.AddAfterWrap` what an addition does otherwise.
- HostsRuns.EveryRunRefinesSet: as above, and only operations with an exact meaning on pairs; removing duplicates, cleaning and `Remove` have theorems of their own.
- Hosts.Hosts.Add: leaves out an addition to an address on several lines after a wrap split one and nothing was combined since, because it writes into memory the lines share; `HostsAliasing.AddAfterWrap` describes it.
- Hosts.Hosts.PerformAll: leaves out sequences with such an addition.
- HostsText.PrintPreservesActive: text is a sequence of characters, counted in UTF-8 bytes for the scanner; bytes that are not UTF-8 are not modelled.
- PeerRegistry.PeerRegistry.ProcessAll: the pending-changes flag, timestamps and the packets a tick sends are not modelled.
- First-match lookup after combining or sorting lines by address: these can change which address is found first, so only the pairs are claimed.
- The boolean result of `UpdateP2PStatus` compares the requested status, not the stored one; no property is claimed of it beyond that.
- Heartbeats over a connection leave no address; a connection id that itself parses as an IP address is not modelled.
- Where an edge sends a packet to (`UDPAddrWithStrategy`), retry and register responses, leases, counters: easy members.
- Sockets, WebSocket and proxy transport, TAP devices, port mapping, logging, web API, command line, configuration: input and output.
- Hashing, RSA, AES, zstd, gzip, protobuf and the address pool: parameters with stated laws.
- Graph rendering, Ethernet accessors other than the destination, buffer pool, latency statistics, subnet proposal: easy members.
