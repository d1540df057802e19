# A Dafny model of the spacearth-dtn node core

This project models the core of a small delay-tolerant-networking node
written in Rust. Each part is a pure function over immutable values, and
the properties the node's code and tests rely on are proved about it. The
parts are:

- **Value types.** Endpoint identifiers and bundles with their expiry rule
  (`endpoint.dfy`, `bundle.dfy`).
- **Forwarding state.** The per-bundle bookkeeping of already-sent
  endpoints and forwarding attempts (`descriptor.dfy`).
- **Routing.** The cost-based routing table and the algorithm factory
  (`routing.dfy`). Epidemic peer selection, synchronous and
  reachability-checking (`epidemic.dfy`).
- **The file store.** A state machine over two directories: the store and
  the dispatched area (`store.dfy`). It covers insert, load, list,
  lookup by partial id, dispatch and expiry cleanup.
- **The TCP convergence layer.** The length-prefixed frame written by
  `send_bundle` and the receive loop `handle_connection` (`framing.dfy`).
  The `TcpPeer`/`TcpConnectionInfo` values (`peer.dfy`). The client's
  `activate`, which sends every stored bundle and moves the acknowledged
  ones to the dispatched directory (`dialer.dfy`).
- **The manager.** The convergence-layer manager's peer registry, its
  reachability filter, the receive hand-off and handles that share one
  registry (`manager.dfy`).
- **Configuration.** The mapping from the configured routing-algorithm name
  to an algorithm kind (`config.dfy`).
- **The node.** The `DtnNode` facade (`node.dfy`): route management, bundle
  insertion, peer and route selection for forwarding, and the bundle status
  summary.

## Supporting modules and stand-ins

- **Rust types.** `wrappers.dfy` renders `Option` and `Result`.
  `numeric.dfy` holds the fixed-width integers and big-endian `u32`
  conversion, decimal rendering and `u16` parsing. `text.dfy` holds
  `starts_with`, ASCII lowercasing, UTF-8 encoding and the UTF-8 validity
  check of `std::str::from_utf8`.
- **CBOR.** The node stores and sends bundles as CBOR. `codec.dfy` replaces
  that with a concrete self-delimiting encoding. What the node needs from
  CBOR is proved about it:
  - decoding inverts encoding;
  - the empty input does not decode;
  - trailing bytes are refused.
- **SHA-256.** Record file names are the SHA-256 hex digest of the bundle's
  identifying fields. In `store.dfy` a 64-digit lowercase-hex polynomial
  hash stands in for it. Only its length and alphabet are relied on, never
  its injectivity.
- **Outside facts become parameters:**
  - the clock is a `now: u64`;
  - whether a TCP connect to an address succeeds is `connects: string -> bool`;
    a later round of probes of the same peers is a second such function, which
    may answer differently;
  - what a peer answers to each sent bundle is `reply: string -> SendOutcome`,
    keyed by record id;
  - whether the configuration loads is a `Result` argument.

Where the code and its older tests disagree, the model follows the code:

- **Route selection.** Epidemic route selection returns no routes, although
  older tests expect some.
- **Truncated frame.** The server loop returns `Ok` when the stream ends
  inside a frame: it stops reading at `read_exact`'s error and falls through
  to `Ok(())`. The test `test_handle_connection_partial_data`
  (src/cla/tests.rs:814-835) expects the handler to time out or complete
  with an error. The model returns `Ok` (`Framing.HandleConnection`,
  `Framing.TruncatedFrame`).
- **Acknowledgement text.** The client counts any acknowledgement text as
  success, including an empty read and `"ERROR"`, provided the bytes read are
  valid UTF-8 (`Framing.EitherReplyIsSuccess`).

## Model

| member | source | states |
|---|---|---|
| Endpoint.FromString | src/bpv7/endpoint.rs:9-22 | building an identifier from a string and reading it back with `as_str` gives that string unchanged |
| Endpoint.AsStr | src/bpv7/endpoint.rs:47-51 | the rendered text (`as_str`, `Display`) determines the identifier: wrapping it again gives the same identifier |
| Endpoint.EqualityIsStringEquality | src/bpv7/endpoint.rs:5-6 | two identifiers are equal exactly when their strings are equal |
| Endpoint.DtnSchemeIffPrefix | src/bpv7/endpoint.rs:24-27 | `is_dtn_scheme` (`Endpoint.EndpointId.IsDtnScheme`) holds exactly when the string has at least six characters and begins with `dtn://` |
| Endpoint.NullIffReserved | src/bpv7/endpoint.rs:29-32 | `is_null` (`Endpoint.EndpointId.IsNull`) holds exactly for `dtn:none` and the empty string |
| Endpoint.NullIsNotDtnScheme | src/bpv7/endpoint.rs:24-32 | no identifier is both null and of the `dtn://` scheme |
| Bpv7.NewBundle | src/bpv7/bundle.rs:20-37 | a new bundle has version 7, report-to `none`, lifetime 3600, creation time `now`, and source, destination and payload exactly as given |
| Bpv7.ExpiryBoundary | src/bpv7/bundle.rs:39-45 | `is_expired` (`Bpv7.Bundle.IsExpired`): a bundle is not expired at exactly creation time plus lifetime, and is expired one second later |
| Bpv7.ExpiryIsMonotone | src/bpv7/bundle.rs:39-45 | `is_expired` (`Bpv7.Bundle.IsExpired`) is monotone: once expired, a bundle stays expired at every later time |
| Bpv7.FreshAndStaleBundles | src/bpv7/bundle.rs:20-45 | a bundle created now is not expired; one created 7200 seconds earlier with the default lifetime is |
| Descriptor.NewDescriptor | src/store/bundle_descriptor.rs:17-29 | a new descriptor keeps the bundle, has zero attempts and has been sent to no endpoint |
| Descriptor.MarkSent | src/store/bundle_descriptor.rs:31-42 | after marking, the descriptor has been sent to exactly the endpoints it was sent to before plus the marked one; bundle, attempts and creation time are unchanged |
| Descriptor.MarkSentIdempotent | src/store/bundle_descriptor.rs:31-33 | marking twice equals marking once; re-marking keeps the set's size, a new endpoint grows it by one |
| Descriptor.MarkAllHistory | src/store/bundle_descriptor.rs:31-42 | after any sequence of marks the already-sent set has only grown, and holds exactly the earlier endpoints plus the marked ones |
| Descriptor.SentToIffMarked | src/store/bundle_descriptor.rs:17-42 | starting from a new descriptor, `has_been_sent_to(e)` (`Descriptor.BundleDescriptor.HasBeenSentTo`) holds exactly when `e` was marked |
| Descriptor.IncrementForwardingAttempts | src/store/bundle_descriptor.rs:45-52 | below the `u32` maximum the attempt count grows by exactly one and nothing else changes |
| Descriptor.ReadyCharacterization | src/store/bundle_descriptor.rs:55-57 | `is_ready_for_forwarding` (`Descriptor.BundleDescriptor.IsReadyForForwarding`) holds exactly when the bundle is unexpired and below the attempt limit; a limit of zero is never ready |
| Descriptor.GetBundleId | src/store/bundle_descriptor.rs:60-65 | the id is the source, a `-`, then decimal digits, without a leading zero, whose value is the creation timestamp |
| Descriptor.BundleIdIgnoresOtherFields | src/store/bundle_descriptor.rs:60-65 | descriptors with the same source and creation time have the same id, whatever their destination, payload or forwarding state |
| Routing.NewTable | src/routing/algorithm.rs:24-28 | a new table has no route for any destination |
| Routing.AddRoute | src/routing/algorithm.rs:30-35 | adding appends the entry to its destination's list and leaves every other destination's list unchanged |
| Routing.GetRoutesForDestination | src/routing/algorithm.rs:37-42 | every returned entry is active and for the queried destination |
| Routing.AddRouteThenQuery | src/routing/algorithm.rs:30-42 | after adding, the query for that destination returns the earlier active entries in insertion order plus the new entry if active; other destinations are unaffected |
| Routing.GetAllRoutes | src/routing/algorithm.rs:44-50 | as a multiset, the result holds every active entry of every destination exactly as often as it was added, and no inactive entry |
| Routing.FindBestRoute | src/routing/algorithm.rs:53-57 | none exactly when the destination has no active entry; otherwise an active entry for it at the first position of minimum cost |
| Routing.BestOfThree | src/routing/algorithm.rs:53-57 | of three active routes costing 100, 5 and 50 the one costing 5 is best |
| Routing.CreateAlgorithm | src/routing/algorithm.rs:103-113 | both algorithm kinds produce epidemic routing; choosing prophet, and only prophet, reports the fallback warning |
| Epidemic.SelectPeersForForwarding | src/routing/epidemic.rs:23-41 | the loop with its seen-set computes the reference selection: the candidates at the first occurrence of each endpoint not yet sent to, in input order |
| Epidemic.SeenSetMembers | src/routing/epidemic.rs:23-36 | after a prefix of the candidates, the seen set holds exactly the endpoints of those candidates that the bundle was not sent to |
| Epidemic.SelectionProperties | src/routing/epidemic.rs:23-41 | the selection is an order-preserving pick of candidates; no selected endpoint was sent to; selected endpoints are distinct; every unsent candidate's endpoint is selected |
| Epidemic.DuplicateCandidateExample | src/routing/epidemic.rs:30-36 | among candidates p1, p2 and a later copy of p1 the first two are kept; after marking p1 only p2 is |
| Epidemic.SelectPeersForForwardingAsync | src/routing/epidemic.rs:44-64 | the reachability-checking loop computes the reference selection in which a first occurrence is dropped when unreachable |
| Epidemic.AsyncIsReachableSelection | src/routing/epidemic.rs:44-64 | a peer is selected by the checking variant exactly when the plain selection picks it and it is reachable |
| Epidemic.UnreachableFirstOccurrenceHidesDuplicates | src/routing/epidemic.rs:44-64 | when the first candidate with an endpoint is unreachable, no candidate with that endpoint is selected, even a reachable later one |
| Epidemic.SelectRoutesForForwarding | src/routing/epidemic.rs:66-74 | epidemic routing offers no route for any bundle and table |
| Config.GetRoutingAlgorithmType | src/config.rs:50-63 | prophet exactly when the name spells `prophet` in any letter case, epidemic otherwise; a warning quoting the name exactly when it spells neither |
| Config.ChoiceIgnoresCase | src/config.rs:50-51 | names with the same lowercase form choose the same algorithm and warn alike |
| Config.NamedChoices | src/config.rs:50-63 | `EPIDEMIC` and `Prophet` are recognised without a warning; `unknown_algorithm` falls back to epidemic with one |
| Codec.RoundTrip | src/store/file.rs:32-49 | the stored encoding of a bundle decodes back to the same bundle |
| Codec.EncodeInjective | src/store/file.rs:32-49 | distinct bundles have distinct encodings |
| Numeric.Be32RoundTrip | src/cla/tcp/server.rs:52-58 | reading back the big-endian bytes of a `u32` gives the number |
| Numeric.Be32Surjective | src/cla/tcp/server.rs:52-58 | every four-byte prefix is the big-endian rendering of the length it announces |
| Numeric.ParseU16OfDecimal | src/cla/tcp/client.rs:24-42 | parsing the decimal rendering of a port, with or without a leading `+`, gives the port back |
| Numeric.DigitsValueOfDecimal | src/store/bundle_descriptor.rs:60-65 | the decimal rendering of a number is all digits and denotes the number |
| Text.Utf8EncodeValid | src/api/node.rs:131-141 | the bytes of a message string are valid UTF-8 |
| Peer.NewConnectionInfo | src/cla/tcp/client.rs:24-42 | the address is kept verbatim and unreachable; the port is the `u16` parse of the text after the last colon, and 0 when there is no colon or the text does not parse |
| Peer.ConnectionInfoPortOfHostPort | src/cla/tcp/client.rs:24-42 | for `host:port` the parsed port is that port |
| Peer.ConnectionInfoWithoutColon | src/cla/tcp/client.rs:24-42 | an address without a colon gets port 0 |
| Peer.NewTcpPeer | src/cla/tcp/client.rs:79-85 | the peer reports the given endpoint id and, with no connection info, `get_connection_address` (`Peer.ConnectionAddress`) is the given address |
| Peer.FromEndpointId | src/cla/tcp/client.rs:88-95 | the peer uses the endpoint id's string as its address and is of type `tcp` |
| Peer.ConnectionAddressRepeatsPort | src/cla/tcp/client.rs:147-153 | with connection info built from `host:port`, the connection address (`Peer.ConnectionAddress`) is the full original address followed by `:port` again |
| Peer.ConnectAndCollectInfo | src/cla/tcp/client.rs:165-206 | the probe always succeeds with some info, whose address is the probed one and whose reachability is the connect outcome |
| Peer.IsReachable | src/cla/tcp/client.rs:135-141 | reachability is the outcome of connecting to the peer's address |
| Peer.Activate | src/cla/tcp/client.rs:118-126 | activating a TCP peer always succeeds |
| Framing.RawFrame | src/cla/tcp/client.rs:279-283 | a frame is four length bytes followed by the data itself |
| Framing.FrameAnnouncesLength | src/cla/tcp/client.rs:279-283 | a frame's first four bytes are the big-endian data length, after which come the data and then whatever follows |
| Framing.HandleConnection | src/cla/tcp/server.rs:41-83 | the loop always ends with Ok; at most one reply per four input bytes; fewer than four bytes or an over-long announced length end it with no delivery and no reply |
| Framing.HandleGoodFrame | src/cla/tcp/server.rs:67-73 | a frame carrying a bundle delivers it once, answers `OK`, then handles the rest of the stream |
| Framing.HandleBadFrame | src/cla/tcp/server.rs:74-78 | a frame that does not decode answers `ERROR`, delivers nothing and the loop continues |
| Framing.OkRepliesMatchDeliveries | src/cla/tcp/server.rs:50-80 | on every input the number of `OK` replies equals the number of delivered bundles |
| Framing.HandleFrames | src/cla/tcp/server.rs:50-80 | a stream of frames for bundles b1..bn delivers exactly b1..bn in order and answers `OK` n times |
| Framing.TruncatedFrame | src/cla/tcp/server.rs:61-64 | a stream cut anywhere inside a frame delivers nothing and answers nothing |
| Framing.SendBundle | src/cla/tcp/client.rs:276-291 | the bytes it sets out to write are the bundle's frame; success exactly when an acknowledgement was read whose first 16 bytes at most are valid UTF-8; a write or read failure is an I/O error |
| Framing.AckWindow | src/cla/tcp/client.rs:284-288 | the acknowledgement examined is a prefix of what the peer sent, at most 16 bytes, and all of it when that is short enough |
| Framing.EitherReplyIsSuccess | src/cla/tcp/client.rs:284-290 | an `OK`, an `ERROR` or an empty acknowledgement all count as success |
| Framing.AckCutInsideCharacter | src/cla/tcp/client.rs:284-288 | a valid UTF-8 acknowledgement whose 16-byte window cuts a two-byte character fails the send |
| Framing.SendThenReceive | src/cla/tcp/server.rs:58-73 | the receive loop fed the frame that `send_bundle` writes delivers exactly that bundle and writes back `OK` |
| Framing.CreateBundle | src/cla/tcp/client.rs:272-274 | `create_bundle` builds a bundle with the same defaults as `Bundle::new` |
| Manager.New | src/cla/manager.rs:27-35 | a new manager has no peers and has delivered nothing |
| Manager.IsRegistered | src/cla/manager.rs:38-48 | a registry holds an endpoint exactly when one of its peers reports it |
| Manager.RegisterPeer | src/cla/manager.rs:38-53 | a known endpoint changes nothing and activates nothing; a new one is activated once and appended whatever the activation outcome |
| Manager.RegisterKeepsIdsDistinct | src/cla/manager.rs:38-53 | registration keeps registry endpoints pairwise distinct and adds exactly the peer's endpoint |
| Manager.RegisterAllKeepsRegistry | src/cla/manager.rs:38-53 | after any sequence of registrations endpoints stay distinct, the registry holds exactly the earlier and the offered endpoints, and nothing else changes |
| Manager.DuplicateRegistration | src/cla/manager.rs:38-53 | registering a second peer with the same endpoint activates nothing and leaves the registry with the first peer only |
| Manager.ListAllPeers | src/cla/manager.rs:63-66 | every registered peer, in registration order |
| Manager.ListReachablePeers | src/cla/manager.rs:69-78 | an order-preserving subsequence of the registry holding exactly its reachable peers |
| Manager.ListPeers | src/cla/manager.rs:81-83 | the same reachable peers, in the same order |
| Manager.ReachableExtremes | src/cla/manager.rs:69-78 | when every peer is reachable the whole registry is listed; when none is, nothing is |
| Manager.SubsequenceKeepsIdsDistinct | src/cla/manager.rs:69-78 | a listed subsequence of a registry keeps its endpoints distinct |
| Manager.NotifyReceive | src/cla/manager.rs:55-60 | the received bundle is handed to the callback once; the registry is unchanged |
| Manager.NotifyDeliversEachOnce | src/cla/manager.rs:55-60 | after any sequence of receipts the callback has seen each bundle exactly as often as it was received |
| Manager.CloneHandle | src/cla/manager.rs:86-93 | in every registry state a clone lists the same peers as its original, and registering through the clone has exactly the effect of registering through the original |
| Manager.RegisterVia | src/cla/manager.rs:86-93 | registering through a handle updates that handle's registry as `register_peer` does: its listing gains the peer at the end unless the endpoint is already registered; every other registry is unchanged |
| Manager.ClonesShareRegistry | src/cla/manager.rs:86-93 | registrations through a manager and its clone are seen by both, in registration order |
| FileStore.New | src/store/file.rs:14-18 | a new store opens an existing directory as it is, or an empty one; the dispatched directory, which outlives every run, is taken over as an earlier run left it |
| FileStore.RecordId | src/store/file.rs:20-30 | a record id is 64 lowercase hexadecimal digits |
| FileStore.FileNameFor | src/store/file.rs:20-30 | the record's file name is the 64-character id with extension `cbor` |
| FileStore.FileNameIgnoresOtherFields | src/store/file.rs:20-30 | bundles that agree on version, source, destination and creation time share a file name, whatever their payload, lifetime or report-to |
| FileStore.Put | src/store/file.rs:32-42 | writing a file makes it hold exactly the written bytes and leaves every other file unchanged |
| FileStore.Load | src/store/file.rs:44-49 | not found exactly when the file is absent; otherwise the decoded bundle, or a decode error when the bytes do not decode |
| FileStore.LoadFailures | src/store/file.rs:44-57 | an absent record loads as not found, an undecodable one as a decode error, an unmatched prefix as `Bundle ID not found` |
| FileStore.Insert | src/store/file.rs:32-42 | after inserting, the bundle's file holds its encoding; every other file and the dispatched directory are unchanged |
| FileStore.InsertThenLoad | src/store/file.rs:32-49 | after inserting a bundle, loading its record id gives it back |
| FileStore.InsertKeepsOthers | src/store/file.rs:32-77 | inserting changes no other record, and lists exactly the earlier ids plus the new one |
| FileStore.InsertOverwrites | src/store/file.rs:32-42 | a later insert with the same record id replaces the earlier bundle |
| FileStore.List | src/store/file.rs:66-77 | exactly the stems of the `cbor` files |
| FileStore.ListDistinct | src/store/file.rs:66-77 | listed ids are pairwise distinct |
| FileStore.FindByPartialId | src/store/file.rs:59-64 | the first listed id that starts with the prefix (no earlier listed id does), or none when no listed id does |
| FileStore.EarlierPrefixedIdWins | src/store/file.rs:59-64 | when two listed ids both start with the prefix, the later one is never the match |
| FileStore.FirstPrefixed | src/store/file.rs:59-64 | the match is the first listed id starting with the prefix |
| FileStore.LoadByPartialId | src/store/file.rs:51-57 | `Bundle ID not found` when no id matches, otherwise the load of the first match |
| FileStore.InsertThenLoadByPartialId | src/store/file.rs:51-64 | a prefix matching only the inserted bundle's id loads that bundle |
| FileStore.FindOwnId | src/store/file.rs:59-64 | a full listed id resolves to itself, because ids of one length are never prefixes of each other |
| FileStore.ConsistencyIsKept | src/store/file.rs:14-88 | opening an empty store, inserting and dispatching keep every record decodable and stored under its own id |
| FileStore.DispatchOne | src/store/file.rs:79-88 | the record moves to the dispatched directory under the same name, created if needed; an absent record is not found and changes nothing; every other file is unchanged |
| FileStore.InsertThenDispatch | src/store/file.rs:79-88 | a just-inserted bundle dispatches; afterwards the dispatched copy holds its encoding and the store no longer has it |
| FileStore.CleanupExpired | src/store/file.rs:90-126 | cleanup only removes files, leaves the dispatched directory alone, and fails only with a decoding error |
| FileStore.CleanupFrom | src/store/file.rs:98-123 | from any point of the sweep, files are only removed, the dispatched directory is untouched and a failure is a decoding error |
| FileStore.CleanupFromStep | src/store/file.rs:98-123 | a turn on an id that loads removes `{id}.cbor` when the bundle is expired and goes on with the next id |
| FileStore.CleanupRemovesExactlyExpired | src/store/file.rs:90-126 | cleanup of a consistent store succeeds and removes exactly the records that decode and are expired |
| FileStore.SweepFromStart | src/store/file.rs:90-126 | cleanup visits listed ids in order, removing expired ones, and stops with a decode error at the first undecodable record |
| FileStore.CleanupStopsAtUndecodable | src/store/file.rs:99-108 | an undecodable record makes cleanup fail; everything removed before that point was an expired record |
| Dialer.Activate | src/cla/tcp/client.rs:251-269 | a failed connect writes nothing and fails; an empty store writes nothing and succeeds |
| Dialer.ActivateMovesAcknowledged | src/cla/tcp/client.rs:251-269 | on a consistent store every bundle is attempted in listing order and its frame counted as written; exactly the acknowledged records move to the dispatched directory; all else is kept |
| Dialer.ActivateDeliversStore | src/cla/tcp/client.rs:258-262 | a receiver fed the frames the client counts as written delivers every stored bundle, in listing order |
| Dialer.UndecodableRecordAborts | src/cla/tcp/client.rs:258-259 | an undecodable first record aborts the loop with a load error before anything is written |
| Dialer.DispatchFrom | src/cla/tcp/client.rs:257-266 | unless the loop fails, at least one length prefix is written per remaining id |
| Dialer.DispatchFromStep | src/cla/tcp/client.rs:257-266 | a turn on an id that loads writes its frame, moves the record when the send succeeds, and goes on with the next id |
| Dialer.DispatchSweep | src/cla/tcp/client.rs:258-267 | from any point in the loop the remaining ids are all sent and exactly the acknowledged ones are moved |
| Node.WithRoutingAlgorithm | src/api/node.rs:66-82 | a node with epidemic routing, an empty routing table, a new manager and the store opened on the directory and on what the dispatched directory holds |
| Node.WithStorePath | src/api/node.rs:42-57 | fails exactly when the configuration fails to load; otherwise a node for the configured algorithm name |
| Node.NewNodeValid | src/api/node.rs:42-82 | a freshly built node satisfies the node invariant exactly when its directory is missing or holds only records written by `insert`; an empty directory always does |
| Node.StrayRecordOpensInvalidNode | src/api/node.rs:66-82 | a directory with one `abc.cbor` file holding no bundle opens into a node outside the invariant |
| Node.AddRoute | src/api/node.rs:85-92 | needs only a well-formed table, not a consistent store; fails exactly when the table lock is poisoned; otherwise the table gains the entry, stays well formed, and a valid node stays valid |
| Node.GetAllRoutes | src/api/node.rs:100-106 | fails exactly when the lock is poisoned; otherwise every active entry, as a multiset |
| Node.FindBestRoute | src/api/node.rs:109-118 | fails exactly when the lock is poisoned; otherwise the routing table's own answer: none exactly when there is no active route, else the first active route of least cost |
| Node.AddedCheaperRouteIsBest | src/api/node.rs:85-118 | a new active route cheaper than every existing one becomes the best route |
| Node.MessageBundle | src/api/node.rs:131-141 | the bundle takes its fields from the configuration, its creation time from the clock and its payload from the message's bytes |
| Node.InsertBundle | src/api/node.rs:121-151 | a configuration failure stores nothing; otherwise the message bundle is stored and table and manager are unchanged |
| Node.InsertBundleThenShow | src/api/node.rs:121-151 | after inserting a message its bundle is found by record id, and the status for that id shows it |
| Node.Rewrap | src/api/node.rs:166-175 | each selected peer is rebuilt as a TCP peer with the same endpoint id and connection address and no connection info |
| Node.SelectPeersForForwarding | src/api/node.rs:154-177 | the rewrapped epidemic selection over the reachable peers: distinct endpoints, every reachable peer's endpoint present, nothing else |
| Node.RewrappedSelectionDistinct | src/api/node.rs:154-177 | rewrapped selected peers have distinct endpoints |
| Node.RewrappedSelectionCovers | src/api/node.rs:154-177 | with a fresh descriptor every candidate's endpoint is selected |
| Node.RewrappedSelectionSound | src/api/node.rs:154-177 | every selected endpoint is a candidate's |
| Node.SelectPeersForForwardingAsync | src/api/node.rs:285-310 | the peers that pass the first probe are selected by the checking algorithm under a second, independent probe, then rewrapped; when every candidate also passes the second probe, this is the plain selection |
| Node.StableProbesSelectPlainly | src/api/node.rs:285-310 | when the second probe answers as the first did, the checking selection over the reachable peers equals the plain one |
| Node.AsyncOnReachable | src/api/node.rs:285-310 | when every candidate is reachable the reachability check drops nothing |
| Node.SelectRoutesForForwarding | src/api/node.rs:180-193 | fails exactly when the lock is poisoned; otherwise no routes |
| Node.GetBundleStatus | src/api/node.rs:206-237 | with an id, the loaded bundle under the id as given, or the load error; without, a summary whose total is active plus expired, at most the listed count |
| Node.TallyMatchesCleanup | src/api/node.rs:215-235 | over a consistent store every listed id is counted, and the active ones are exactly those cleanup would keep |
| Node.SummaryMatchesCleanup | src/api/node.rs:215-235 | the summary's total is the listed count and its active count is what cleanup would leave |

## Left out

- Sockets, timeouts and the listener's accept loop: a connect attempt is
  the `connects` parameter and a peer's answer is the `reply` parameter.
  `start_tcp_listener`, `start_tcp_dialer` and `TcpClaListener::activate`
  only wire these together.
- Concurrency and async scheduling: every operation is one atomic step. The
  mutex around the routing table is reduced to a poisoned flag, which makes
  the table operations fail.
- Filesystem errors other than a missing file are not modelled: permissions,
  a full disk, a failing `read_dir`, `create_dir_all` or `rename`.
- Directory enumeration order is the order of the directory's entry
  sequence; the file system promises none.
- Paths: a directory is a list of (stem, extension) names, so path
  separators and names without a stem are not represented. The client
  always uses one dispatched directory; what it holds when a store is opened
  is a parameter of `FileStore.New`.
- SHA-256 and CBOR: the hash is replaced by a fixed-length polynomial hash
  and CBOR by a varint encoding with the same round-trip property. The
  encoding accepts no non-canonical alternatives.
- Lowercasing is ASCII-only. `to_lowercase` also maps non-ASCII letters, but
  the only words compared are `epidemic` and `prophet`. The only non-ASCII
  character that lowercases into ASCII is the Kelvin sign, to `k`, which
  neither word contains.
- `TcpConnectionInfo`'s latency, connection time and socket addresses are
  display-only and not modelled. So are all printing and logging, and
  `display_info`.
- Bpv7.Bundle.IsExpired: the sum of creation time and lifetime is taken in
  unbounded integers. The source adds them as `u64`, which overflows only
  when the sum exceeds 2^64 - 1; a configured lifetime that large is not
  modelled.
- Framing.HandleFrames: requires every encoding to be shorter than 2^32
  bytes. `send_bundle` truncates longer lengths to `u32`
  (`Numeric.TruncateToU32`) and the stream then desynchronises.
- Framing.SendBundle: it returns the whole frame as the bytes it sets out
  to write, including when a `write_all` fails. In that case the connection
  carries at most part of the frame; how much is not modelled.
- Dialer.DispatchFrom: every frame is counted as written, including the
  frame of a send that failed.
- Dialer.ActivateMovesAcknowledged: its `written` clause lists the frame of
  every stored bundle, including a send whose `write_all` failed. On the
  real connection such a frame is missing or cut short.
- Dialer.ActivateDeliversStore: it is about the frames the client counts as
  written. When a write fails, the real receiver does not get that bundle,
  and the stream may be cut mid-frame. For the real connection, its
  conclusion holds only when no write fails.
- The callback a manager hands received bundles to is kept as the ordered
  list of bundles it was called with.
- Manager: clones are handles into a map of shared registries rather than
  reference-counted shared state (`Arc`).
- Node.Valid: routing-table buckets hold entries for their own destination,
  and the store holds only records written by `insert`. Only the lemmas about
  the store's contents (`Node.InsertBundleThenShow`,
  `Node.SummaryMatchesCleanup`) assume it; the routing calls need only a
  well-formed table.
- NewNodeValid: a node opened over a directory holding other `cbor` files
  (`Node.StrayRecordOpensInvalidNode`) is outside `Node.Valid`. The lemmas
  that assume `Node.Valid` say nothing about such a node. The operations
  themselves are modelled for every node.
- `DtnNode::new`, `with_config` and `Default`: these choose a store path
  from an environment variable, the configuration file or a constant, then
  call `with_store_path`. Reading the environment and the file is outside
  the model.
- `list_bundles`, `show_bundle` and `cleanup_expired` on the node delegate
  directly to `FileStore.List`, `FileStore.LoadByPartialId` and
  `FileStore.CleanupExpired`.
- `notify_new_bundle` of epidemic routing changes no state
  (`Epidemic.NotifyNewBundle` returns the algorithm unchanged).
- Bluetooth convergence layers, the command-line tool, examples and
  configuration loading are not part of this model.
