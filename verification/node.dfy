// The node facade: the store, the routing table, the routing algorithm and
// the convergence-layer manager behind one API.

module Node {
  import opened Wrappers
  import opened Numeric
  import opened Text
  import opened Endpoint
  import opened Bpv7
  import opened Codec
  import opened Descriptor
  import opened Routing
  import opened Peer
  import opened Manager
  import Epidemic
  import opened FileStore
  import Config

  const LOCK_FAILED: string := "Failed to lock routing table"

  /** The node's state. The routing table sits behind a lock that a
      panicking holder leaves poisoned for good; `tablePoisoned` says
      whether that has happened. */
  datatype DtnNode = DtnNode(
    store: BundleStore,
    table: RoutingTable,
    algorithm: RoutingAlgorithm,
    manager: ClaManager,
    tablePoisoned: bool)

  datatype NodeError = LockFailed(message: string) | ConfigFailed(message: string) | StoreFailed(error: StoreError)

  /** The `[bundle]` and `[endpoints]` settings of the configuration. */
  datatype BundleSettings = BundleSettings(
    version: u8,
    lifetime: u64,
    destination: string,
    source: string,
    reportTo: string)

  datatype BundleStatus =
    | Single(id: string, bundle: Bundle)
    | Summary(active: nat, expired: nat, total: nat)

  /** What every reachable node state satisfies: the routing table is well
      formed and the store holds only records written by `insert`. */
  ghost predicate Valid(n: DtnNode) {
    n.table.Valid() && Consistent(n.store.dir)
  }

  /** `with_routing_algorithm`: opens the store at its path (`existing` is
      what is found there, `dispatchedFound` what is found in the dispatched
      directory), with an empty table and manager. */
  function WithRoutingAlgorithm(existing: Option<Dir>, dispatchedFound: Option<Dir>, config: RoutingConfig): (n: DtnNode)
    ensures n.algorithm == EpidemicRouting && n.table == NewTable() && n.manager == Manager.New()
    ensures n.store == FileStore.New(existing, dispatchedFound) && !n.tablePoisoned
  {
    DtnNode(FileStore.New(existing, dispatchedFound), NewTable(), CreateAlgorithm(config).0, Manager.New(), false)
  }

  /** `with_store_path`: as above, with the algorithm named in the loaded
      configuration; a configuration that fails to load is an error. */
  function WithStorePath(existing: Option<Dir>, dispatchedFound: Option<Dir>, algorithmName: Result<string, string>): (r: Result<DtnNode, NodeError>)
    ensures algorithmName.Err? <==> r.Err?
    ensures algorithmName.Err? ==> r.error == ConfigFailed(algorithmName.error)
    ensures r.Ok? ==> r.value == WithRoutingAlgorithm(existing, dispatchedFound, RoutingConfig(Config.GetRoutingAlgorithmType(algorithmName.value).kind))
  {
    match algorithmName
    case Err(e) => Err(ConfigFailed(e))
    case Ok(name) => Ok(WithRoutingAlgorithm(existing, dispatchedFound, RoutingConfig(Config.GetRoutingAlgorithmType(name).kind)))
  }

  /** A freshly opened node is valid exactly when its directory is missing
      or holds only records written by `insert`; in particular an empty
      directory gives a valid node, and a stray `cbor` file does not. */
  lemma NewNodeValid(existing: Option<Dir>, dispatchedFound: Option<Dir>, config: RoutingConfig)
    ensures Valid(WithRoutingAlgorithm(existing, dispatchedFound, config)) <==>
              existing.None? || Consistent(existing.value)
    ensures Valid(WithRoutingAlgorithm(Some([]), dispatchedFound, config))
  {
  }

  /** A directory holding one `abc.cbor` file with no bundle in it, as
      left by another program, opens into a node that is not valid. */
  lemma StrayRecordOpensInvalidNode(dispatchedFound: Option<Dir>, config: RoutingConfig)
    ensures !Valid(WithRoutingAlgorithm(Some([Entry(FileName("abc", Some(CBOR_EXT)), [])]), dispatchedFound, config))
  {
  }

  // ---------------------------------------------------------------------
  // Routing-table access

  /** `add_route`. */
  function AddRoute(n: DtnNode, e: RouteEntry): (r: Result<DtnNode, NodeError>)
    requires n.table.Valid()
    ensures n.tablePoisoned <==> r.Err?
    ensures r.Err? ==> r.error == LockFailed(LOCK_FAILED)
    ensures r.Ok? ==> r.value == n.(table := Routing.AddRoute(n.table, e)) && r.value.table.Valid()
    ensures Valid(n) && r.Ok? ==> Valid(r.value)
  {
    if n.tablePoisoned then Err(LockFailed(LOCK_FAILED))
    else Ok(n.(table := Routing.AddRoute(n.table, e)))
  }

  /** `get_all_routes`. */
  method GetAllRoutes(n: DtnNode) returns (r: Result<seq<RouteEntry>, NodeError>)
    requires n.table.Valid()
    ensures n.tablePoisoned <==> r.Err?
    ensures r.Err? ==> r.error == LockFailed(LOCK_FAILED)
    ensures r.Ok? ==>
              forall e :: multiset(r.value)[e] == if e.isActive then multiset(n.table.Bucket(e.destination))[e] else 0
  {
    if n.tablePoisoned {
      r := Err(LockFailed(LOCK_FAILED));
    } else {
      var routes := Routing.GetAllRoutes(n.table);
      r := Ok(routes);
    }
  }

  /** `find_best_route`. */
  function FindBestRoute(n: DtnNode, d: EndpointId): (r: Result<Option<RouteEntry>, NodeError>)
    requires n.table.Valid()
    ensures n.tablePoisoned <==> r.Err?
    ensures r.Err? ==> r.error == LockFailed(LOCK_FAILED)
    ensures r.Ok? ==> (r.value.None? <==> GetRoutesForDestination(n.table, d) == [])
    ensures r.Ok? && r.value.Some? ==>
              && r.value.value.isActive && r.value.value.destination == d
              && forall q :: q in GetRoutesForDestination(n.table, d) ==> r.value.value.cost <= q.cost
    ensures r.Ok? && r.value.Some? ==>
              exists i :: IsFirstMinimum(GetRoutesForDestination(n.table, d), i)
                          && GetRoutesForDestination(n.table, d)[i] == r.value.value
    ensures r.Ok? ==> r.value == Routing.FindBestRoute(n.table, d)
  {
    if n.tablePoisoned then Err(LockFailed(LOCK_FAILED))
    else
      var best := Routing.FindBestRoute(n.table, d);
      assert best.Some? ==> forall q :: q in GetRoutesForDestination(n.table, d) ==> best.value.cost <= q.cost;
      Ok(best)
  }

  /** A route added through the node is the best route for its destination
      when it is active and cheaper than every active route already there. */
  lemma AddedCheaperRouteIsBest(n: DtnNode, e: RouteEntry)
    requires n.table.Valid() && !n.tablePoisoned && e.isActive
    requires forall q :: q in GetRoutesForDestination(n.table, e.destination) ==> e.cost < q.cost
    ensures FindBestRoute(AddRoute(n, e).value, e.destination) == Ok(Some(e))
  {
    var t := Routing.AddRoute(n.table, e);
    AddRouteThenQuery(n.table, e, e.destination);
    var routes := GetRoutesForDestination(t, e.destination);
    var old_ := GetRoutesForDestination(n.table, e.destination);
    assert routes == old_ + [e];
    assert routes[|old_|] == e;
    assert forall j :: 0 <= j < |old_| ==> routes[j] == old_[j] && old_[j] in old_;
  }

  // ---------------------------------------------------------------------
  // Bundles

  /** The bundle `insert_bundle` builds: the configured settings, the
      creation time `now`, and the message's UTF-8 bytes as payload. */
  function MessageBundle(settings: BundleSettings, message: string, now: u64): (b: Bundle)
    ensures b.primary.version == settings.version && b.primary.lifetime == settings.lifetime
    ensures b.primary.destination == settings.destination && b.primary.source == settings.source
    ensures b.primary.reportTo == settings.reportTo && b.primary.creationTimestamp == now
    ensures b.payload == Utf8Encode(message)
  {
    Bundle(PrimaryBlock(settings.version, settings.destination, settings.source, settings.reportTo, now, settings.lifetime),
           Utf8Encode(message))
  }

  /** `insert_bundle`: stores the bundle built from the message, then
      notifies the routing algorithm. A configuration that fails to load
      ends the call before anything is stored. */
  function InsertBundle(n: DtnNode, settings: Result<BundleSettings, string>, message: string, now: u64): (r: Result<DtnNode, NodeError>)
    ensures settings.Err? ==> r == Err(ConfigFailed(settings.error))
    ensures settings.Ok? ==>
              && r.Ok?
              && r.value.store == Insert(n.store, MessageBundle(settings.value, message, now))
              && r.value.table == n.table && r.value.manager == n.manager
              && r.value.tablePoisoned == n.tablePoisoned
  {
    match settings
    case Err(e) => Err(ConfigFailed(e))
    case Ok(config) =>
      var b := MessageBundle(config, message, now);
      var stored := n.(store := Insert(n.store, b));
      Ok(stored.(algorithm := Epidemic.NotifyNewBundle(stored.algorithm, NewDescriptor(b, now))))
  }

  /** Inserting keeps the node valid, and the stored bundle can be read
      back by its record id: its payload is the message's bytes. */
  lemma InsertBundleThenShow(n: DtnNode, settings: BundleSettings, message: string, now: u64)
    requires Valid(n)
    ensures var r := InsertBundle(n, Ok(settings), message, now);
            && Valid(r.value)
            && LoadByPartialId(r.value.store, RecordId(MessageBundle(settings, message, now))) ==
               Ok(MessageBundle(settings, message, now))
            && GetBundleStatus(r.value, Some(RecordId(MessageBundle(settings, message, now))), now) ==
               Ok(Single(RecordId(MessageBundle(settings, message, now)), MessageBundle(settings, message, now)))
  {
    var b := MessageBundle(settings, message, now);
    var s := Insert(n.store, b);
    ConsistencyIsKept(n.store, b, None, None);
    WellFormedPrefixFree(s.dir);
    InsertKeepsOthers(n.store, b, RecordId(b));
    FindOwnId(s, RecordId(b));
    InsertThenLoad(n.store, b);
  }

  // ---------------------------------------------------------------------
  // Forwarding

  /** Each selected peer rebuilt as a plain TCP peer with the same endpoint
      id and its connection address as address. */
  function Rewrap(ps: seq<ClaPeer>): (r: seq<ClaPeer>)
    ensures |r| == |ps|
    ensures forall k :: 0 <= k < |r| ==>
              && PeerEndpointId(r[k]) == PeerEndpointId(ps[k])
              && ConnectionAddress(r[k]) == ConnectionAddress(ps[k])
              && r[k].connectionInfo.None?
  {
    seq(|ps|, k requires 0 <= k < |ps| => NewTcpPeer(PeerEndpointId(ps[k]), ConnectionAddress(ps[k])))
  }

  /** `select_peers_for_forwarding`: a fresh descriptor (sent to no one),
      the manager's reachable peers, epidemic selection over them, each
      selected peer rewrapped. The result holds one peer per endpoint id
      among the reachable registered peers, in registration order, each
      with the connection address of the first reachable peer with that
      id. */
  method SelectPeersForForwarding(n: DtnNode, b: Bundle, now: u64, connects: string -> bool)
    returns (r: Result<seq<ClaPeer>, NodeError>)
    ensures r.Ok?
    ensures r.value == Rewrap(Epidemic.Selected(NewDescriptor(b, now), ListReachablePeers(n.manager, connects)))
    ensures forall k1, k2 :: 0 <= k1 < k2 < |r.value| ==> PeerEndpointId(r.value[k1]) != PeerEndpointId(r.value[k2])
    ensures forall q :: q in n.manager.peers && IsReachable(q, connects) ==>
              exists k :: 0 <= k < |r.value| && PeerEndpointId(r.value[k]) == PeerEndpointId(q)
    ensures forall k :: 0 <= k < |r.value| ==>
              exists q :: q in n.manager.peers && IsReachable(q, connects) && PeerEndpointId(q) == PeerEndpointId(r.value[k])
  {
    var d := NewDescriptor(b, now);
    var peers := ListReachablePeers(n.manager, connects);
    var selected := Epidemic.SelectPeersForForwarding(n.algorithm, d, peers);
    RewrappedSelectionDistinct(d, peers);
    RewrappedSelectionCovers(d, peers);
    RewrappedSelectionSound(d, peers);
    r := Ok(Rewrap(selected));
  }

  /** The rewrapped selection names no endpoint id twice. */
  lemma RewrappedSelectionDistinct(d: BundleDescriptor, peers: seq<ClaPeer>)
    ensures var out := Rewrap(Epidemic.Selected(d, peers));
            forall k1, k2 :: 0 <= k1 < k2 < |out| ==> PeerEndpointId(out[k1]) != PeerEndpointId(out[k2])
  {
    var selected := Epidemic.Selected(d, peers);
    var out := Rewrap(selected);
    Epidemic.SelectionProperties(d, peers);
    forall k1, k2 | 0 <= k1 < k2 < |out|
      ensures PeerEndpointId(out[k1]) != PeerEndpointId(out[k2])
    {
      assert Epidemic.Eid(selected[k1]) != Epidemic.Eid(selected[k2]);
    }
  }

  /** Over a fresh descriptor, the rewrapped selection names the endpoint
      id of every candidate. */
  lemma RewrappedSelectionCovers(d: BundleDescriptor, peers: seq<ClaPeer>)
    requires forall e :: !d.HasBeenSentTo(e)
    ensures var out := Rewrap(Epidemic.Selected(d, peers));
            forall q :: q in peers ==> exists k :: 0 <= k < |out| && PeerEndpointId(out[k]) == PeerEndpointId(q)
  {
    var selected := Epidemic.Selected(d, peers);
    var out := Rewrap(selected);
    forall q | q in peers
      ensures exists k :: 0 <= k < |out| && PeerEndpointId(out[k]) == PeerEndpointId(q)
    {
      var i :| 0 <= i < |peers| && peers[i] == q;
      var k := Epidemic.CoveringIndex(d, peers, i);
      assert PeerEndpointId(out[k]) == PeerEndpointId(q);
    }
  }

  /** Every peer of the rewrapped selection carries the endpoint id of a
      candidate. */
  lemma RewrappedSelectionSound(d: BundleDescriptor, peers: seq<ClaPeer>)
    ensures var out := Rewrap(Epidemic.Selected(d, peers));
            forall k :: 0 <= k < |out| ==> exists q :: q in peers && PeerEndpointId(q) == PeerEndpointId(out[k])
  {
    var selected := Epidemic.Selected(d, peers);
    var out := Rewrap(selected);
    var idx := Epidemic.ChosenUpTo(d, peers, |peers|);
    forall k | 0 <= k < |out|
      ensures exists q :: q in peers && PeerEndpointId(q) == PeerEndpointId(out[k])
    {
      assert selected[k] == peers[idx[k]];
      assert peers[idx[k]] in peers;
    }
  }

  /** `select_peers_for_forwarding_async`: the reachable peers, found with
      one round of probes (`connects`), are handed to the algorithm, which
      probes each candidate again (`connectsAgain`, a second connect that
      may answer differently). When every candidate answers the second
      probe, the result is the plain selection over the reachable peers. */
  method SelectPeersForForwardingAsync(n: DtnNode, b: Bundle, now: u64,
                                       connects: string -> bool, connectsAgain: string -> bool)
    returns (r: Result<seq<ClaPeer>, NodeError>)
    ensures r.Ok?
    ensures r.value == Rewrap(Epidemic.SelectedAsync(NewDescriptor(b, now), ListReachablePeers(n.manager, connects), connectsAgain))
    ensures (forall q :: q in ListReachablePeers(n.manager, connects) ==> IsReachable(q, connectsAgain)) ==>
              r.value == Rewrap(Epidemic.Selected(NewDescriptor(b, now), ListReachablePeers(n.manager, connects)))
  {
    var d := NewDescriptor(b, now);
    var peers := ListReachablePeers(n.manager, connects);
    var selected := Epidemic.SelectPeersForForwardingAsync(n.algorithm, d, peers, connectsAgain);
    if forall q :: q in peers ==> IsReachable(q, connectsAgain) {
      AsyncOnReachable(d, peers, connectsAgain, |peers|);
    }
    r := Ok(Rewrap(selected));
  }

  /** When the second probe agrees with the first, the probing selection
      over the reachable peers is the plain one. */
  lemma StableProbesSelectPlainly(m: ClaManager, d: BundleDescriptor, connects: string -> bool)
    ensures var peers := ListReachablePeers(m, connects);
            Epidemic.SelectedAsync(d, peers, connects) == Epidemic.Selected(d, peers)
  {
    var peers := ListReachablePeers(m, connects);
    AsyncOnReachable(d, peers, connects, |peers|);
  }

  /** When every candidate answers the probe, the probing selection picks
      the same positions as the plain one. */
  lemma {:induction false} AsyncOnReachable(d: BundleDescriptor, peers: seq<ClaPeer>, connects: string -> bool, k: nat)
    requires k <= |peers|
    requires forall q :: q in peers ==> IsReachable(q, connects)
    ensures Epidemic.ChosenAsyncUpTo(d, peers, connects, k) == Epidemic.ChosenUpTo(d, peers, k)
  {
    if k > 0 {
      AsyncOnReachable(d, peers, connects, k - 1);
      assert peers[k - 1] in peers;
    }
  }

  /** `select_routes_for_forwarding`: the algorithm's choice of routes,
      which for epidemic routing is none. */
  function SelectRoutesForForwarding(n: DtnNode, b: Bundle, now: u64): (r: Result<seq<RouteEntry>, NodeError>)
    ensures n.tablePoisoned <==> r.Err?
    ensures r.Err? ==> r.error == LockFailed(LOCK_FAILED)
    ensures r.Ok? ==> r.value == []
  {
    if n.tablePoisoned then Err(LockFailed(LOCK_FAILED))
    else Ok(Epidemic.SelectRoutesForForwarding(n.algorithm, NewDescriptor(b, now), n.table))
  }

  // ---------------------------------------------------------------------
  // Status

  /** How one load result counts: an active or an expired bundle, or
      nothing when the load failed. */
  function Classify(r: Result<Bundle, StoreError>, now: u64): (c: (nat, nat))
    ensures c.0 + c.1 <= 1
  {
    match r
    case Ok(b) => if b.IsExpired(now) then (0, 1) else (1, 0)
    case Err(_) => (0, 0)
  }

  /** Loading by partial id from the store `s`. */
  function Loader(s: BundleStore): string -> Result<Bundle, StoreError> {
    id => LoadByPartialId(s, id)
  }

  /** The summary loop: counts the ids whose bundle `load` yields, as active
      or expired at `now`; ids that fail to load are skipped. */
  function Tally(load: string -> Result<Bundle, StoreError>, ids: seq<string>, now: u64): (c: (nat, nat))
    ensures c.0 + c.1 <= |ids|
    decreases |ids|
  {
    if |ids| == 0 then (0, 0)
    else
      var head := Classify(load(ids[0]), now);
      var rest := Tally(load, ids[1..], now);
      (head.0 + rest.0, head.1 + rest.1)
  }

  /** `get_bundle_status`: one bundle by partial id (a load error is
      returned), or counts over the whole store. */
  function GetBundleStatus(n: DtnNode, partialId: Option<string>, now: u64): (r: Result<BundleStatus, NodeError>)
    ensures partialId.Some? ==>
              match LoadByPartialId(n.store, partialId.value)
              case Ok(b) => r == Ok(Single(partialId.value, b))
              case Err(e) => r == Err(StoreFailed(e))
    ensures partialId.None? ==>
              && r.Ok? && r.value.Summary?
              && r.value.total == r.value.active + r.value.expired
              && r.value.total <= |List(n.store.dir)|
  {
    match partialId
    case Some(id) =>
      (match LoadByPartialId(n.store, id)
       case Ok(b) => Ok(Single(id, b))
       case Err(e) => Err(StoreFailed(e)))
    case None =>
      var (active, expired) := Tally(Loader(n.store), List(n.store.dir), now);
      Ok(Summary(active, expired, active + expired))
  }

  /** In a consistent store every listed record loads through its own id as
      the bundle it holds. */
  lemma ListedRecordLoads(s: BundleStore, e: Entry)
    requires Consistent(s.dir) && e in s.dir && e.name.ext == Some(CBOR_EXT)
    ensures Decodes(e.data) && LoadByPartialId(s, e.name.stem) == Ok(Decode(e.data).value)
  {
    assert e.name == CborName(e.name.stem);
    WellFormedPrefixFree(s.dir);
    LookupUnique(s.dir, e);
    FindOwnId(s, e.name.stem);
  }

  lemma ListCons(e: Entry, rest: Dir)
    ensures List([e] + rest) == (if e.name.ext == Some(CBOR_EXT) then [e.name.stem] else []) + List(rest)
  {
    assert ([e] + rest)[1..] == rest;
  }

  /** The record `e` counts as expired at `now`. */
  predicate Dead(e: Entry, now: u64) {
    e.name.ext == Some(CBOR_EXT) && Decodes(e.data) && Decode(e.data).value.IsExpired(now)
  }

  lemma TallyConsRecord(load: string -> Result<Bundle, StoreError>, d: Dir, now: u64, dead: bool)
    requires |d| > 0 && d[0].name.ext == Some(CBOR_EXT)
    requires Classify(load(d[0].name.stem), now) == if dead then (0, 1) else (1, 0)
    ensures var t := Tally(load, List(d[1..]), now);
            Tally(load, List(d), now) == if dead then (t.0, t.1 + 1) else (t.0 + 1, t.1)
  {
    var id := d[0].name.stem;
    var rest := List(d[1..]);
    ListConsRecord(d);
    TallyHead(load, id, rest, now);
  }

  lemma ListConsRecord(d: Dir)
    requires |d| > 0 && d[0].name.ext == Some(CBOR_EXT)
    ensures List(d) == [d[0].name.stem] + List(d[1..])
  {
  }

  lemma ClassifyRecord(s: BundleStore, e: Entry, now: u64)
    requires e.name.ext == Some(CBOR_EXT)
    requires Decodes(e.data) && LoadByPartialId(s, e.name.stem) == Ok(Decode(e.data).value)
    ensures Classify(Loader(s)(e.name.stem), now) == if Dead(e, now) then (0, 1) else (1, 0)
  {
  }

  lemma TallyHead(load: string -> Result<Bundle, StoreError>, id: string, rest: seq<string>, now: u64)
    ensures var c := Classify(load(id), now);
            var t := Tally(load, rest, now);
            Tally(load, [id] + rest, now) == (c.0 + t.0, c.1 + t.1)
  {
    assert ([id] + rest)[1..] == rest;
  }

  lemma KeepLiveCons(d: Dir, now: u64)
    requires |d| > 0
    ensures |List(KeepLive(d, now))| ==
              |List(KeepLive(d[1..], now))| + (if d[0].name.ext == Some(CBOR_EXT) && !Dead(d[0], now) then 1 else 0)
  {
    var e := d[0];
    var k := KeepLive(d[1..], now);
    if Dead(e, now) {
      assert KeepLive(d, now) == [] + k;
      assert [] + k == k;
    } else {
      assert KeepLive(d, now) == [e] + k;
      ListCons(e, k);
    }
  }

  lemma ListLength(d: Dir)
    requires |d| > 0
    ensures |List(d)| == |List(d[1..])| + (if d[0].name.ext == Some(CBOR_EXT) then 1 else 0)
  {
  }

  /** Over the entries `d` of a consistent store, the summary counts every
      record, and its active ones are exactly the records the expiry
      cleanup keeps. */
  lemma {:induction false} TallyMatchesCleanup(s: BundleStore, d: Dir, now: u64)
    requires Consistent(s.dir)
    requires forall e :: e in d ==> e in s.dir
    ensures Tally(Loader(s), List(d), now).0 == |List(KeepLive(d, now))|
    ensures Tally(Loader(s), List(d), now).0 + Tally(Loader(s), List(d), now).1 == |List(d)|
    decreases |d|
  {
    if |d| > 0 {
      assert forall x :: x in d[1..] ==> x in d;
      TallyMatchesCleanup(s, d[1..], now);
      if d[0].name.ext == Some(CBOR_EXT) {
        assert d[0] in s.dir;
        ListedRecordLoads(s, d[0]);
        ClassifyRecord(s, d[0], now);
        TallyConsRecord(Loader(s), d, now, Dead(d[0], now));
      } else {
        assert List(d) == List(d[1..]);
      }
      KeepLiveCons(d, now);
      ListLength(d);
    }
  }

  /** On a valid node the summary counts every stored record; the active
      count is the number of records `cleanup_expired` would keep, and the
      expired count the number it would remove. */
  lemma SummaryMatchesCleanup(n: DtnNode, now: u64)
    requires Valid(n)
    ensures var st := GetBundleStatus(n, None, now).value;
            && st.total == |List(n.store.dir)|
            && st.active == |List(KeepLive(n.store.dir, now))|
            && st.expired == |List(n.store.dir)| - |List(KeepLive(n.store.dir, now))|
  {
    TallyMatchesCleanup(n.store, n.store.dir, now);
  }
}
