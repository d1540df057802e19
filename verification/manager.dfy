// The convergence-layer manager: a registry of peers keyed by endpoint id,
// the reachability filter over it, and the hand-off of received bundles to
// the node's callback.

module Manager {
  import opened Wrappers
  import opened Endpoint
  import opened Bpv7
  import opened Peer

  /** The registry and the bundles handed to the receive callback so far. */
  datatype ClaManager = ClaManager(peers: seq<ClaPeer>, received: seq<Bundle>)

  /** `register_peer` also reports whether activation was attempted and how
      it ended. */
  datatype Registration = Registration(manager: ClaManager, activation: Option<Result<(), string>>)

  /** `ClaManager::new`. */
  function New(): (m: ClaManager)
    ensures m.peers == [] && m.received == []
  {
    ClaManager([], [])
  }

  /** Some registered peer has endpoint id `eid`. */
  function IsRegistered(peers: seq<ClaPeer>, eid: EndpointId): (r: bool)
    ensures r <==> exists i :: 0 <= i < |peers| && PeerEndpointId(peers[i]) == eid
  {
    if |peers| == 0 then false
    else if PeerEndpointId(peers[0]) == eid then true
    else
      var r := IsRegistered(peers[1..], eid);
      assert r ==> exists i :: 0 <= i < |peers| && PeerEndpointId(peers[i]) == eid by {
        if r {
          var i :| 0 <= i < |peers[1..]| && PeerEndpointId(peers[1..][i]) == eid;
          assert PeerEndpointId(peers[i + 1]) == eid;
        }
      }
      r
  }

  /** The registry invariant: no two peers share an endpoint id. */
  predicate DistinctIds(peers: seq<ClaPeer>) {
    forall i, j :: 0 <= i < j < |peers| ==> PeerEndpointId(peers[i]) != PeerEndpointId(peers[j])
  }

  /** `register_peer`: a peer whose endpoint id is already registered is
      ignored without being activated; otherwise it is activated once and
      appended whether or not activation succeeded. */
  function RegisterPeer(m: ClaManager, p: ClaPeer, connects: string -> bool): (r: Registration)
    ensures IsRegistered(m.peers, PeerEndpointId(p)) ==> r == Registration(m, None)
    ensures !IsRegistered(m.peers, PeerEndpointId(p)) ==>
              && r.manager == m.(peers := m.peers + [p])
              && r.activation == Some(Peer.Activate(p, connects))
  {
    if IsRegistered(m.peers, PeerEndpointId(p)) then Registration(m, None)
    else
      var activation := Peer.Activate(p, connects);
      Registration(m.(peers := m.peers + [p]), Some(activation))
  }

  /** Registration keeps endpoint ids distinct, and afterwards exactly the
      earlier ids and the new peer's id are registered. */
  lemma RegisterKeepsIdsDistinct(m: ClaManager, p: ClaPeer, connects: string -> bool)
    requires DistinctIds(m.peers)
    ensures DistinctIds(RegisterPeer(m, p, connects).manager.peers)
    ensures forall eid :: IsRegistered(RegisterPeer(m, p, connects).manager.peers, eid) <==>
              IsRegistered(m.peers, eid) || eid == PeerEndpointId(p)
  {
    var r := RegisterPeer(m, p, connects).manager.peers;
    forall eid ensures IsRegistered(r, eid) <==> IsRegistered(m.peers, eid) || eid == PeerEndpointId(p) {
      if IsRegistered(m.peers, eid) {
        var i :| 0 <= i < |m.peers| && PeerEndpointId(m.peers[i]) == eid;
        assert r[i] == m.peers[i];
      }
      if !IsRegistered(m.peers, PeerEndpointId(p)) && eid == PeerEndpointId(p) {
        assert r[|m.peers|] == p;
      }
      if !IsRegistered(m.peers, PeerEndpointId(p)) && IsRegistered(r, eid) && eid != PeerEndpointId(p) {
        var i :| 0 <= i < |r| && PeerEndpointId(r[i]) == eid;
        assert i < |m.peers| && r[i] == m.peers[i];
      }
    }
  }

  /** Registering a batch of peers in order. */
  function RegisterAll(m: ClaManager, ps: seq<ClaPeer>, connects: string -> bool): ClaManager
    decreases |ps|
  {
    if |ps| == 0 then m
    else RegisterAll(RegisterPeer(m, ps[0], connects).manager, ps[1..], connects)
  }

  /** Registering `ps` keeps endpoint ids distinct; afterwards exactly the
      earlier ids and those of `ps` are registered, every peer is an
      earlier one or one of `ps`, and no bundle has been received. */
  lemma {:induction false} RegisterAllKeepsRegistry(m: ClaManager, ps: seq<ClaPeer>, connects: string -> bool)
    requires DistinctIds(m.peers)
    ensures DistinctIds(RegisterAll(m, ps, connects).peers)
    ensures forall eid :: IsRegistered(RegisterAll(m, ps, connects).peers, eid) <==>
              IsRegistered(m.peers, eid) || IsRegistered(ps, eid)
    ensures forall q :: q in RegisterAll(m, ps, connects).peers ==> q in m.peers || q in ps
    ensures |RegisterAll(m, ps, connects).peers| <= |m.peers| + |ps|
    ensures RegisterAll(m, ps, connects).received == m.received
    decreases |ps|
  {
    if |ps| > 0 {
      var m1 := RegisterPeer(m, ps[0], connects).manager;
      RegisterKeepsIdsDistinct(m, ps[0], connects);
      RegisterAllKeepsRegistry(m1, ps[1..], connects);
      forall eid ensures IsRegistered(ps, eid) <==> eid == PeerEndpointId(ps[0]) || IsRegistered(ps[1..], eid) {
        if IsRegistered(ps[1..], eid) {
          var i :| 0 <= i < |ps[1..]| && PeerEndpointId(ps[1..][i]) == eid;
          assert ps[i + 1] == ps[1..][i];
        }
      }
      assert forall q :: q in ps[1..] ==> q in ps;
    }
  }

  /** Registering the same endpoint id twice activates the peer once and
      keeps one entry. */
  lemma DuplicateRegistration(m: ClaManager, p: ClaPeer, q: ClaPeer, connects: string -> bool)
    requires PeerEndpointId(p) == PeerEndpointId(q) && !IsRegistered(m.peers, PeerEndpointId(p))
    ensures var r1 := RegisterPeer(m, p, connects);
            var r2 := RegisterPeer(r1.manager, q, connects);
            && r1.activation.Some? && r2.activation.None?
            && r2.manager.peers == m.peers + [p]
  {
    var r1 := RegisterPeer(m, p, connects);
    assert r1.manager.peers[|m.peers|] == p;
  }

  /** `list_all_peers`: every registered peer, in registration order. */
  function ListAllPeers(m: ClaManager): (r: seq<ClaPeer>)
    ensures forall eid :: IsRegistered(r, eid) <==> IsRegistered(m.peers, eid)
    ensures |r| == |m.peers| && forall i :: 0 <= i < |r| ==> r[i] == m.peers[i]
  {
    m.peers
  }

  /** `r` is `s` with some elements left out, order kept. */
  predicate IsSubsequence<T(==)>(r: seq<T>, s: seq<T>)
    decreases |s|
  {
    if |r| == 0 then true
    else if |s| == 0 then false
    else if r[0] == s[0] then IsSubsequence(r[1..], s[1..])
    else IsSubsequence(r, s[1..])
  }

  /** The peers of `peers` whose reachability probe succeeds, in order. */
  function FilterReachable(peers: seq<ClaPeer>, connects: string -> bool): (r: seq<ClaPeer>)
    ensures forall q :: q in r <==> q in peers && IsReachable(q, connects)
    ensures IsSubsequence(r, peers)
    ensures |r| <= |peers|
    decreases |peers|
  {
    if |peers| == 0 then []
    else
      var rest := FilterReachable(peers[1..], connects);
      assert forall q :: q in peers <==> q == peers[0] || q in peers[1..];
      if IsReachable(peers[0], connects) then
        assert ([peers[0]] + rest)[1..] == rest;
        [peers[0]] + rest
      else
        SubsequenceDropsHead(rest, peers, connects);
        rest
  }

  lemma SubsequenceDropsHead(rest: seq<ClaPeer>, peers: seq<ClaPeer>, connects: string -> bool)
    requires |peers| > 0 && IsSubsequence(rest, peers[1..])
    requires forall q :: q in rest ==> IsReachable(q, connects)
    requires !IsReachable(peers[0], connects)
    ensures IsSubsequence(rest, peers)
  {
    if |rest| > 0 {
      assert rest[0] in rest;
    }
  }

  /** `list_reachable_peers`: probes each registered peer once, in
      registration order, and keeps the reachable ones. */
  function ListReachablePeers(m: ClaManager, connects: string -> bool): (r: seq<ClaPeer>)
    ensures forall q :: q in r <==> q in m.peers && IsReachable(q, connects)
    ensures IsSubsequence(r, m.peers)
  {
    FilterReachable(m.peers, connects)
  }

  /** `list_peers`, kept as another name for the reachable listing. */
  function ListPeers(m: ClaManager, connects: string -> bool): (r: seq<ClaPeer>)
    ensures forall q :: q in r <==> q in m.peers && IsReachable(q, connects)
    ensures IsSubsequence(r, m.peers)
  {
    ListReachablePeers(m, connects)
  }

  /** A subsequence of a registry with distinct ids has distinct ids. */
  lemma {:induction false} SubsequenceKeepsIdsDistinct(r: seq<ClaPeer>, s: seq<ClaPeer>)
    requires IsSubsequence(r, s) && DistinctIds(s)
    ensures DistinctIds(r)
    ensures forall q :: q in r ==> q in s
    decreases |s|
  {
    if |r| > 0 && |s| > 0 {
      assert DistinctIds(s[1..]) by {
        forall i, j | 0 <= i < j < |s[1..]| ensures PeerEndpointId(s[1..][i]) != PeerEndpointId(s[1..][j]) {
          assert s[1..][i] == s[i + 1] && s[1..][j] == s[j + 1];
        }
      }
      if r[0] == s[0] {
        SubsequenceKeepsIdsDistinct(r[1..], s[1..]);
        forall j | 0 < j < |r| ensures PeerEndpointId(r[0]) != PeerEndpointId(r[j]) {
          assert r[j] == r[1..][j - 1];
          assert r[j] in s[1..];
          var k :| 0 <= k < |s[1..]| && s[1..][k] == r[j];
          assert s[k + 1] == r[j];
        }
        assert forall q :: q in r ==> q == r[0] || q in r[1..];
      } else {
        SubsequenceKeepsIdsDistinct(r, s[1..]);
      }
    }
  }

  /** When every peer is reachable the reachable listing is the whole
      registry; when none is, it is empty. */
  lemma ReachableExtremes(m: ClaManager, connects: string -> bool)
    ensures (forall q :: q in m.peers ==> IsReachable(q, connects)) ==> ListReachablePeers(m, connects) == m.peers
    ensures (forall q :: q in m.peers ==> !IsReachable(q, connects)) ==> ListReachablePeers(m, connects) == []
  {
    AllReachable(m.peers, connects);
  }

  lemma {:induction false} AllReachable(peers: seq<ClaPeer>, connects: string -> bool)
    ensures (forall q :: q in peers ==> IsReachable(q, connects)) ==> FilterReachable(peers, connects) == peers
    ensures (forall q :: q in peers ==> !IsReachable(q, connects)) ==> FilterReachable(peers, connects) == []
    decreases |peers|
  {
    if |peers| > 0 {
      AllReachable(peers[1..], connects);
      assert forall q :: q in peers[1..] ==> q in peers;
      assert peers == [peers[0]] + peers[1..];
    }
  }

  /** `notify_receive`: hands the bundle to the receive callback. */
  function NotifyReceive(m: ClaManager, b: Bundle): (r: ClaManager)
    ensures r.peers == m.peers
    ensures multiset(r.received) == multiset(m.received) + multiset{b}
  {
    m.(received := m.received + [b])
  }

  function NotifyAll(m: ClaManager, bs: seq<Bundle>): ClaManager
    decreases |bs|
  {
    if |bs| == 0 then m else NotifyAll(NotifyReceive(m, bs[0]), bs[1..])
  }

  /** Notifying `bs` delivers each of them exactly once and leaves the
      registry alone. */
  lemma {:induction false} NotifyDeliversEachOnce(m: ClaManager, bs: seq<Bundle>)
    ensures multiset(NotifyAll(m, bs).received) == multiset(m.received) + multiset(bs)
    ensures NotifyAll(m, bs).peers == m.peers
    decreases |bs|
  {
    if |bs| > 0 {
      NotifyDeliversEachOnce(NotifyReceive(m, bs[0]), bs[1..]);
      assert bs == [bs[0]] + bs[1..];
    }
  }

  // ---------------------------------------------------------------------
  // Clones share one registry

  /** A manager value is a handle to a shared cell; `clone` copies the
      handle, not the cell. */
  datatype Handle = Handle(cell: nat)
  type Cells = map<nat, ClaManager>

  /** `clone`: the clone is interchangeable with the original in every
      registry state: it lists the same peers, and registering through
      either has the same effect. */
  function CloneHandle(h: Handle): (c: Handle)
    ensures forall cells: Cells :: h.cell in cells ==> c.cell in cells && ListAllVia(cells, c) == ListAllVia(cells, h)
    ensures forall cells: Cells, p: ClaPeer, connects: string -> bool :: h.cell in cells ==>
              c.cell in cells && RegisterVia(cells, c, p, connects) == RegisterVia(cells, h, p, connects)
  {
    Handle(h.cell)
  }

  function RegisterVia(cells: Cells, h: Handle, p: ClaPeer, connects: string -> bool): (r: Cells)
    requires h.cell in cells
    ensures r.Keys == cells.Keys
    ensures r[h.cell] == RegisterPeer(cells[h.cell], p, connects).manager
    ensures ListAllVia(r, h) == if IsRegistered(cells[h.cell].peers, PeerEndpointId(p))
                                then ListAllVia(cells, h) else ListAllVia(cells, h) + [p]
    ensures forall c :: c in cells && c != h.cell ==> r[c] == cells[c]
  {
    cells[h.cell := RegisterPeer(cells[h.cell], p, connects).manager]
  }

  function ListAllVia(cells: Cells, h: Handle): seq<ClaPeer>
    requires h.cell in cells
  {
    ListAllPeers(cells[h.cell])
  }

  /** Registering through a manager and then through its clone: both see
      the same registry, holding both peers in registration order. */
  lemma ClonesShareRegistry(cells: Cells, h: Handle, p: ClaPeer, q: ClaPeer, connects: string -> bool)
    requires h.cell in cells
    requires !IsRegistered(cells[h.cell].peers, PeerEndpointId(p))
    requires !IsRegistered(cells[h.cell].peers, PeerEndpointId(q))
    requires PeerEndpointId(p) != PeerEndpointId(q)
    ensures var c := CloneHandle(h);
            var after := RegisterVia(RegisterVia(cells, h, p, connects), c, q, connects);
            && ListAllVia(after, h) == ListAllVia(after, c)
            && ListAllVia(after, h) == cells[h.cell].peers + [p, q]
  {
    var c := CloneHandle(h);
    var mid := RegisterVia(cells, h, p, connects);
    assert mid[h.cell].peers == cells[h.cell].peers + [p];
    RegisterKeepsIdsDistinctFacts(cells[h.cell].peers, p, q);
  }

  lemma RegisterKeepsIdsDistinctFacts(peers: seq<ClaPeer>, p: ClaPeer, q: ClaPeer)
    requires !IsRegistered(peers, PeerEndpointId(q)) && PeerEndpointId(p) != PeerEndpointId(q)
    ensures !IsRegistered(peers + [p], PeerEndpointId(q))
  {
    var s := peers + [p];
    forall i | 0 <= i < |s| ensures PeerEndpointId(s[i]) != PeerEndpointId(q) {
      if i < |peers| {
        assert s[i] == peers[i];
      }
    }
  }
}
