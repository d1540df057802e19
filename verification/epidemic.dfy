/** Epidemic routing (src/routing/epidemic.rs): flood a bundle to every
    distinct candidate peer it has not been sent to yet, regardless of its
    destination.

    The reference definitions name the candidate positions that are chosen;
    the methods follow the source's loop with its `seen_eids` set and are
    proved to compute the reference result. */
module Epidemic {
  import opened Numeric
  import opened Endpoint
  import opened Bpv7
  import opened Descriptor
  import opened Routing
  import opened Peer

  function Eid(p: ClaPeer): EndpointId {
    PeerEndpointId(p)
  }

  /** Position `i` holds the first candidate with its identifier, and the
      bundle has not been sent to that identifier. */
  predicate FirstEligible(d: BundleDescriptor, peers: seq<ClaPeer>, i: int) {
    && 0 <= i < |peers|
    && !d.HasBeenSentTo(Eid(peers[i]))
    && forall j :: 0 <= j < i ==> Eid(peers[j]) != Eid(peers[i])
  }

  predicate StrictlyIncreasing(idx: seq<nat>) {
    forall k1, k2 :: 0 <= k1 < k2 < |idx| ==> idx[k1] < idx[k2]
  }

  /** The first-eligible positions below `n`, in increasing order. */
  function ChosenUpTo(d: BundleDescriptor, peers: seq<ClaPeer>, n: nat): (idx: seq<nat>)
    requires n <= |peers|
    ensures StrictlyIncreasing(idx)
    ensures forall k :: 0 <= k < |idx| ==> idx[k] < n && FirstEligible(d, peers, idx[k])
    decreases n
  {
    if n == 0 then []
    else ChosenUpTo(d, peers, n - 1) + (if FirstEligible(d, peers, n - 1) then [n - 1] else [])
  }

  /** The positions below `n` the reachability-checking selection keeps:
      first-eligible ones whose peer answers the probe. */
  function ChosenAsyncUpTo(d: BundleDescriptor, peers: seq<ClaPeer>, connects: string -> bool, n: nat): (idx: seq<nat>)
    requires n <= |peers|
    ensures StrictlyIncreasing(idx)
    ensures forall k :: 0 <= k < |idx| ==>
              idx[k] < n && FirstEligible(d, peers, idx[k]) && IsReachable(peers[idx[k]], connects)
    decreases n
  {
    if n == 0 then []
    else
      ChosenAsyncUpTo(d, peers, connects, n - 1)
        + (if FirstEligible(d, peers, n - 1) && IsReachable(peers[n - 1], connects) then [n - 1] else [])
  }

  function Pick(peers: seq<ClaPeer>, idx: seq<nat>): (r: seq<ClaPeer>)
    requires forall k :: 0 <= k < |idx| ==> idx[k] < |peers|
    ensures |r| == |idx| && forall k :: 0 <= k < |idx| ==> r[k] == peers[idx[k]]
  {
    seq(|idx|, k requires 0 <= k < |idx| => peers[idx[k]])
  }

  /** Reference result of synchronous selection. */
  function Selected(d: BundleDescriptor, peers: seq<ClaPeer>): seq<ClaPeer> {
    Pick(peers, ChosenUpTo(d, peers, |peers|))
  }

  /** Reference result of the reachability-checking selection. */
  function SelectedAsync(d: BundleDescriptor, peers: seq<ClaPeer>, connects: string -> bool): seq<ClaPeer> {
    Pick(peers, ChosenAsyncUpTo(d, peers, connects, |peers|))
  }

  /** `notify_new_bundle`: epidemic routing keeps no statistics. */
  function NotifyNewBundle(alg: RoutingAlgorithm, d: BundleDescriptor): RoutingAlgorithm {
    alg
  }

  /** The identifiers the loop has recorded as seen after `i` candidates:
      those of the candidates so far that the bundle was not sent to. */
  function SeenSet(d: BundleDescriptor, peers: seq<ClaPeer>, i: nat): set<EndpointId>
    requires i <= |peers|
    decreases i
  {
    if i == 0 then {}
    else if d.HasBeenSentTo(Eid(peers[i - 1])) then SeenSet(d, peers, i - 1)
    else SeenSet(d, peers, i - 1) + {Eid(peers[i - 1])}
  }

  /** An identifier is seen exactly when an earlier candidate carries it and
      the bundle was not sent there. */
  lemma {:induction false} SeenSetMembers(d: BundleDescriptor, peers: seq<ClaPeer>, i: nat, e: EndpointId)
    requires i <= |peers|
    ensures e in SeenSet(d, peers, i) <==> exists j :: 0 <= j < i && Eid(peers[j]) == e && !d.HasBeenSentTo(e)
    decreases i
  {
    if i > 0 {
      SeenSetMembers(d, peers, i - 1, e);
      if e in SeenSet(d, peers, i) && e !in SeenSet(d, peers, i - 1) {
        assert Eid(peers[i - 1]) == e;
      }
    }
  }

  /** Candidate `i` is considered exactly when it is first-eligible. */
  lemma SeenStep(d: BundleDescriptor, peers: seq<ClaPeer>, i: nat)
    requires i < |peers|
    ensures FirstEligible(d, peers, i) <==>
              !d.HasBeenSentTo(Eid(peers[i])) && Eid(peers[i]) !in SeenSet(d, peers, i)
  {
    var eid := Eid(peers[i]);
    SeenSetMembers(d, peers, i, eid);
    if eid in SeenSet(d, peers, i) {
      var j :| 0 <= j < i && Eid(peers[j]) == eid && !d.HasBeenSentTo(eid);
      assert !FirstEligible(d, peers, i);
    }
  }

  /** Picking one more position appends its candidate. */
  lemma PickAppend(peers: seq<ClaPeer>, idx: seq<nat>, j: nat)
    requires forall k :: 0 <= k < |idx| ==> idx[k] < |peers|
    requires j < |peers|
    ensures Pick(peers, idx + [j]) == Pick(peers, idx) + [peers[j]]
  {
  }

  /** One turn of the synchronous loop: the identifier is recorded as seen
      unless the bundle was already sent there, and the candidate is kept
      when it was not sent to and not seen before. */
  lemma SelectStep(d: BundleDescriptor, peers: seq<ClaPeer>, i: nat,
                   seen: set<EndpointId>, result: seq<ClaPeer>,
                   seen': set<EndpointId>, result': seq<ClaPeer>)
    requires i < |peers| && seen == SeenSet(d, peers, i)
    requires result == Pick(peers, ChosenUpTo(d, peers, i))
    requires seen' == if d.HasBeenSentTo(Eid(peers[i])) then seen else seen + {Eid(peers[i])}
    requires result' == if !d.HasBeenSentTo(Eid(peers[i])) && Eid(peers[i]) !in seen
                        then result + [peers[i]] else result
    ensures seen' == SeenSet(d, peers, i + 1)
    ensures result' == Pick(peers, ChosenUpTo(d, peers, i + 1))
  {
    SeenStep(d, peers, i);
    var chosen := ChosenUpTo(d, peers, i);
    assert ChosenUpTo(d, peers, i + 1) == chosen + (if FirstEligible(d, peers, i) then [i] else []);
    if FirstEligible(d, peers, i) {
      PickAppend(peers, chosen, i);
    } else {
      assert chosen + [] == chosen;
    }
  }

  /** One turn of the reachability-checking loop: as above, but the
      candidate is kept only when its probe also succeeds. */
  lemma SelectAsyncStep(d: BundleDescriptor, peers: seq<ClaPeer>, connects: string -> bool, i: nat,
                        seen: set<EndpointId>, result: seq<ClaPeer>,
                        seen': set<EndpointId>, result': seq<ClaPeer>)
    requires i < |peers| && seen == SeenSet(d, peers, i)
    requires result == Pick(peers, ChosenAsyncUpTo(d, peers, connects, i))
    requires seen' == if d.HasBeenSentTo(Eid(peers[i])) then seen else seen + {Eid(peers[i])}
    requires result' == if !d.HasBeenSentTo(Eid(peers[i])) && Eid(peers[i]) !in seen && IsReachable(peers[i], connects)
                        then result + [peers[i]] else result
    ensures seen' == SeenSet(d, peers, i + 1)
    ensures result' == Pick(peers, ChosenAsyncUpTo(d, peers, connects, i + 1))
  {
    SeenStep(d, peers, i);
    var chosen := ChosenAsyncUpTo(d, peers, connects, i);
    var take := FirstEligible(d, peers, i) && IsReachable(peers[i], connects);
    assert ChosenAsyncUpTo(d, peers, connects, i + 1) == chosen + (if take then [i] else []);
    if take {
      PickAppend(peers, chosen, i);
    } else {
      assert chosen + [] == chosen;
    }
  }

  /** `select_peers_for_forwarding`. */
  method SelectPeersForForwarding(alg: RoutingAlgorithm, d: BundleDescriptor, peers: seq<ClaPeer>)
    returns (result: seq<ClaPeer>)
    ensures result == Selected(d, peers)
  {
    var seen: set<EndpointId> := {};
    result := [];
    var i := 0;
    while i < |peers|
      invariant 0 <= i <= |peers|
      invariant seen == SeenSet(d, peers, i)
      invariant result == Pick(peers, ChosenUpTo(d, peers, i))
    {
      var eid := Eid(peers[i]);
      var seen', result' := seen, result;
      if !d.HasBeenSentTo(eid) {
        seen' := seen + {eid};
        if eid !in seen {
          result' := result + [peers[i]];
        }
      }
      SelectStep(d, peers, i, seen, result, seen', result');
      seen, result, i := seen', result', i + 1;
    }
  }

  /** `select_peers_for_forwarding_async`: as above, but a peer that fails
      its reachability probe is dropped. Its identifier has been recorded as
      seen before the probe, so a later duplicate is not considered. */
  method SelectPeersForForwardingAsync(alg: RoutingAlgorithm, d: BundleDescriptor, peers: seq<ClaPeer>, connects: string -> bool)
    returns (result: seq<ClaPeer>)
    ensures result == SelectedAsync(d, peers, connects)
  {
    var seen: set<EndpointId> := {};
    result := [];
    var i := 0;
    while i < |peers|
      invariant 0 <= i <= |peers|
      invariant seen == SeenSet(d, peers, i)
      invariant result == Pick(peers, ChosenAsyncUpTo(d, peers, connects, i))
    {
      var eid := Eid(peers[i]);
      var seen', result' := seen, result;
      if !d.HasBeenSentTo(eid) {
        seen' := seen + {eid};
        if eid !in seen && IsReachable(peers[i], connects) {
          result' := result + [peers[i]];
        }
      }
      SelectAsyncStep(d, peers, connects, i, seen, result, seen', result');
      seen, result, i := seen', result', i + 1;
    }
  }

  /** `select_routes_for_forwarding`: epidemic routing never consults the
      routing table. */
  function SelectRoutesForForwarding(alg: RoutingAlgorithm, d: BundleDescriptor, t: RoutingTable): (r: seq<RouteEntry>)
    ensures r == []
  {
    match alg
    case EpidemicRouting => []
  }

  /** Some position up to `i` is first-eligible with the identifier found at
      `i`, when the bundle has not been sent there. */
  lemma {:induction false} FirstOccurrenceExists(d: BundleDescriptor, peers: seq<ClaPeer>, i: nat)
    requires i < |peers| && !d.HasBeenSentTo(Eid(peers[i]))
    ensures exists j :: 0 <= j <= i && FirstEligible(d, peers, j) && Eid(peers[j]) == Eid(peers[i])
    decreases i
  {
    if !FirstEligible(d, peers, i) {
      var j :| 0 <= j < i && Eid(peers[j]) == Eid(peers[i]);
      FirstOccurrenceExists(d, peers, j);
    }
  }

  /** Every first-eligible position below `n` is chosen. */
  lemma {:induction false} ChosenComplete(d: BundleDescriptor, peers: seq<ClaPeer>, n: nat, i: nat)
    requires i < n <= |peers| && FirstEligible(d, peers, i)
    ensures i in ChosenUpTo(d, peers, n)
    decreases n
  {
    if i < n - 1 {
      ChosenComplete(d, peers, n - 1, i);
    }
  }

  /** The position in the selection that carries the identifier of
      candidate `i`, when the bundle has not been sent there. */
  lemma CoveringIndex(d: BundleDescriptor, peers: seq<ClaPeer>, i: nat) returns (k: nat)
    requires i < |peers| && !d.HasBeenSentTo(Eid(peers[i]))
    ensures k < |Selected(d, peers)| && Eid(Selected(d, peers)[k]) == Eid(peers[i])
  {
    var idx := ChosenUpTo(d, peers, |peers|);
    FirstOccurrenceExists(d, peers, i);
    var j :| 0 <= j <= i && FirstEligible(d, peers, j) && Eid(peers[j]) == Eid(peers[i]);
    ChosenComplete(d, peers, |peers|, j);
    k :| 0 <= k < |idx| && idx[k] == j;
  }

  /** Epidemic selection keeps candidates in their original order (it picks
      them at increasing positions), skips every endpoint the bundle was
      already sent to, keeps one candidate per identifier, which is the
      first candidate with it, and misses no identifier it may send to. */
  lemma SelectionProperties(d: BundleDescriptor, peers: seq<ClaPeer>)
    ensures var idx := ChosenUpTo(d, peers, |peers|);
      && StrictlyIncreasing(idx)
      && |Selected(d, peers)| == |idx|
      && forall k :: 0 <= k < |idx| ==> Selected(d, peers)[k] == peers[idx[k]] && FirstEligible(d, peers, idx[k])
    ensures forall k :: 0 <= k < |Selected(d, peers)| ==> !d.HasBeenSentTo(Eid(Selected(d, peers)[k]))
    ensures forall k1, k2 :: 0 <= k1 < k2 < |Selected(d, peers)| ==>
              Eid(Selected(d, peers)[k1]) != Eid(Selected(d, peers)[k2])
    ensures forall i :: 0 <= i < |peers| && !d.HasBeenSentTo(Eid(peers[i])) ==>
              exists k :: 0 <= k < |Selected(d, peers)| && Eid(Selected(d, peers)[k]) == Eid(peers[i])
  {
    var idx := ChosenUpTo(d, peers, |peers|);
    var r := Selected(d, peers);
    forall k1, k2 | 0 <= k1 < k2 < |r|
      ensures Eid(r[k1]) != Eid(r[k2])
    {
      assert idx[k1] < idx[k2] && FirstEligible(d, peers, idx[k2]);
    }
    forall i | 0 <= i < |peers| && !d.HasBeenSentTo(Eid(peers[i]))
      ensures exists k :: 0 <= k < |r| && Eid(r[k]) == Eid(peers[i])
    {
      FirstOccurrenceExists(d, peers, i);
      var j :| 0 <= j <= i && FirstEligible(d, peers, j) && Eid(peers[j]) == Eid(peers[i]);
      ChosenComplete(d, peers, |peers|, j);
      var k :| 0 <= k < |idx| && idx[k] == j;
      assert r[k] == peers[j];
    }
  }

  /** With nothing marked as sent, candidates P1, P2 and a second P1 give
      exactly P1 and P2; once P1 is marked, only P2. */
  lemma DuplicateCandidateExample(b: Bundle, now: u64, p1: ClaPeer, p2: ClaPeer, p1again: ClaPeer)
    requires Eid(p1) != Eid(p2) && Eid(p1again) == Eid(p1)
    ensures Selected(NewDescriptor(b, now), [p1, p2, p1again]) == [p1, p2]
    ensures Selected(MarkSent(NewDescriptor(b, now), Eid(p1)), [p1, p2, p1again]) == [p2]
  {
    var ps := [p1, p2, p1again];
    var d := NewDescriptor(b, now);
    assert FirstEligible(d, ps, 0);
    assert ChosenUpTo(d, ps, 1) == [0];
    assert FirstEligible(d, ps, 1);
    assert ChosenUpTo(d, ps, 2) == [0, 1];
    assert !FirstEligible(d, ps, 2);
    assert ChosenUpTo(d, ps, 3) == [0, 1];
    assert Selected(d, ps) == Pick(ps, [0, 1]);
    var m := MarkSent(d, Eid(p1));
    assert !FirstEligible(m, ps, 0);
    assert ChosenUpTo(m, ps, 1) == [];
    assert FirstEligible(m, ps, 1);
    assert ChosenUpTo(m, ps, 2) == [1];
    assert !FirstEligible(m, ps, 2);
    assert ChosenUpTo(m, ps, 3) == [1];
    assert Selected(m, ps) == Pick(ps, [1]);
  }

  /** The positions kept by the reachability-checking selection are those
      kept by synchronous selection whose peer is reachable. */
  lemma {:induction false} AsyncChoosesReachableSubset(d: BundleDescriptor, peers: seq<ClaPeer>, connects: string -> bool, n: nat)
    requires n <= |peers|
    ensures forall i :: i in ChosenAsyncUpTo(d, peers, connects, n) <==>
                        i in ChosenUpTo(d, peers, n) && IsReachable(peers[i], connects)
    decreases n
  {
    if n > 0 {
      AsyncChoosesReachableSubset(d, peers, connects, n - 1);
    }
  }

  lemma AsyncPickIsSelected(d: BundleDescriptor, peers: seq<ClaPeer>, connects: string -> bool, k: nat)
    requires k < |SelectedAsync(d, peers, connects)|
    ensures SelectedAsync(d, peers, connects)[k] in Selected(d, peers)
    ensures IsReachable(SelectedAsync(d, peers, connects)[k], connects)
  {
    var a := ChosenAsyncUpTo(d, peers, connects, |peers|);
    var s := ChosenUpTo(d, peers, |peers|);
    AsyncChoosesReachableSubset(d, peers, connects, |peers|);
    assert a[k] in s;
    var k' :| 0 <= k' < |s| && s[k'] == a[k];
    assert Selected(d, peers)[k'] == SelectedAsync(d, peers, connects)[k];
  }

  lemma ReachablePickIsAsync(d: BundleDescriptor, peers: seq<ClaPeer>, connects: string -> bool, k: nat)
    requires k < |Selected(d, peers)| && IsReachable(Selected(d, peers)[k], connects)
    ensures Selected(d, peers)[k] in SelectedAsync(d, peers, connects)
  {
    var a := ChosenAsyncUpTo(d, peers, connects, |peers|);
    var s := ChosenUpTo(d, peers, |peers|);
    AsyncChoosesReachableSubset(d, peers, connects, |peers|);
    assert s[k] in a;
    var k' :| 0 <= k' < |a| && a[k'] == s[k];
    assert SelectedAsync(d, peers, connects)[k'] == Selected(d, peers)[k];
  }

  /** A selected peer of the reachability-checking variant is a reachable
      peer of the synchronous selection, and every reachable peer of the
      synchronous selection is selected by it. */
  lemma AsyncIsReachableSelection(d: BundleDescriptor, peers: seq<ClaPeer>, connects: string -> bool)
    ensures forall p :: p in SelectedAsync(d, peers, connects) <==> p in Selected(d, peers) && IsReachable(p, connects)
  {
    var ra := SelectedAsync(d, peers, connects);
    var rs := Selected(d, peers);
    forall p | p in ra
      ensures p in rs && IsReachable(p, connects)
    {
      var k :| 0 <= k < |ra| && ra[k] == p;
      AsyncPickIsSelected(d, peers, connects, k);
    }
    forall p | p in rs && IsReachable(p, connects)
      ensures p in ra
    {
      var k :| 0 <= k < |rs| && rs[k] == p;
      ReachablePickIsAsync(d, peers, connects, k);
    }
  }

  /** When the first candidate with some identifier is unreachable, no
      candidate with that identifier is selected, not even a reachable later
      duplicate. */
  lemma UnreachableFirstOccurrenceHidesDuplicates(d: BundleDescriptor, peers: seq<ClaPeer>, connects: string -> bool, i: nat)
    requires i < |peers| && !IsReachable(peers[i], connects)
    requires forall k :: 0 <= k < i ==> Eid(peers[k]) != Eid(peers[i])
    ensures forall k :: 0 <= k < |SelectedAsync(d, peers, connects)| ==> Eid(SelectedAsync(d, peers, connects)[k]) != Eid(peers[i])
  {
    var a := ChosenAsyncUpTo(d, peers, connects, |peers|);
    forall k | 0 <= k < |a|
      ensures Eid(peers[a[k]]) != Eid(peers[i])
    {
      assert FirstEligible(d, peers, a[k]) && IsReachable(peers[a[k]], connects);
    }
  }
}
