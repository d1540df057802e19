/** Per-bundle forwarding bookkeeping (src/store/bundle_descriptor.rs): the
    bundle itself, the set of endpoints it has already been sent to, and a
    count of forwarding attempts. `created_at` is set from the clock at
    construction and is passed in here as `now`. */
module Descriptor {
  import opened Numeric
  import opened Text
  import opened Endpoint
  import opened Bpv7

  datatype BundleDescriptor = BundleDescriptor(
    bundle: Bundle,
    alreadySent: set<EndpointId>,
    forwardingAttempts: u32,
    createdAt: u64)
  {
    /** `has_been_sent_to`. */
    predicate HasBeenSentTo(eid: EndpointId) {
      eid in alreadySent
    }

    /** `is_ready_for_forwarding(max_attempts)` evaluated at time `now`. */
    predicate IsReadyForForwarding(maxAttempts: u32, now: u64) {
      !bundle.IsExpired(now) && forwardingAttempts < maxAttempts
    }
  }

  /** `BundleDescriptor::new(bundle)` at time `now`. */
  function NewDescriptor(b: Bundle, now: u64): (d: BundleDescriptor)
    ensures d.bundle == b && d.forwardingAttempts == 0 && d.createdAt == now
    ensures forall e :: !d.HasBeenSentTo(e)
  {
    BundleDescriptor(b, {}, 0, now)
  }

  /** `mark_sent(eid)`: records `eid` and leaves everything else as it was. */
  function MarkSent(d: BundleDescriptor, eid: EndpointId): (d': BundleDescriptor)
    ensures forall e :: d'.HasBeenSentTo(e) <==> e == eid || d.HasBeenSentTo(e)
    ensures d'.bundle == d.bundle && d'.forwardingAttempts == d.forwardingAttempts
    ensures d'.createdAt == d.createdAt
  {
    d.(alreadySent := d.alreadySent + {eid})
  }

  /** `increment_forwarding_attempts`; the `u32` counter must not overflow. */
  function IncrementForwardingAttempts(d: BundleDescriptor): (d': BundleDescriptor)
    requires d.forwardingAttempts as int < U32_MAX
    ensures d'.forwardingAttempts as int == d.forwardingAttempts as int + 1
    ensures d'.bundle == d.bundle && d'.alreadySent == d.alreadySent && d'.createdAt == d.createdAt
  {
    d.(forwardingAttempts := d.forwardingAttempts + 1)
  }

  /** `get_bundle_id`: the source, a dash, and the creation timestamp in
      decimal. */
  function GetBundleId(d: BundleDescriptor): (id: string)
    ensures |id| > |d.bundle.primary.source| + 1
    ensures id[..|d.bundle.primary.source|] == d.bundle.primary.source
    ensures id[|d.bundle.primary.source|] == '-'
    ensures var digits := id[|d.bundle.primary.source| + 1..];
      AllDigits(digits) && DigitsValue(digits) == d.bundle.primary.creationTimestamp as nat
    ensures var digits := id[|d.bundle.primary.source| + 1..];
      |digits| > 1 ==> digits[0] != '0'
  {
    var s := d.bundle.primary.source;
    var id := s + "-" + Decimal(d.bundle.primary.creationTimestamp as nat);
    assert id[|s| + 1..] == Decimal(d.bundle.primary.creationTimestamp as nat);
    DigitsValueOfDecimal(d.bundle.primary.creationTimestamp as nat);
    id
  }

  /** Marking twice is marking once: the set does not grow on a repeat. */
  lemma MarkSentIdempotent(d: BundleDescriptor, eid: EndpointId)
    ensures MarkSent(MarkSent(d, eid), eid) == MarkSent(d, eid)
    ensures d.HasBeenSentTo(eid) ==> |MarkSent(d, eid).alreadySent| == |d.alreadySent|
    ensures !d.HasBeenSentTo(eid) ==> |MarkSent(d, eid).alreadySent| == |d.alreadySent| + 1
  {
    if d.HasBeenSentTo(eid) {
      assert d.alreadySent + {eid} == d.alreadySent;
    }
  }

  /** The descriptor after marking each endpoint of `eids` in turn. */
  function MarkAll(d: BundleDescriptor, eids: seq<EndpointId>): BundleDescriptor
    decreases |eids|
  {
    if |eids| == 0 then d else MarkAll(MarkSent(d, eids[0]), eids[1..])
  }

  /** After any series of marks the already-sent set has only grown, it holds
      exactly the earlier members plus the marked endpoints, and the bundle
      and counter are untouched. */
  lemma {:induction false} MarkAllHistory(d: BundleDescriptor, eids: seq<EndpointId>)
    ensures d.alreadySent <= MarkAll(d, eids).alreadySent
    ensures forall e :: MarkAll(d, eids).HasBeenSentTo(e) <==> d.HasBeenSentTo(e) || e in eids
    ensures MarkAll(d, eids).bundle == d.bundle
    ensures MarkAll(d, eids).forwardingAttempts == d.forwardingAttempts
    decreases |eids|
  {
    if |eids| > 0 {
      MarkAllHistory(MarkSent(d, eids[0]), eids[1..]);
      assert forall e :: e in eids <==> e == eids[0] || e in eids[1..];
    }
  }

  /** A fresh descriptor has been sent to exactly the endpoints marked since. */
  lemma SentToIffMarked(b: Bundle, now: u64, eids: seq<EndpointId>, e: EndpointId)
    ensures MarkAll(NewDescriptor(b, now), eids).HasBeenSentTo(e) <==> e in eids
  {
    MarkAllHistory(NewDescriptor(b, now), eids);
  }

  /** Readiness is "alive and under the attempt limit"; a limit of zero is
      never met. */
  lemma ReadyCharacterization(d: BundleDescriptor, maxAttempts: u32, now: u64)
    ensures d.IsReadyForForwarding(maxAttempts, now) ==> !d.bundle.IsExpired(now)
    ensures d.IsReadyForForwarding(maxAttempts, now) ==> d.forwardingAttempts < maxAttempts
    ensures maxAttempts == 0 ==> !d.IsReadyForForwarding(maxAttempts, now)
    ensures !d.bundle.IsExpired(now) && d.forwardingAttempts < maxAttempts ==> d.IsReadyForForwarding(maxAttempts, now)
  {
  }

  /** The logical id depends on the source and creation timestamp only:
      destination, payload and forwarding state do not enter it. */
  lemma BundleIdIgnoresOtherFields(d1: BundleDescriptor, d2: BundleDescriptor)
    requires d1.bundle.primary.source == d2.bundle.primary.source
    requires d1.bundle.primary.creationTimestamp == d2.bundle.primary.creationTimestamp
    ensures GetBundleId(d1) == GetBundleId(d2)
  {
  }
}
