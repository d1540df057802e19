/** The bundle value type (src/bpv7/bundle.rs): a primary block carrying the
    fields routing and lifetime need, plus an opaque payload. */
module Bpv7 {
  import opened Numeric

  const DEFAULT_VERSION: u8 := 7
  const DEFAULT_LIFETIME: u64 := 3600
  const DEFAULT_REPORT_TO: string := "none"

  datatype PrimaryBlock = PrimaryBlock(
    version: u8,
    destination: string,
    source: string,
    reportTo: string,
    creationTimestamp: u64,
    lifetime: u64)

  datatype Bundle = Bundle(primary: PrimaryBlock, payload: Bytes)
  {
    /** The last second, in seconds since the epoch, at which the bundle is
        still alive. */
    function ExpiryTime(): nat {
      primary.creationTimestamp as nat + primary.lifetime as nat
    }

    /** `is_expired`, with the wall clock passed in as `now`: strictly past
        the creation time plus the lifetime. */
    predicate IsExpired(now: u64) {
      now as nat > ExpiryTime()
    }
  }

  /** `Bundle::new(source, destination, payload)` created at time `now`. */
  function NewBundle(source: string, destination: string, payload: Bytes, now: u64): (b: Bundle)
    ensures b.primary.version == 7 && b.primary.reportTo == "none"
    ensures b.primary.lifetime == 3600 && b.primary.creationTimestamp == now
    ensures b.primary.source == source && b.primary.destination == destination
    ensures b.payload == payload
  {
    Bundle(PrimaryBlock(DEFAULT_VERSION, destination, source, DEFAULT_REPORT_TO, now, DEFAULT_LIFETIME), payload)
  }

  /** A bundle is alive up to and including its expiry second, and expired
      from the next second on. */
  lemma ExpiryBoundary(b: Bundle, now: u64)
    ensures now as nat == b.ExpiryTime() ==> !b.IsExpired(now)
    ensures now as nat == b.ExpiryTime() + 1 ==> b.IsExpired(now)
  {
  }

  /** Once expired, a bundle stays expired at every later time. */
  lemma ExpiryIsMonotone(b: Bundle, now: u64, later: u64)
    requires b.IsExpired(now) && now <= later
    ensures b.IsExpired(later)
  {
  }

  /** A freshly made bundle is alive when made; one made 7200 seconds before
      `now` with the default lifetime has expired. */
  lemma FreshAndStaleBundles(s: string, d: string, p: Bytes, now: u64)
    ensures !NewBundle(s, d, p, now).IsExpired(now)
    ensures now >= 7200 ==> NewBundle(s, d, p, now - 7200).IsExpired(now)
  {
  }
}
