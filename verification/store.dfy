/** The file-backed bundle store (src/store/file.rs), as a state machine over
    an in-memory picture of two directories: the store directory and the
    directory dispatched records are moved to.

    A directory is the sequence of its entries in enumeration order (the
    order `read_dir` yields them); every entry's name is kept already split
    into the stem and extension that `Path::file_stem` and `Path::extension`
    return. Record ids are a stand-in for the SHA-256 hex digest: a fixed
    length rendering of a polynomial hash of the same text. Only their
    length and alphabet are relied on, never their injectivity. */
module FileStore {
  import opened Wrappers
  import opened Numeric
  import opened Text
  import opened Bpv7
  import opened Codec

  const CBOR_EXT: string := "cbor"
  const BUNDLE_ID_NOT_FOUND: string := "Bundle ID not found"
  /** The operating system's text for a missing file (os error 2). */
  const FILE_NOT_FOUND: string := "No such file or directory"
  /** A SHA-256 digest printed with `{:x}` has 64 hexadecimal digits. */
  const DIGEST_LENGTH: nat := 64
  const HASH_MODULUS: nat := 0x1_0000_0000_0000_0000_0000_0000_0000_0000_0000_0000_0000_0000_0000_0000_0000_0000

  datatype FileName = FileName(stem: string, ext: Option<string>)
  datatype Entry = Entry(name: FileName, data: Bytes)
  type Dir = seq<Entry>

  /** The only error kinds the store distinguishes: a missing file (an
      `io::Error` of kind `NotFound`) and bytes that are not a bundle. */
  datatype StoreError = NotFound(message: string) | DecodeError

  datatype BundleStore = BundleStore(dir: Dir, dispatched: Option<Dir>)

  function CborName(stem: string): FileName {
    FileName(stem, Some(CBOR_EXT))
  }

  predicate UniqueNames(d: Dir) {
    forall i, j :: 0 <= i < j < |d| ==> d[i].name != d[j].name
  }

  // ---------------------------------------------------------------------
  // Record ids

  predicate IsLowerHex(c: char) {
    '0' <= c <= '9' || 'a' <= c <= 'f'
  }

  function HexChar(v: nat): (c: char)
    requires v < 16
    ensures IsLowerHex(c)
  {
    "0123456789abcdef"[v]
  }

  function PolyHash(s: string): (h: nat)
    ensures h < HASH_MODULUS
    decreases |s|
  {
    if |s| == 0 then 0 else (PolyHash(s[..|s| - 1]) * 131 + s[|s| - 1] as int) % HASH_MODULUS
  }

  /** The `count` lowest hexadecimal digits of `n`, most significant first. */
  function HexDigits(n: nat, count: nat): (r: string)
    ensures |r| == count
    ensures forall i :: 0 <= i < |r| ==> IsLowerHex(r[i])
    decreases count
  {
    if count == 0 then [] else HexDigits(n / 16, count - 1) + [HexChar(n % 16)]
  }

  /** The text `filename_for` hashes: version, source, destination and
      creation timestamp, separated by colons. */
  function IdText(b: Bundle): string {
    Decimal(b.primary.version as nat) + ":" + b.primary.source + ":" + b.primary.destination
      + ":" + Decimal(b.primary.creationTimestamp as nat)
  }

  /** The record id of a bundle: the stem of the file it is stored in. */
  function RecordId(b: Bundle): (id: string)
    ensures |id| == DIGEST_LENGTH
    ensures forall i :: 0 <= i < |id| ==> IsLowerHex(id[i])
  {
    HexDigits(PolyHash(IdText(b)), DIGEST_LENGTH)
  }

  /** `filename_for`. */
  function FileNameFor(b: Bundle): (n: FileName)
    ensures n.ext == Some(CBOR_EXT) && |n.stem| == DIGEST_LENGTH
  {
    CborName(RecordId(b))
  }

  /** The file name depends on the version, source, destination and
      creation timestamp only: bundles that differ only in payload, lifetime
      or report-to address share a file. */
  lemma FileNameIgnoresOtherFields(a: Bundle, b: Bundle)
    requires a.primary.version == b.primary.version
    requires a.primary.source == b.primary.source
    requires a.primary.destination == b.primary.destination
    requires a.primary.creationTimestamp == b.primary.creationTimestamp
    ensures FileNameFor(a) == FileNameFor(b)
  {
  }

  // ---------------------------------------------------------------------
  // Directory primitives

  /** Reading the file with name `n`. */
  function Lookup(d: Dir, n: FileName): (r: Option<Bytes>)
    ensures r.Some? <==> exists e :: e in d && e.name == n
    ensures r.Some? ==> Entry(n, r.value) in d
  {
    if |d| == 0 then None
    else if d[0].name == n then Some(d[0].data)
    else
      assert forall e :: e in d && e.name == n ==> e in d[1..];
      Lookup(d[1..], n)
  }

  /** In a directory with unique names, the file with an entry's name holds
      that entry's contents. */
  lemma {:induction false} LookupUnique(d: Dir, e: Entry)
    requires UniqueNames(d) && e in d
    ensures Lookup(d, e.name) == Some(e.data)
  {
    if d[0] != e {
      var j :| 0 <= j < |d| && d[j] == e;
      assert j > 0 && d[0].name != d[j].name;
      assert UniqueNames(d[1..]);
      assert e == d[1..][j - 1];
      LookupUnique(d[1..], e);
    }
  }

  /** `fs::remove_file`: no file named `n` is left; a missing file is
      nothing to remove. */
  function Remove(d: Dir, n: FileName): (r: Dir)
    ensures forall e :: e in r <==> e in d && e.name != n
    ensures forall m :: m != n ==> Lookup(r, m) == Lookup(d, m)
    ensures UniqueNames(d) ==> UniqueNames(r)
    ensures |r| <= |d|
  {
    if |d| == 0 then []
    else
      var rest := Remove(d[1..], n);
      assert forall e :: e in d <==> e == d[0] || e in d[1..];
      if d[0].name == n then rest
      else
        assert UniqueNames(d) ==> forall e :: e in rest ==> e.name != d[0].name by {
          if UniqueNames(d) {
            forall e | e in rest ensures e.name != d[0].name {
              var j :| 0 <= j < |d[1..]| && d[1..][j] == e;
              assert d[j + 1] == e;
            }
          }
        }
        assert UniqueNames(d) ==> UniqueNames(d[1..]);
        [d[0]] + rest
  }

  lemma {:induction false} LookupAppend(a: Dir, b: Dir, n: FileName)
    ensures Lookup(a + b, n) == if Lookup(a, n).Some? then Lookup(a, n) else Lookup(b, n)
  {
    if |a| > 0 {
      assert (a + b)[1..] == a[1..] + b;
      LookupAppend(a[1..], b, n);
    } else {
      assert a + b == b;
    }
  }

  /** `fs::write` or the target of `fs::rename`: the file named `n` now holds
      `x`, replacing any earlier contents; no other file changes. The
      rewritten file is enumerated last. */
  function Put(d: Dir, n: FileName, x: Bytes): (r: Dir)
    ensures Lookup(r, n) == Some(x)
    ensures forall m :: m != n ==> Lookup(r, m) == Lookup(d, m)
    ensures forall e :: e in r <==> e == Entry(n, x) || (e in d && e.name != n)
    ensures UniqueNames(d) ==> UniqueNames(r)
  {
    var rest := Remove(d, n);
    LookupAppend(rest, [Entry(n, x)], n);
    forall m | m != n ensures Lookup(rest + [Entry(n, x)], m) == Lookup(d, m) {
      LookupAppend(rest, [Entry(n, x)], m);
    }
    rest + [Entry(n, x)]
  }

  // ---------------------------------------------------------------------
  // Store operations

  /** `BundleStore::new`: opens the directory, creating it empty when it
      does not exist yet. The dispatched directory is a separate path that
      outlives the store; `dispatchedFound` is what an earlier run left
      there, if anything, and it is taken over as it is. */
  function New(existing: Option<Dir>, dispatchedFound: Option<Dir>): (s: BundleStore)
    ensures existing.None? ==> s.dir == []
    ensures existing.Some? ==> s.dir == existing.value
    ensures s.dispatched == dispatchedFound
  {
    BundleStore(if existing.Some? then existing.value else [], dispatchedFound)
  }

  /** `insert`: writes the encoded bundle to the file its id names. */
  function Insert(s: BundleStore, b: Bundle): (r: BundleStore)
    ensures Lookup(r.dir, FileNameFor(b)) == Some(Encode(b))
    ensures forall m :: m != FileNameFor(b) ==> Lookup(r.dir, m) == Lookup(s.dir, m)
    ensures r.dispatched == s.dispatched
  {
    s.(dir := Put(s.dir, FileNameFor(b), Encode(b)))
  }

  /** `load`: reads `{id}.cbor` and decodes it. */
  function Load(s: BundleStore, id: string): (r: Result<Bundle, StoreError>)
    ensures Lookup(s.dir, CborName(id)).None? <==> r == Err(NotFound(FILE_NOT_FOUND))
    ensures r.Ok? ==> Lookup(s.dir, CborName(id)).Some? && Decode(Lookup(s.dir, CborName(id)).value) == Some(r.value)
    ensures Lookup(s.dir, CborName(id)).Some? && Decodes(Lookup(s.dir, CborName(id)).value) ==> r.Ok?
    ensures r.Err? ==> r.error == DecodeError || r.error == NotFound(FILE_NOT_FOUND)
  {
    match Lookup(s.dir, CborName(id))
    case None => Err(NotFound(FILE_NOT_FOUND))
    case Some(data) =>
      match Decode(data)
      case None => Err(DecodeError)
      case Some(b) => Ok(b)
  }

  /** `list`: the stems of the entries whose extension is `cbor`, in
      enumeration order. */
  function List(d: Dir): (ids: seq<string>)
    ensures forall x :: x in ids <==> Lookup(d, CborName(x)).Some?
    ensures |ids| <= |d|
  {
    if |d| == 0 then []
    else if d[0].name.ext == Some(CBOR_EXT) then [d[0].name.stem] + List(d[1..])
    else List(d[1..])
  }

  /** Listing a directory with unique names gives no id twice. */
  lemma {:induction false} ListDistinct(d: Dir)
    requires UniqueNames(d)
    ensures forall i, j :: 0 <= i < j < |List(d)| ==> List(d)[i] != List(d)[j]
  {
    if |d| > 0 {
      assert UniqueNames(d[1..]);
      ListDistinct(d[1..]);
      if d[0].name.ext == Some(CBOR_EXT) {
        var x := d[0].name.stem;
        assert forall e :: e in d[1..] ==> e.name != d[0].name by {
          forall e | e in d[1..] ensures e.name != d[0].name {
            var j :| 0 <= j < |d[1..]| && d[1..][j] == e;
            assert d[j + 1] == e;
          }
        }
        assert x !in List(d[1..]);
      }
    }
  }

  /** Position of the first id that starts with `p`. */
  function FirstPrefixed(ids: seq<string>, p: string): (r: Option<nat>)
    ensures r.None? <==> forall i :: 0 <= i < |ids| ==> !(p <= ids[i])
    ensures r.Some? ==> r.value < |ids| && p <= ids[r.value]
    ensures r.Some? ==> forall j :: 0 <= j < r.value ==> !(p <= ids[j])
  {
    if |ids| == 0 then None
    else if StartsWith(ids[0], p) then Some(0)
    else
      var r := FirstPrefixed(ids[1..], p);
      if r.None? then None else Some(r.value + 1)
  }

  /** `find_by_partial_id`: the first listed id that starts with `p`. */
  function FindByPartialId(s: BundleStore, p: string): (r: Option<string>)
    ensures r.None? ==> forall x :: x in List(s.dir) ==> !StartsWith(x, p)
    ensures r.Some? ==> r.value in List(s.dir) && StartsWith(r.value, p)
    ensures r.Some? ==> exists i :: 0 <= i < |List(s.dir)| && List(s.dir)[i] == r.value &&
                          forall j :: 0 <= j < i ==> !StartsWith(List(s.dir)[j], p)
  {
    var ids := List(s.dir);
    var k := FirstPrefixed(ids, p);
    if k.None? then
      assert forall x :: x in ids ==> !StartsWith(x, p) by {
        forall x | x in ids ensures !StartsWith(x, p) {
          var i :| 0 <= i < |ids| && ids[i] == x;
        }
      }
      None
    else
      assert StartsWith(ids[k.value], p);
      Some(ids[k.value])
  }

  /** When two listed ids both start with `p`, the later one is never the
      match: the search stops at the first. */
  lemma EarlierPrefixedIdWins(s: BundleStore, p: string, i: nat, j: nat)
    requires UniqueNames(s.dir)
    requires i < j < |List(s.dir)|
    requires StartsWith(List(s.dir)[i], p) && StartsWith(List(s.dir)[j], p)
    ensures FindByPartialId(s, p).Some?
    ensures FindByPartialId(s, p) != Some(List(s.dir)[j])
  {
    var ids := List(s.dir);
    ListDistinct(s.dir);
    var r := FindByPartialId(s, p);
    var k :| 0 <= k < |ids| && ids[k] == r.value && forall m :: 0 <= m < k ==> !StartsWith(ids[m], p);
    assert k <= i;
  }

  /** `load_by_partial_id`. */
  function LoadByPartialId(s: BundleStore, p: string): (r: Result<Bundle, StoreError>)
    ensures FindByPartialId(s, p).None? ==> r == Err(NotFound(BUNDLE_ID_NOT_FOUND))
    ensures FindByPartialId(s, p).Some? ==> r == Load(s, FindByPartialId(s, p).value)
  {
    match FindByPartialId(s, p)
    case None => Err(NotFound(BUNDLE_ID_NOT_FOUND))
    case Some(id) => Load(s, id)
  }

  /** `dispatch_one`: creates the dispatched directory, then moves the
      bundle's file into it under the same name. When the file is missing
      the move fails, but the directory has been created. */
  function DispatchOne(s: BundleStore, b: Bundle): (r: (BundleStore, Result<(), StoreError>))
    ensures r.0.dispatched.Some?
    ensures Lookup(s.dir, FileNameFor(b)).None? ==>
              r.1 == Err(NotFound(FILE_NOT_FOUND)) && r.0.dir == s.dir
              && (s.dispatched.Some? ==> r.0.dispatched == s.dispatched)
              && (s.dispatched.None? ==> r.0.dispatched == Some([]))
    ensures Lookup(s.dir, FileNameFor(b)).Some? ==>
              && r.1.Ok?
              && Lookup(r.0.dir, FileNameFor(b)).None?
              && Lookup(r.0.dispatched.value, FileNameFor(b)) == Lookup(s.dir, FileNameFor(b))
    ensures forall m :: m != FileNameFor(b) ==> Lookup(r.0.dir, m) == Lookup(s.dir, m)
    ensures forall m :: m != FileNameFor(b) && s.dispatched.Some? ==>
              Lookup(r.0.dispatched.value, m) == Lookup(s.dispatched.value, m)
  {
    var n := FileNameFor(b);
    var target := if s.dispatched.Some? then s.dispatched.value else [];
    match Lookup(s.dir, n)
    case None => (s.(dispatched := Some(target)), Err(NotFound(FILE_NOT_FOUND)))
    case Some(data) => (BundleStore(Remove(s.dir, n), Some(Put(target, n, data))), Ok(()))
  }

  /** `cleanup_expired` from the point where the ids `ids` are still to be
      visited. Each id is looked up again by prefix; a missing record is
      skipped, any other error ends the sweep with the removals done so
      far, and an expired record's file `{id}.cbor` is removed. */
  function CleanupFrom(s: BundleStore, ids: seq<string>, now: u64): (r: (BundleStore, Result<(), StoreError>))
    ensures r.0.dispatched == s.dispatched
    ensures forall e :: e in r.0.dir ==> e in s.dir
    ensures r.1.Err? ==> r.1.error == DecodeError
    decreases |ids|
  {
    if |ids| == 0 then (s, Ok(()))
    else
      match LoadByPartialId(s, ids[0])
      case Ok(b) =>
        var s' := if b.IsExpired(now) then s.(dir := Remove(s.dir, CborName(ids[0]))) else s;
        CleanupFrom(s', ids[1..], now)
      case Err(NotFound(_)) => CleanupFrom(s, ids[1..], now)
      case Err(e) => (s, Err(e))
  }

  /** `cleanup_expired`, with the wall clock passed in as `now`: sweeps the
      ids listed when it starts. */
  function CleanupExpired(s: BundleStore, now: u64): (r: (BundleStore, Result<(), StoreError>))
    ensures r.0.dispatched == s.dispatched
    ensures forall e :: e in r.0.dir ==> e in s.dir
    ensures r.1.Err? ==> r.1.error == DecodeError
  {
    CleanupFrom(s, List(s.dir), now)
  }

  // ---------------------------------------------------------------------
  // Store invariant

  /** A well-formed store directory: unique names, and every `cbor` stem a
      full-length record id. */
  predicate WellFormed(d: Dir) {
    && UniqueNames(d)
    && forall e :: e in d && e.name.ext == Some(CBOR_EXT) ==> |e.name.stem| == DIGEST_LENGTH
  }

  predicate Decodes(data: Bytes) {
    Decode(data).Some?
  }

  /** A directory written only through `insert`: well formed, and every
      record decodes to a bundle whose record id is the record's stem. */
  predicate Consistent(d: Dir) {
    && WellFormed(d)
    && forall e :: e in d && e.name.ext == Some(CBOR_EXT) ==>
         Decodes(e.data) && RecordId(Decode(e.data).value) == e.name.stem
  }

  predicate PrefixFree(ids: seq<string>) {
    forall i, j :: 0 <= i < |ids| && 0 <= j < |ids| && i != j ==> !(ids[i] <= ids[j])
  }

  lemma WellFormedPrefixFree(d: Dir)
    requires WellFormed(d)
    ensures PrefixFree(List(d))
  {
    var ids := List(d);
    ListDistinct(d);
    forall i, j | 0 <= i < |ids| && 0 <= j < |ids| && i != j
      ensures !(ids[i] <= ids[j])
    {
      var ei :| ei in d && ei.name == CborName(ids[i]);
      var ej :| ej in d && ej.name == CborName(ids[j]);
      assert ids[i] != ids[j];
      SameLengthNotPrefix(ids[i], ids[j]);
    }
  }

  lemma SameLengthNotPrefix(a: string, b: string)
    requires |a| == |b| && a != b
    ensures !(a <= b)
  {
  }

  /** A new store is consistent, and insertion and dispatch keep it so. */
  lemma ConsistencyIsKept(s: BundleStore, b: Bundle, existing: Option<Dir>, dispatchedFound: Option<Dir>)
    ensures existing.None? ==> Consistent(New(existing, dispatchedFound).dir)
    ensures Consistent(s.dir) ==> Consistent(Insert(s, b).dir)
    ensures Consistent(s.dir) ==> Consistent(DispatchOne(s, b).0.dir)
  {
    RoundTrip(b);
  }

  // ---------------------------------------------------------------------
  // Insertion, loading, listing

  /** After `insert(b)`, loading by the bundle's record id gives `b`. */
  lemma InsertThenLoad(s: BundleStore, b: Bundle)
    ensures Load(Insert(s, b), RecordId(b)) == Ok(b)
  {
    RoundTrip(b);
  }

  /** Inserting a bundle changes no other record, and adds exactly its
      record id to the listing. */
  lemma InsertKeepsOthers(s: BundleStore, b: Bundle, id: string)
    ensures id != RecordId(b) ==> Load(Insert(s, b), id) == Load(s, id)
    ensures id in List(Insert(s, b).dir) <==> id == RecordId(b) || id in List(s.dir)
  {
  }

  /** A second insert with the same record id overwrites the first. */
  lemma InsertOverwrites(s: BundleStore, a: Bundle, b: Bundle)
    requires RecordId(a) == RecordId(b)
    ensures Load(Insert(Insert(s, a), b), RecordId(a)) == Ok(b)
  {
    InsertThenLoad(Insert(s, a), b);
  }

  /** A prefix that picks out only the inserted bundle's id loads it. */
  lemma InsertThenLoadByPartialId(s: BundleStore, b: Bundle, p: string)
    requires p <= RecordId(b)
    requires forall x :: x in List(s.dir) && x != RecordId(b) ==> !(p <= x)
    ensures LoadByPartialId(Insert(s, b), p) == Ok(b)
  {
    var s' := Insert(s, b);
    assert RecordId(b) in List(s'.dir);
    var found := FindByPartialId(s', p);
    assert found.Some?;
    assert found.value == RecordId(b) by {
      var x := found.value;
      assert x != RecordId(b) ==> x in List(s.dir);
    }
    InsertThenLoad(s, b);
  }

  /** Loading a record that is missing or does not decode fails. */
  lemma LoadFailures(s: BundleStore, id: string, p: string)
    ensures Lookup(s.dir, CborName(id)).None? ==> Load(s, id).Err? && Load(s, id).error.NotFound?
    ensures Lookup(s.dir, CborName(id)).Some? && !Decodes(Lookup(s.dir, CborName(id)).value) ==>
              Load(s, id) == Err(DecodeError)
    ensures (forall x :: x in List(s.dir) ==> !(p <= x)) ==>
              LoadByPartialId(s, p) == Err(NotFound(BUNDLE_ID_NOT_FOUND))
  {
  }

  /** Dispatching an inserted bundle moves its encoding to the dispatched
      directory; loading it from the store then fails with NotFound. */
  lemma InsertThenDispatch(s: BundleStore, b: Bundle)
    ensures DispatchOne(Insert(s, b), b).1.Ok?
    ensures Lookup(DispatchOne(Insert(s, b), b).0.dispatched.value, FileNameFor(b)) == Some(Encode(b))
    ensures Load(DispatchOne(Insert(s, b), b).0, RecordId(b)) == Err(NotFound(FILE_NOT_FOUND))
  {
  }

  // ---------------------------------------------------------------------
  // Expiry cleanup

  /** The record `e` is one the sweep removes once its stem has been
      visited: a `cbor` file whose stem is in `visited` and which decodes to
      a bundle expired at `now`. */
  predicate Doomed(e: Entry, visited: set<string>, now: u64) {
    && e.name.ext == Some(CBOR_EXT)
    && e.name.stem in visited
    && Decodes(e.data)
    && Decode(e.data).value.IsExpired(now)
  }

  /** The directory `d` once the sweep has visited the stems `visited`. */
  function Kept(d: Dir, visited: set<string>, now: u64): Dir
  {
    if |d| == 0 then []
    else (if Doomed(d[0], visited, now) then [] else [d[0]]) + Kept(d[1..], visited, now)
  }

  /** The sweep keeps exactly the entries it has not doomed. */
  lemma {:induction false} KeptMembers(d: Dir, visited: set<string>, now: u64)
    ensures forall e :: e in Kept(d, visited, now) <==> e in d && !Doomed(e, visited, now)
  {
    if |d| > 0 {
      assert forall e :: e in d <==> e == d[0] || e in d[1..];
      KeptMembers(d[1..], visited, now);
    }
  }

  /** Every record that decodes to a bundle expired at `now` removed, the
      rest kept in order. */
  function KeepLive(d: Dir, now: u64): (r: Dir)
    ensures forall e :: e in r <==> e in d && !(e.name.ext == Some(CBOR_EXT) && Decodes(e.data) && Decode(e.data).value.IsExpired(now))
  {
    if |d| == 0 then []
    else
      assert forall e :: e in d <==> e == d[0] || e in d[1..];
      var dead := d[0].name.ext == Some(CBOR_EXT) && Decodes(d[0].data) && Decode(d[0].data).value.IsExpired(now);
      (if dead then [] else [d[0]]) + KeepLive(d[1..], now)
  }

  lemma {:induction false} KeptNothing(d: Dir, now: u64)
    ensures Kept(d, {}, now) == d
  {
    if |d| > 0 {
      KeptNothing(d[1..], now);
    }
  }

  lemma {:induction false} KeptEverything(d: Dir, visited: set<string>, now: u64)
    requires forall e :: e in d && e.name.ext == Some(CBOR_EXT) ==> e.name.stem in visited
    ensures Kept(d, visited, now) == KeepLive(d, now)
  {
    if |d| > 0 {
      assert d[0] in d;
      KeptEverything(d[1..], visited, now);
    }
  }

  /** Visiting a stem whose records are all expired removes its file. */
  lemma {:induction false} RemoveVisited(d: Dir, visited: set<string>, id: string, now: u64)
    requires forall e :: e in d && e.name == CborName(id) ==> Decodes(e.data) && Decode(e.data).value.IsExpired(now)
    ensures Remove(Kept(d, visited, now), CborName(id)) == Kept(d, visited + {id}, now)
  {
    if |d| > 0 {
      assert d[0] in d;
      RemoveVisited(d[1..], visited, id, now);
      var head := if Doomed(d[0], visited, now) then [] else [d[0]];
      var kept := Kept(d[1..], visited, now);
      assert Kept(d, visited, now) == head + kept;
      RemoveAppend(head, kept, CborName(id));
    }
  }

  lemma {:induction false} RemoveAppend(a: Dir, b: Dir, n: FileName)
    ensures Remove(a + b, n) == Remove(a, n) + Remove(b, n)
  {
    if |a| > 0 {
      assert (a + b)[1..] == a[1..] + b;
      RemoveAppend(a[1..], b, n);
    } else {
      assert a + b == b;
    }
  }

  /** Visiting a stem whose records are all alive changes nothing. */
  lemma {:induction false} KeepVisited(d: Dir, visited: set<string>, id: string, now: u64)
    requires forall e :: e in d && e.name == CborName(id) ==> !(Decodes(e.data) && Decode(e.data).value.IsExpired(now))
    ensures Kept(d, visited + {id}, now) == Kept(d, visited, now)
  {
    if |d| > 0 {
      assert d[0] in d;
      KeepVisited(d[1..], visited, id, now);
    }
  }

  /** A stem not yet visited still names its original record. */
  lemma {:induction false} LookupKept(d: Dir, visited: set<string>, id: string, now: u64)
    requires id !in visited
    ensures Lookup(Kept(d, visited, now), CborName(id)) == Lookup(d, CborName(id))
  {
    if |d| > 0 {
      LookupKept(d[1..], visited, id, now);
      var head := if Doomed(d[0], visited, now) then [] else [d[0]];
      var kept := Kept(d[1..], visited, now);
      assert Kept(d, visited, now) == head + kept;
      LookupAppend(head, kept, CborName(id));
    }
  }

  function Elems(ids: seq<string>): set<string> {
    set x | x in ids
  }

  /** The record `{id}.cbor` exists and decodes. */
  predicate IdDecodes(d: Dir, id: string) {
    Lookup(d, CborName(id)).Some? && Decodes(Lookup(d, CborName(id)).value)
  }

  /** The number of ids visited before one whose record does not decode. */
  function DecodableRun(d: Dir, ids: seq<string>): (k: nat)
    ensures k <= |ids|
    ensures forall j :: 0 <= j < k ==> IdDecodes(d, ids[j])
    ensures k < |ids| ==> !IdDecodes(d, ids[k])
  {
    if |ids| == 0 || !IdDecodes(d, ids[0]) then 0 else 1 + DecodableRun(d, ids[1..])
  }

  /** During the sweep, looking up an id not yet visited by prefix finds
      that id itself, whose record is still the original one. */
  lemma SweepFindsOwnRecord(s: BundleStore, d: Dir, visited: set<string>, id: string, now: u64)
    requires PrefixFree(List(d))
    requires s.dir == Kept(d, visited, now)
    requires id in List(d) && id !in visited
    ensures FindByPartialId(s, id) == Some(id)
    ensures Lookup(s.dir, CborName(id)) == Lookup(d, CborName(id))
  {
    LookupKept(d, visited, id, now);
    KeptMembers(d, visited, now);
    assert id in List(s.dir);
    var found := FindByPartialId(s, id);
    var x := found.value;
    var e :| e in s.dir && e.name == CborName(x);
    assert x in List(d);
    PrefixFreeMembers(List(d), id, x);
  }

  lemma PrefixFreeMembers(ids: seq<string>, a: string, b: string)
    requires PrefixFree(ids) && a in ids && b in ids && a <= b
    ensures a == b
  {
    var i :| 0 <= i < |ids| && ids[i] == a;
    var j :| 0 <= j < |ids| && ids[j] == b;
    assert i == j;
  }

  /** In a store whose listing is prefix-free, looking up a listed id by
      prefix finds that id. */
  lemma FindOwnId(s: BundleStore, id: string)
    requires PrefixFree(List(s.dir)) && id in List(s.dir)
    ensures FindByPartialId(s, id) == Some(id)
  {
    var found := FindByPartialId(s, id);
    PrefixFreeMembers(List(s.dir), id, found.value);
  }

  /** Visiting an id whose record decodes removes it exactly when it has
      expired. */
  lemma SweepVisit(d: Dir, visited: set<string>, id: string, now: u64)
    requires UniqueNames(d) && IdDecodes(d, id)
    ensures var b := Decode(Lookup(d, CborName(id)).value).value;
      (if b.IsExpired(now) then Remove(Kept(d, visited, now), CborName(id)) else Kept(d, visited, now))
        == Kept(d, visited + {id}, now)
  {
    var n := CborName(id);
    var data := Lookup(d, n).value;
    forall e | e in d && e.name == n ensures e.data == data {
      LookupUnique(d, e);
    }
    if Decode(data).value.IsExpired(now) {
      RemoveVisited(d, visited, id, now);
    } else {
      KeepVisited(d, visited, id, now);
    }
  }

  /** One step of the sweep over an id whose record loads. */
  lemma CleanupFromStep(s: BundleStore, ids: seq<string>, now: u64, b: Bundle)
    requires |ids| > 0 && LoadByPartialId(s, ids[0]) == Ok(b)
    ensures CleanupFrom(s, ids, now)
      == CleanupFrom(if b.IsExpired(now) then s.(dir := Remove(s.dir, CborName(ids[0]))) else s, ids[1..], now)
  {
  }

  /** The ids after the first are distinct, listed, and not yet visited
      once the first has been. */
  lemma TailStillFresh(d: Dir, visited: set<string>, ids: seq<string>)
    requires |ids| > 0
    requires forall i, j :: 0 <= i < j < |ids| ==> ids[i] != ids[j]
    requires forall x :: x in ids ==> x in List(d) && x !in visited
    ensures forall i, j :: 0 <= i < j < |ids[1..]| ==> ids[1..][i] != ids[1..][j]
    ensures forall x :: x in ids[1..] ==> x in List(d) && x !in visited + {ids[0]}
  {
    var rest := ids[1..];
    forall x | x in rest ensures x in List(d) && x !in visited + {ids[0]} {
      var j :| 0 <= j < |rest| && rest[j] == x;
      assert ids[j + 1] == x;
    }
  }

  lemma ElemsStep(ids: seq<string>, k: nat)
    requires 1 <= k <= |ids|
    ensures Elems(ids[..k]) == {ids[0]} + Elems(ids[1..][..k - 1])
  {
    assert ids[..k] == [ids[0]] + ids[1..][..k - 1];
  }

  /** An id whose record does not decode ends the sweep with a decoding
      error and no further change. */
  lemma SweepStops(s: BundleStore, d: Dir, visited: set<string>, ids: seq<string>, now: u64)
    requires PrefixFree(List(d))
    requires s.dir == Kept(d, visited, now)
    requires |ids| > 0 && ids[0] in List(d) && ids[0] !in visited
    requires !IdDecodes(d, ids[0])
    ensures CleanupFrom(s, ids, now) == (s, Err(DecodeError))
  {
    SweepFindsOwnRecord(s, d, visited, ids[0], now);
    assert LoadByPartialId(s, ids[0]) == Err(DecodeError);
  }

  /** An id whose record decodes moves the sweep on to the next id, with
      that id now visited. */
  lemma SweepAdvances(s: BundleStore, d: Dir, visited: set<string>, ids: seq<string>, now: u64)
    returns (s': BundleStore)
    requires UniqueNames(d) && PrefixFree(List(d))
    requires s.dir == Kept(d, visited, now)
    requires |ids| > 0 && ids[0] in List(d) && ids[0] !in visited
    requires IdDecodes(d, ids[0])
    ensures s' == s.(dir := Kept(d, visited + {ids[0]}, now))
    ensures CleanupFrom(s, ids, now) == CleanupFrom(s', ids[1..], now)
  {
    var id := ids[0];
    SweepFindsOwnRecord(s, d, visited, id, now);
    var b := Decode(Lookup(d, CborName(id)).value).value;
    assert LoadByPartialId(s, id) == Ok(b);
    s' := if b.IsExpired(now) then s.(dir := Remove(s.dir, CborName(id))) else s;
    CleanupFromStep(s, ids, now, b);
    SweepVisit(d, visited, id, now);
  }

  /** The outcome of sweeping `ids` from a state where the stems `visited`
      have been handled: the expired records among the first `k` ids are
      gone, where `k` counts the ids before the first record that does not
      decode, and the sweep fails with a decoding error exactly when it
      stopped short. */
  predicate SweptAsExpected(s: BundleStore, d: Dir, visited: set<string>, ids: seq<string>, now: u64) {
    var k := DecodableRun(d, ids);
    && CleanupFrom(s, ids, now).0 == s.(dir := Kept(d, visited + Elems(ids[..k]), now))
    && (k == |ids| <==> CleanupFrom(s, ids, now).1.Ok?)
    && (k < |ids| ==> CleanupFrom(s, ids, now).1 == Err(DecodeError))
  }

  /** One successful visit composes with the sweep over the remaining ids. */
  lemma SweepCompose(s: BundleStore, s': BundleStore, d: Dir, visited: set<string>, ids: seq<string>, now: u64)
    requires |ids| > 0 && IdDecodes(d, ids[0])
    requires s' == s.(dir := s'.dir)
    requires CleanupFrom(s, ids, now) == CleanupFrom(s', ids[1..], now)
    requires SweptAsExpected(s', d, visited + {ids[0]}, ids[1..], now)
    ensures SweptAsExpected(s, d, visited, ids, now)
  {
    var k := DecodableRun(d, ids);
    var rest := ids[1..];
    assert DecodableRun(d, rest) == k - 1;
    ElemsStep(ids, k);
    assert (visited + {ids[0]}) + Elems(rest[..k - 1]) == visited + Elems(ids[..k]);
  }

  /** The sweep over ids of a prefix-free listing of `d`, from a state where
      the stems `visited` have been handled: it visits ids until the first
      one whose record does not decode, removing exactly the expired records
      among those visited, and fails there with a decoding error. */
  lemma {:induction false} CleanupFromSweeps(s: BundleStore, d: Dir, visited: set<string>, ids: seq<string>, now: u64)
    requires UniqueNames(d) && PrefixFree(List(d))
    requires s.dir == Kept(d, visited, now)
    requires forall i, j :: 0 <= i < j < |ids| ==> ids[i] != ids[j]
    requires forall x :: x in ids ==> x in List(d) && x !in visited
    ensures SweptAsExpected(s, d, visited, ids, now)
    decreases |ids|
  {
    if |ids| == 0 {
      assert visited + Elems(ids[..0]) == visited;
    } else if !IdDecodes(d, ids[0]) {
      SweepStops(s, d, visited, ids, now);
      assert visited + Elems(ids[..0]) == visited;
    } else {
      var s' := SweepAdvances(s, d, visited, ids, now);
      TailStillFresh(d, visited, ids);
      CleanupFromSweeps(s', d, visited + {ids[0]}, ids[1..], now);
      SweepCompose(s, s', d, visited, ids, now);
    }
  }

  /** Every listed id of a consistent directory names a record that
      decodes. */
  lemma ListedIdsDecode(d: Dir)
    requires Consistent(d)
    ensures forall x :: x in List(d) ==> IdDecodes(d, x)
  {
    forall x | x in List(d) ensures IdDecodes(d, x) {
      var e :| e in d && e.name == CborName(x);
      LookupUnique(d, e);
    }
  }

  lemma {:induction false} RunCoversAll(d: Dir, ids: seq<string>)
    requires forall x :: x in ids ==> IdDecodes(d, x)
    ensures DecodableRun(d, ids) == |ids|
  {
    if |ids| > 0 {
      assert ids[0] in ids;
      assert forall x :: x in ids[1..] ==> x in ids;
      RunCoversAll(d, ids[1..]);
    }
  }

  /** The sweep starts from the whole listing of a well-formed directory,
      nothing visited. */
  lemma SweepFromStart(s: BundleStore, now: u64)
    requires WellFormed(s.dir)
    ensures var ids := List(s.dir); var k := DecodableRun(s.dir, ids);
      && CleanupExpired(s, now).0 == s.(dir := Kept(s.dir, Elems(ids[..k]), now))
      && (k == |ids| <==> CleanupExpired(s, now).1.Ok?)
      && (k < |ids| ==> CleanupExpired(s, now).1 == Err(DecodeError))
  {
    var d := s.dir;
    var ids := List(d);
    KeptNothing(d, now);
    WellFormedPrefixFree(d);
    ListDistinct(d);
    CleanupFromSweeps(s, d, {}, ids, now);
    assert {} + Elems(ids[..DecodableRun(d, ids)]) == Elems(ids[..DecodableRun(d, ids)]);
  }

  /** On a store written only through `insert`, `cleanup_expired` succeeds,
      removes exactly the records whose bundle has expired at `now`, and
      keeps every other file, in order. */
  lemma CleanupRemovesExactlyExpired(s: BundleStore, now: u64)
    requires Consistent(s.dir)
    ensures CleanupExpired(s, now).0 == s.(dir := KeepLive(s.dir, now))
    ensures CleanupExpired(s, now).1.Ok?
  {
    var d := s.dir;
    var ids := List(d);
    SweepFromStart(s, now);
    ListedIdsDecode(d);
    RunCoversAll(d, ids);
    assert ids[..|ids|] == ids;
    StemsListed(d);
    KeptEverything(d, Elems(ids), now);
    var r := CleanupExpired(s, now);
    assert r.0 == s.(dir := KeepLive(d, now));
    assert DecodableRun(d, ids) == |ids|;
    assert r.1.Ok?;
  }

  lemma StemsListed(d: Dir)
    ensures forall e :: e in d && e.name.ext == Some(CBOR_EXT) ==> e.name.stem in Elems(List(d))
  {
    forall e | e in d && e.name.ext == Some(CBOR_EXT) ensures e.name.stem in Elems(List(d)) {
      assert e.name == CborName(e.name.stem);
    }
  }

  /** On a well-formed store holding a record that does not decode, the
      sweep fails with a decoding error; every file it removed before
      failing was a record of an expired bundle. */
  lemma CleanupStopsAtUndecodable(s: BundleStore, now: u64, bad: Entry)
    requires WellFormed(s.dir)
    requires bad in s.dir && bad.name.ext == Some(CBOR_EXT) && !Decodes(bad.data)
    ensures CleanupExpired(s, now).1 == Err(DecodeError)
    ensures forall e :: e in CleanupExpired(s, now).0.dir ==> e in s.dir
    ensures forall e :: e in s.dir && e !in CleanupExpired(s, now).0.dir ==>
              e.name.ext == Some(CBOR_EXT) && Decodes(e.data) && Decode(e.data).value.IsExpired(now)
  {
    var d := s.dir;
    var ids := List(d);
    SweepFromStart(s, now);
    KeptMembers(d, Elems(ids[..DecodableRun(d, ids)]), now);
    assert bad.name == CborName(bad.name.stem);
    assert bad.name.stem in ids;
    LookupUnique(d, bad);
    var i :| 0 <= i < |ids| && ids[i] == bad.name.stem;
    assert !IdDecodes(d, ids[i]);
  }
}
