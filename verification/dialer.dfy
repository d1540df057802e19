// The TCP convergence-layer client's `activate`: connect to the target,
// then walk the stored bundles, send each one over the same connection and
// move every bundle the peer acknowledged into the dispatched directory.

module Dialer {
  import opened Wrappers
  import opened Numeric
  import opened Bpv7
  import opened Codec
  import opened FileStore
  import opened Framing

  datatype DialError = ConnectFailed | StoreFailed(error: StoreError)

  /** The store after the run, the bytes written to the connection, in
      order, and the result. */
  datatype Activation = Activation(store: BundleStore, written: Bytes, result: Result<(), DialError>)

  /** The bundle held by the record `{id}.cbor`, if it exists and decodes. */
  function StoredBundle(d: Dir, id: string): (r: Option<Bundle>)
    ensures r.Some? <==> IdDecodes(d, id)
  {
    match Lookup(d, CborName(id))
    case None => None
    case Some(data) => Decode(data)
  }

  /** The bundles of the records named by `ids`, in order, skipping the
      ones that are missing or do not decode. */
  function StoredBundles(d: Dir, ids: seq<string>): (bs: seq<Bundle>)
    ensures |bs| <= |ids|
    ensures (forall i :: 0 <= i < |ids| ==> IdDecodes(d, ids[i])) ==> |bs| == |ids|
  {
    if |ids| == 0 then []
    else
      match StoredBundle(d, ids[0])
      case Some(b) => [b] + StoredBundles(d, ids[1..])
      case None => StoredBundles(d, ids[1..])
  }

  /** The record `{id}.cbor` decodes and the peer's answer to sending it
      counts as success. `reply` says what the connection and the peer do
      when the bundle listed under `id` is sent. */
  predicate Acked(d: Dir, reply: string -> SendOutcome, id: string) {
    StoredBundle(d, id).Some? && SendBundle(StoredBundle(d, id).value, reply(id)).1.Ok?
  }

  /** The loop of `activate` from the point where `ids` remain: each id is
      looked up by prefix (an error ends the run), its bundle is sent, and
      on success moved to the dispatched directory (an error ends the run);
      a failed send is reported and the loop goes on. */
  function DispatchFrom(s: BundleStore, ids: seq<string>, reply: string -> SendOutcome): (a: Activation)
    ensures |a.written| >= |ids| * LENGTH_PREFIX || a.result.Err?
    decreases |ids|
  {
    if |ids| == 0 then Activation(s, [], Ok(()))
    else
      match LoadByPartialId(s, ids[0])
      case Err(e) => Activation(s, [], Err(StoreFailed(e)))
      case Ok(b) =>
        var (frame, sent) := SendBundle(b, reply(ids[0]));
        assert |frame| >= LENGTH_PREFIX;
        if sent.Ok? then
          var (s1, moved) := DispatchOne(s, b);
          if moved.Err? then Activation(s1, frame, Err(StoreFailed(moved.error)))
          else
            var rest := DispatchFrom(s1, ids[1..], reply);
            rest.(written := frame + rest.written)
        else
          var rest := DispatchFrom(s, ids[1..], reply);
          rest.(written := frame + rest.written)
  }

  /** `TcpClaClient::activate`. `connects` says whether a connection to an
      address can be opened; `s` is the store as found on disk. */
  function Activate(targetAddr: string, connects: string -> bool, s: BundleStore,
                    reply: string -> SendOutcome): (a: Activation)
    ensures !connects(targetAddr) ==> a == Activation(s, [], Err(ConnectFailed))
    ensures connects(targetAddr) && |List(s.dir)| == 0 ==> a == Activation(s, [], Ok(()))
  {
    if !connects(targetAddr) then Activation(s, [], Err(ConnectFailed))
    else DispatchFrom(s, List(s.dir), reply)
  }

  // ---------------------------------------------------------------------
  // What a run does to a consistent store

  /** The file `n` is a record visited so far whose bundle was acknowledged. */
  predicate Moved(d0: Dir, visited: set<string>, reply: string -> SendOutcome, n: FileName) {
    n.ext == Some(CBOR_EXT) && n.stem in visited && Acked(d0, reply, n.stem)
  }

  /** After visiting `visited`, starting from records `d0` and dispatched
      directory `disp0`: exactly the acknowledged records have left the
      store, each now in the dispatched directory with its contents, and
      every other dispatched file is as it was. */
  ghost predicate MovedSoFar(d0: Dir, disp0: Option<Dir>, s: BundleStore, visited: set<string>,
                       reply: string -> SendOutcome) {
    && (forall n :: Lookup(s.dir, n) == if Moved(d0, visited, reply, n) then None else Lookup(d0, n))
    && (forall n :: Moved(d0, visited, reply, n) ==>
          s.dispatched.Some? && Lookup(s.dispatched.value, n) == Lookup(d0, n))
    && (forall n :: !Moved(d0, visited, reply, n) && disp0.Some? ==>
          s.dispatched.Some? && Lookup(s.dispatched.value, n) == Lookup(disp0.value, n))
  }

  /** An unvisited listed id is found by prefix as itself, and its record
      loads as the original bundle, whose file name is the record's. */
  lemma VisitLoads(s: BundleStore, d0: Dir, disp0: Option<Dir>, visited: set<string>,
                   reply: string -> SendOutcome, id: string)
    requires Consistent(d0) && Consistent(s.dir)
    requires MovedSoFar(d0, disp0, s, visited, reply)
    requires id in List(d0) && id !in visited
    ensures StoredBundle(d0, id).Some?
    ensures LoadByPartialId(s, id) == Ok(StoredBundle(d0, id).value)
    ensures FileNameFor(StoredBundle(d0, id).value) == CborName(id)
    ensures Lookup(s.dir, CborName(id)).Some?
  {
    assert !Moved(d0, visited, reply, CborName(id));
    assert Lookup(s.dir, CborName(id)) == Lookup(d0, CborName(id));
    var data := Lookup(d0, CborName(id)).value;
    assert Entry(CborName(id), data) in d0;
    WellFormedPrefixFree(s.dir);
    FindOwnId(s, id);
  }

  /** Sending an acknowledged bundle moves its record and keeps the
      invariant with the id added to the visited ones. */
  lemma VisitAcked(s: BundleStore, d0: Dir, disp0: Option<Dir>, visited: set<string>,
                   reply: string -> SendOutcome, id: string)
    requires Consistent(d0) && Consistent(s.dir)
    requires MovedSoFar(d0, disp0, s, visited, reply)
    requires id in List(d0) && id !in visited
    requires Acked(d0, reply, id)
    ensures DispatchOne(s, StoredBundle(d0, id).value).1.Ok?
    ensures MovedSoFar(d0, disp0, DispatchOne(s, StoredBundle(d0, id).value).0, visited + {id}, reply)
    ensures Consistent(DispatchOne(s, StoredBundle(d0, id).value).0.dir)
  {
    VisitLoads(s, d0, disp0, visited, reply, id);
    var b := StoredBundle(d0, id).value;
    ConsistencyIsKept(s, b, None, None);
    var s1 := DispatchOne(s, b).0;
    MovedGrows(d0, visited, reply, id);
    assert Lookup(s.dir, CborName(id)) == Lookup(d0, CborName(id));
    AckedLeavesStore(s, s1, d0, visited, reply, id);
    AckedReachesDispatched(s, s1, d0, disp0, visited, reply, id);
  }

  /** Visiting an acknowledged id adds exactly its record to the moved ones. */
  lemma MovedGrows(d0: Dir, visited: set<string>, reply: string -> SendOutcome, id: string)
    requires Acked(d0, reply, id)
    ensures forall n :: Moved(d0, visited + {id}, reply, n) == (Moved(d0, visited, reply, n) || n == CborName(id))
  {
  }

  /** The store after moving the record of `id` out, given what moving does
      to the directory. */
  lemma AckedLeavesStore(s: BundleStore, s1: BundleStore, d0: Dir, visited: set<string>,
                         reply: string -> SendOutcome, id: string)
    requires forall n :: Lookup(s.dir, n) == if Moved(d0, visited, reply, n) then None else Lookup(d0, n)
    requires Lookup(s1.dir, CborName(id)).None?
    requires forall m :: m != CborName(id) ==> Lookup(s1.dir, m) == Lookup(s.dir, m)
    requires forall n :: Moved(d0, visited + {id}, reply, n) == (Moved(d0, visited, reply, n) || n == CborName(id))
    ensures forall n :: Lookup(s1.dir, n) == if Moved(d0, visited + {id}, reply, n) then None else Lookup(d0, n)
  {
  }

  /** The dispatched directory after moving the record of `id` there, given
      what moving does to it. */
  lemma AckedReachesDispatched(s: BundleStore, s1: BundleStore, d0: Dir, disp0: Option<Dir>, visited: set<string>,
                               reply: string -> SendOutcome, id: string)
    requires forall n :: Moved(d0, visited, reply, n) ==>
               s.dispatched.Some? && Lookup(s.dispatched.value, n) == Lookup(d0, n)
    requires forall n :: !Moved(d0, visited, reply, n) && disp0.Some? ==>
               s.dispatched.Some? && Lookup(s.dispatched.value, n) == Lookup(disp0.value, n)
    requires s1.dispatched.Some? && Lookup(s1.dispatched.value, CborName(id)) == Lookup(d0, CborName(id))
    requires forall m :: m != CborName(id) && s.dispatched.Some? ==>
               Lookup(s1.dispatched.value, m) == Lookup(s.dispatched.value, m)
    requires !Moved(d0, visited, reply, CborName(id))
    requires forall n :: Moved(d0, visited + {id}, reply, n) == (Moved(d0, visited, reply, n) || n == CborName(id))
    ensures forall n :: Moved(d0, visited + {id}, reply, n) ==>
              s1.dispatched.Some? && Lookup(s1.dispatched.value, n) == Lookup(d0, n)
    ensures forall n :: !Moved(d0, visited + {id}, reply, n) && disp0.Some? ==>
              s1.dispatched.Some? && Lookup(s1.dispatched.value, n) == Lookup(disp0.value, n)
  {
  }

  /** A send that fails leaves the store as it was, and the invariant holds
      with the id added to the visited ones. */
  lemma VisitUnacked(s: BundleStore, d0: Dir, disp0: Option<Dir>, visited: set<string>,
                     reply: string -> SendOutcome, id: string)
    requires MovedSoFar(d0, disp0, s, visited, reply)
    requires !Acked(d0, reply, id)
    ensures MovedSoFar(d0, disp0, s, visited + {id}, reply)
  {
    forall n ensures Moved(d0, visited + {id}, reply, n) == Moved(d0, visited, reply, n) {
    }
  }

  function Distinct(ids: seq<string>): bool {
    forall i, j :: 0 <= i < j < |ids| ==> ids[i] != ids[j]
  }

  /** One turn of the loop on an id whose bundle loads: the frame is
      written and the loop goes on from the store after the turn. */
  lemma DispatchFromStep(s: BundleStore, ids: seq<string>, reply: string -> SendOutcome, b: Bundle)
    requires |ids| > 0 && LoadByPartialId(s, ids[0]) == Ok(b)
    requires SendBundle(b, reply(ids[0])).1.Ok? ==> DispatchOne(s, b).1.Ok?
    ensures var s1 := if SendBundle(b, reply(ids[0])).1.Ok? then DispatchOne(s, b).0 else s;
            DispatchFrom(s, ids, reply) ==
            DispatchFrom(s1, ids[1..], reply).(written := Frame(b) + DispatchFrom(s1, ids[1..], reply).written)
  {
  }

  /** The ids after the first are still distinct, listed and unvisited once
      the first is visited. */
  lemma RestStillFresh(d0: Dir, visited: set<string>, ids: seq<string>)
    requires |ids| > 0 && Distinct(ids)
    requires forall i :: 0 <= i < |ids| ==> ids[i] in List(d0) && ids[i] !in visited
    ensures Distinct(ids[1..])
    ensures forall i :: 0 <= i < |ids[1..]| ==> ids[1..][i] in List(d0) && ids[1..][i] !in visited + {ids[0]}
    ensures visited + Elems(ids) == visited + {ids[0]} + Elems(ids[1..])
  {
    var rest := ids[1..];
    forall i | 0 <= i < |rest| ensures rest[i] in List(d0) && rest[i] !in visited + {ids[0]} {
      assert rest[i] == ids[i + 1];
    }
    forall i, j | 0 <= i < j < |rest| ensures rest[i] != rest[j] {
      assert rest[i] == ids[i + 1] && rest[j] == ids[j + 1];
    }
    assert ids == [ids[0]] + rest;
  }

  /** One visit: the bundle of the first id loads, its frame is written,
      and the store after the turn keeps the invariant with the id
      visited. */
  lemma SweepTurn(s: BundleStore, d0: Dir, disp0: Option<Dir>, visited: set<string>,
                  ids: seq<string>, reply: string -> SendOutcome) returns (s1: BundleStore)
    requires Consistent(d0) && Consistent(s.dir)
    requires MovedSoFar(d0, disp0, s, visited, reply)
    requires |ids| > 0 && ids[0] in List(d0) && ids[0] !in visited
    ensures Consistent(s1.dir) && MovedSoFar(d0, disp0, s1, visited + {ids[0]}, reply)
    ensures StoredBundle(d0, ids[0]).Some?
    ensures DispatchFrom(s, ids, reply) ==
            DispatchFrom(s1, ids[1..], reply).(written := Frame(StoredBundle(d0, ids[0]).value)
                                                          + DispatchFrom(s1, ids[1..], reply).written)
  {
    var id := ids[0];
    VisitLoads(s, d0, disp0, visited, reply, id);
    var b := StoredBundle(d0, id).value;
    if Acked(d0, reply, id) {
      VisitAcked(s, d0, disp0, visited, reply, id);
      s1 := DispatchOne(s, b).0;
    } else {
      VisitUnacked(s, d0, disp0, visited, reply, id);
      s1 := s;
    }
    DispatchFromStep(s, ids, reply, b);
  }

  /** The loop over `ids` completed without error, wrote the frames of
      their stored bundles in order, and kept the invariant with all of
      them visited. */
  ghost predicate SweptAll(s: BundleStore, d0: Dir, disp0: Option<Dir>, visited: set<string>,
                           ids: seq<string>, reply: string -> SendOutcome) {
    var a := DispatchFrom(s, ids, reply);
    && a.result.Ok?
    && a.written == Frames(StoredBundles(d0, ids))
    && MovedSoFar(d0, disp0, a.store, visited + Elems(ids), reply)
  }

  /** One turn composes with the loop over the remaining ids. */
  lemma DispatchCompose(s: BundleStore, s1: BundleStore, d0: Dir, disp0: Option<Dir>, visited: set<string>,
                        ids: seq<string>, reply: string -> SendOutcome)
    requires |ids| > 0 && StoredBundle(d0, ids[0]).Some?
    requires DispatchFrom(s, ids, reply) ==
             DispatchFrom(s1, ids[1..], reply).(written := Frame(StoredBundle(d0, ids[0]).value)
                                                           + DispatchFrom(s1, ids[1..], reply).written)
    requires visited + Elems(ids) == visited + {ids[0]} + Elems(ids[1..])
    requires SweptAll(s1, d0, disp0, visited + {ids[0]}, ids[1..], reply)
    ensures SweptAll(s, d0, disp0, visited, ids, reply)
  {
    var bs := StoredBundles(d0, ids);
    assert bs == [StoredBundle(d0, ids[0]).value] + StoredBundles(d0, ids[1..]);
    assert bs[1..] == StoredBundles(d0, ids[1..]);
  }

  /** The loop over listed, distinct, unvisited ids of a consistent store
      completes without error, writes the frames of their bundles in order,
      and keeps the invariant with all of them visited. */
  lemma {:induction false} DispatchSweep(s: BundleStore, d0: Dir, disp0: Option<Dir>,
                                         visited: set<string>, ids: seq<string>,
                                         reply: string -> SendOutcome)
    requires Consistent(d0) && Consistent(s.dir)
    requires MovedSoFar(d0, disp0, s, visited, reply)
    requires Distinct(ids)
    requires forall i :: 0 <= i < |ids| ==> ids[i] in List(d0) && ids[i] !in visited
    ensures SweptAll(s, d0, disp0, visited, ids, reply)
    decreases |ids|
  {
    if |ids| == 0 {
      assert visited + Elems(ids) == visited;
    } else {
      var s1 := SweepTurn(s, d0, disp0, visited, ids, reply);
      RestStillFresh(d0, visited, ids);
      DispatchSweep(s1, d0, disp0, visited + {ids[0]}, ids[1..], reply);
      DispatchCompose(s, s1, d0, disp0, visited, ids, reply);
    }
  }

  /** `activate` on a consistent store, once connected: the run completes;
      the stored bundles are written to the connection as frames, in
      listing order; exactly the records whose send succeeded leave the
      store and appear in the dispatched directory with the same contents;
      every other file, in either directory, is unchanged. */
  lemma ActivateMovesAcknowledged(targetAddr: string, connects: string -> bool, s: BundleStore,
                                  reply: string -> SendOutcome)
    requires Consistent(s.dir) && connects(targetAddr)
    ensures Activate(targetAddr, connects, s, reply).result.Ok?
    ensures Activate(targetAddr, connects, s, reply).written == Frames(StoredBundles(s.dir, List(s.dir)))
    ensures forall n :: Lookup(Activate(targetAddr, connects, s, reply).store.dir, n) ==
              if n.ext == Some(CBOR_EXT) && Acked(s.dir, reply, n.stem) then None else Lookup(s.dir, n)
    ensures forall n: FileName :: n.ext == Some(CBOR_EXT) && Acked(s.dir, reply, n.stem) ==>
              && Activate(targetAddr, connects, s, reply).store.dispatched.Some?
              && Lookup(Activate(targetAddr, connects, s, reply).store.dispatched.value, n) == Lookup(s.dir, n)
    ensures forall n: FileName :: !(n.ext == Some(CBOR_EXT) && Acked(s.dir, reply, n.stem)) && s.dispatched.Some? ==>
              && Activate(targetAddr, connects, s, reply).store.dispatched.Some?
              && Lookup(Activate(targetAddr, connects, s, reply).store.dispatched.value, n) ==
                 Lookup(s.dispatched.value, n)
  {
    var ids := List(s.dir);
    ListDistinct(s.dir);
    DispatchSweep(s, s.dir, s.dispatched, {}, ids, reply);
    var v := {} + Elems(ids);
    forall n ensures Moved(s.dir, v, reply, n) <==> n.ext == Some(CBOR_EXT) && Acked(s.dir, reply, n.stem) {
    }
  }

  /** What the peer's side of the connection makes of a run: every stored
      bundle arrives, in listing order, and is acknowledged with "OK". */
  lemma ActivateDeliversStore(targetAddr: string, connects: string -> bool, s: BundleStore,
                              reply: string -> SendOutcome)
    requires Consistent(s.dir) && connects(targetAddr)
    requires forall e :: e in s.dir && Decodes(e.data) ==> |Encode(Decode(e.data).value)| < TWO_TO_THE_32
    ensures HandleConnection(Activate(targetAddr, connects, s, reply).written).delivered ==
              StoredBundles(s.dir, List(s.dir))
    ensures |StoredBundles(s.dir, List(s.dir))| == |List(s.dir)|
  {
    ActivateMovesAcknowledged(targetAddr, connects, s, reply);
    var bs := StoredBundles(s.dir, List(s.dir));
    StoredBundlesFrom(s.dir, List(s.dir));
    HandleFrames(bs);
  }

  /** A consistent directory yields one bundle per listed id, each
      re-encoding within the frame limit when every record does. */
  lemma {:induction false} StoredBundlesFrom(d: Dir, ids: seq<string>)
    requires Consistent(d)
    requires forall e :: e in d && Decodes(e.data) ==> |Encode(Decode(e.data).value)| < TWO_TO_THE_32
    requires forall i :: 0 <= i < |ids| ==> ids[i] in List(d)
    ensures forall i :: 0 <= i < |StoredBundles(d, ids)| ==> |Encode(StoredBundles(d, ids)[i])| < TWO_TO_THE_32
    ensures |StoredBundles(d, ids)| == |ids|
  {
    if |ids| > 0 {
      var data := Lookup(d, CborName(ids[0])).value;
      assert Entry(CborName(ids[0]), data) in d;
      StoredBundlesFrom(d, ids[1..]);
    }
  }

  /** A first listed record that does not decode ends the run with the
      decoding error before anything is written or moved. */
  lemma UndecodableRecordAborts(targetAddr: string, connects: string -> bool, s: BundleStore,
                                reply: string -> SendOutcome)
    requires WellFormed(s.dir) && connects(targetAddr)
    requires |List(s.dir)| > 0 && !IdDecodes(s.dir, List(s.dir)[0])
    ensures Activate(targetAddr, connects, s, reply) == Activation(s, [], Err(StoreFailed(DecodeError)))
  {
    WellFormedPrefixFree(s.dir);
    FindOwnId(s, List(s.dir)[0]);
  }
}
