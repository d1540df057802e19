/** The cost-based routing table and the routing configuration
    (src/routing/algorithm.rs). The table maps each destination to the
    entries added for it, in insertion order; queries see active entries
    only. */
module Routing {
  import opened Wrappers
  import opened Numeric
  import opened Endpoint

  datatype RouteEntry = RouteEntry(
    destination: EndpointId,
    nextHop: EndpointId,
    claType: string,
    cost: u32,
    isActive: bool)

  datatype RoutingTable = RoutingTable(routes: map<EndpointId, seq<RouteEntry>>)
  {
    /** Every entry sits in the list of its own destination. */
    ghost predicate Valid() {
      forall d, i :: d in routes && 0 <= i < |routes[d]| ==> routes[d][i].destination == d
    }

    /** The entries ever added for `d`, active or not, oldest first. */
    function Bucket(d: EndpointId): seq<RouteEntry> {
      if d in routes then routes[d] else []
    }
  }

  /** `RoutingTable::new()` and `Default`. */
  function NewTable(): (t: RoutingTable)
    ensures t.Valid()
    ensures forall d :: t.Bucket(d) == []
  {
    RoutingTable(map[])
  }

  /** `add_route`: appends the entry to its destination's list. */
  function AddRoute(t: RoutingTable, e: RouteEntry): (t': RoutingTable)
    requires t.Valid()
    ensures t'.Valid()
    ensures t'.Bucket(e.destination) == t.Bucket(e.destination) + [e]
    ensures forall d :: d != e.destination ==> t'.Bucket(d) == t.Bucket(d)
  {
    RoutingTable(t.routes[e.destination := t.Bucket(e.destination) + [e]])
  }

  /** The active entries of `s`, in their original order. */
  function ActiveOnly(s: seq<RouteEntry>): seq<RouteEntry>
    decreases |s|
  {
    if |s| == 0 then []
    else (if s[0].isActive then [s[0]] else []) + ActiveOnly(s[1..])
  }

  /** The filtered list holds active entries of the original only. */
  lemma {:induction false} ActiveOnlyMembers(s: seq<RouteEntry>)
    ensures |ActiveOnly(s)| <= |s|
    ensures forall i :: 0 <= i < |ActiveOnly(s)| ==> ActiveOnly(s)[i].isActive && ActiveOnly(s)[i] in s
    decreases |s|
  {
    if |s| > 0 {
      ActiveOnlyMembers(s[1..]);
      var head := if s[0].isActive then [s[0]] else [];
      var r := ActiveOnly(s);
      assert r == head + ActiveOnly(s[1..]);
      forall i | 0 <= i < |r| ensures r[i].isActive && r[i] in s {
        if i >= |head| {
          assert r[i] == ActiveOnly(s[1..])[i - |head|];
          assert r[i] in s[1..];
        }
      }
    }
  }

  lemma {:induction false} ActiveOnlyAppend(s: seq<RouteEntry>, t: seq<RouteEntry>)
    ensures ActiveOnly(s + t) == ActiveOnly(s) + ActiveOnly(t)
    decreases |s|
  {
    if |s| == 0 {
      assert s + t == t;
    } else {
      var head := if s[0].isActive then [s[0]] else [];
      assert (s + t)[0] == s[0] && (s + t)[1..] == s[1..] + t;
      assert ActiveOnly(s + t) == head + ActiveOnly(s[1..] + t);
      ActiveOnlyAppend(s[1..], t);
      assert head + (ActiveOnly(s[1..]) + ActiveOnly(t)) == (head + ActiveOnly(s[1..])) + ActiveOnly(t);
    }
  }

  /** An entry occurs in the filtered list as often as in the original when
      active, and not at all when inactive. */
  lemma {:induction false} ActiveOnlyCount(s: seq<RouteEntry>, e: RouteEntry)
    ensures multiset(ActiveOnly(s))[e] == if e.isActive then multiset(s)[e] else 0
    decreases |s|
  {
    if |s| > 0 {
      ActiveOnlyCount(s[1..], e);
      assert s == [s[0]] + s[1..];
    }
  }

  /** `get_routes_for_destination`. */
  function GetRoutesForDestination(t: RoutingTable, d: EndpointId): (r: seq<RouteEntry>)
    requires t.Valid()
    ensures forall i :: 0 <= i < |r| ==> r[i].isActive && r[i].destination == d
  {
    ActiveOnlyMembers(t.Bucket(d));
    ActiveOnly(t.Bucket(d))
  }

  /** Adding a route makes it visible (when active) after the routes already
      there for its destination; no other query changes. */
  lemma AddRouteThenQuery(t: RoutingTable, e: RouteEntry, d: EndpointId)
    requires t.Valid()
    ensures d == e.destination ==>
              GetRoutesForDestination(AddRoute(t, e), d) == GetRoutesForDestination(t, d) + (if e.isActive then [e] else [])
    ensures d != e.destination ==> GetRoutesForDestination(AddRoute(t, e), d) == GetRoutesForDestination(t, d)
  {
    ActiveOnlyAppend(t.Bucket(e.destination), [e]);
    assert ActiveOnly([e]) == (if e.isActive then [e] else []) + ActiveOnly([]);
  }

  /** `get_all_routes`: the active entries of every destination. The source
      walks a `HashMap`, whose order is unspecified; the next destination to
      visit is therefore chosen arbitrarily here, and the result is
      characterised as a multiset. */
  method GetAllRoutes(t: RoutingTable) returns (r: seq<RouteEntry>)
    requires t.Valid()
    ensures forall e :: multiset(r)[e] == if e.isActive then multiset(t.Bucket(e.destination))[e] else 0
  {
    r := [];
    var todo := t.routes.Keys;
    while todo != {}
      invariant todo <= t.routes.Keys
      invariant forall e :: (multiset(r)[e]
                             == if e.isActive && e.destination !in todo then multiset(t.Bucket(e.destination))[e] else 0)
      decreases todo
    {
      var d :| d in todo;
      forall e
        ensures multiset(r + ActiveOnly(t.routes[d]))[e]
          == if e.isActive && e.destination !in todo - {d} then multiset(t.Bucket(e.destination))[e] else 0
      {
        ActiveOnlyCount(t.routes[d], e);
        if e.destination != d {
          assert e !in t.routes[d];
        }
      }
      r := r + ActiveOnly(t.routes[d]);
      todo := todo - {d};
    }
  }

  /** `s[i]` costs no more than any entry and strictly less than every
      entry before it. */
  predicate IsFirstMinimum(s: seq<RouteEntry>, i: int) {
    && 0 <= i < |s|
    && (forall j :: 0 <= j < |s| ==> s[i].cost <= s[j].cost)
    && (forall j :: 0 <= j < i ==> s[j].cost > s[i].cost)
  }

  /** Index of the first entry of least cost, which is the element
      `Iterator::min_by_key` returns. */
  function FirstMinIndex(s: seq<RouteEntry>): (i: nat)
    requires |s| > 0
    ensures IsFirstMinimum(s, i)
    decreases |s|
  {
    if |s| == 1 then 0
    else
      var k := FirstMinIndex(s[1..]) + 1;
      if s[k].cost < s[0].cost then k else 0
  }

  /** `find_best_route`. */
  function FindBestRoute(t: RoutingTable, d: EndpointId): (r: Option<RouteEntry>)
    requires t.Valid()
    ensures r.None? <==> GetRoutesForDestination(t, d) == []
    ensures r.Some? ==> r.value.isActive && r.value.destination == d
    ensures r.Some? ==> exists i :: IsFirstMinimum(GetRoutesForDestination(t, d), i)
                                   && GetRoutesForDestination(t, d)[i] == r.value
  {
    var routes := GetRoutesForDestination(t, d);
    if |routes| == 0 then None else Some(routes[FirstMinIndex(routes)])
  }

  /** Among active routes of cost 100, 5 and 50 the cost-5 route is chosen. */
  lemma BestOfThree(a: RouteEntry, b: RouteEntry, c: RouteEntry)
    requires a.destination == b.destination == c.destination
    requires a.isActive && b.isActive && c.isActive
    requires a.cost == 100 && b.cost == 5 && c.cost == 50
    ensures FindBestRoute(AddRoute(AddRoute(AddRoute(NewTable(), a), b), c), a.destination) == Some(b)
  {
    var t := AddRoute(AddRoute(AddRoute(NewTable(), a), b), c);
    assert t.Bucket(a.destination) == [a, b, c];
    assert [a, b, c][1..] == [b, c] && [b, c][1..] == [c] && [c][1..] == [];
    assert ActiveOnly([c]) == [c];
    assert ActiveOnly([b, c]) == [b, c];
    assert ActiveOnly([a, b, c]) == [a, b, c];
    assert FirstMinIndex([a, b, c]) == 1;
  }

  datatype RoutingAlgorithmType = Epidemic | Prophet

  datatype RoutingConfig = RoutingConfig(algorithmType: RoutingAlgorithmType)

  /** The routing algorithms that exist: epidemic flooding is the only
      implementation. */
  datatype RoutingAlgorithm = EpidemicRouting

  /** `RoutingConfig::create_algorithm`: both algorithm types yield epidemic
      routing; choosing Prophet prints a fallback warning, reported here as
      `warned`. */
  function CreateAlgorithm(c: RoutingConfig): (r: (RoutingAlgorithm, bool))
    ensures r.0 == EpidemicRouting
    ensures r.1 <==> c.algorithmType == Prophet
  {
    match c.algorithmType
    case Epidemic => (EpidemicRouting, false)
    case Prophet => (EpidemicRouting, true)
  }
}
