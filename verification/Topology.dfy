/** The simulated network as the routing code sees it: nodes, links, routes over links. A node is its
    index in the node container, which is also its id. Distances and equal-cost sets are defined here from
    routes alone, without reference to any search. */
module Topology {
  import opened Options

  type Node = nat

  datatype Kind = Host | Switch

  datatype Interface = Interface(idx: nat, up: bool, delay: nat, bw: nat)

  datatype Net = Net(kinds: seq<Kind>, nbr: Links)

  predicate IsNode(net: Net, v: Node) {
    v < |net.kinds|
  }

  predicate IsHost(net: Net, v: Node) {
    v < |net.kinds| && net.kinds[v].Host?
  }

  predicate IsSwitch(net: Net, v: Node) {
    v < |net.kinds| && net.kinds[v].Switch?
  }

  type Links = map<Node, map<Node, Interface>>

  /** The interface record of u towards v; a missing record reads as a link that is down. */
  function LinkAt(nbr: Links, u: Node, v: Node): Interface {
    if u in nbr && v in nbr[u] then nbr[u][v] else Interface(0, false, 0, 0)
  }

  function SetLink(nbr: Links, u: Node, v: Node, link: Interface): (r: Links)
    ensures forall x, y :: LinkAt(r, x, y) == if x == u && y == v then link else LinkAt(nbr, x, y)
  {
    nbr[u := (if u in nbr then nbr[u] else map[])[v := link]]
  }

  predicate Up(net: Net, u: Node, v: Node) {
    LinkAt(net.nbr, u, v).up
  }

  /** Up links connect nodes of the network, carry data in both directions, have a positive rate,
      and leave each node through an interface of their own. */
  ghost predicate WellFormed(net: Net) {
    && (forall u, v :: Up(net, u, v) ==> IsNode(net, u) && Up(net, v, u) && LinkAt(net.nbr, u, v).bw > 0)
    && (forall u, v, w ::
          Up(net, u, v) && Up(net, u, w) && LinkAt(net.nbr, u, v).idx == LinkAt(net.nbr, u, w).idx ==> v == w)
  }

  function Last(p: seq<Node>): Node
    requires p != []
  {
    p[|p| - 1]
  }

  /** p leads from h over up links, and every node strictly inside p is a switch. */
  ghost predicate Route(net: Net, h: Node, p: seq<Node>)
    decreases |p|
  {
    p != [] &&
    if |p| == 1 then p[0] == h
    else
      && Route(net, h, p[..|p| - 1])
      && (|p| == 2 || IsSwitch(net, p[|p| - 2]))
      && Up(net, p[|p| - 2], p[|p| - 1])
  }

  ghost predicate RouteTo(net: Net, h: Node, v: Node, p: seq<Node>) {
    Route(net, h, p) && Last(p) == v
  }

  /** Some route from h to v has d hops and none has fewer. */
  ghost predicate DistIs(net: Net, h: Node, v: Node, d: nat) {
    && (exists p :: RouteTo(net, h, v, p) && |p| == d + 1)
    && (forall p :: RouteTo(net, h, v, p) ==> d + 1 <= |p|)
  }

  /** Hop distance from h, or None where no route leads. */
  ghost function Dist(net: Net, h: Node, v: Node): Option<nat> {
    if exists d :: DistIs(net, h, v, d) then
      var d :| DistIs(net, h, v, d);
      Some(d)
    else
      None
  }

  /** The equal-cost next hops of v towards h: neighbours one hop nearer that may carry the packet on. */
  ghost predicate IsHop(net: Net, h: Node, v: Node, u: Node) {
    && Up(net, u, v)
    && (u == h || IsSwitch(net, u))
    && Dist(net, h, u).Some?
    && Dist(net, h, v) == Some(Dist(net, h, u).value + 1)
  }

  /** The list holds each element satisfying the equal-cost condition, each once, and nothing else. */
  ghost predicate HoldsExactlyHops(net: Net, h: Node, v: Node, hops: seq<Node>) {
    && (forall u :: u in hops <==> IsHop(net, h, v, u))
    && Distinct(hops)
  }

  ghost predicate Distinct<T>(s: seq<T>) {
    forall i, j :: 0 <= i < j < |s| ==> s[i] != s[j]
  }

  /** Total propagation delay along a route. */
  ghost function PathDelay(net: Net, p: seq<Node>): nat
    decreases |p|
  {
    if |p| < 2 || !Up(net, p[|p| - 2], p[|p| - 1]) then 0
    else PathDelay(net, p[..|p| - 1]) + LinkAt(net.nbr, p[|p| - 2], p[|p| - 1]).delay
  }

  /** Total time to clock `bits` onto every link of a route, each link rounded down to a nanosecond
      after the division by its rate. */
  ghost function PathTxDelay(net: Net, scaledBits: nat, p: seq<Node>): nat
    decreases |p|
  {
    if |p| < 2 || !Up(net, p[|p| - 2], p[|p| - 1]) then 0
    else PathTxDelay(net, scaledBits, p[..|p| - 1]) + TxDelay(scaledBits, LinkAt(net.nbr, p[|p| - 2], p[|p| - 1]).bw)
  }

  function TxDelay(scaledBits: nat, bw: nat): nat {
    if bw == 0 then 0 else scaledBits / bw
  }

  /** Rate of the slowest link of a route; `unlimited` for a route without links. */
  ghost function PathBw(net: Net, unlimited: nat, p: seq<Node>): nat
    decreases |p|
  {
    if |p| < 2 || !Up(net, p[|p| - 2], p[|p| - 1]) then unlimited
    else Min(PathBw(net, unlimited, p[..|p| - 1]), LinkAt(net.nbr, p[|p| - 2], p[|p| - 1]).bw)
  }

  /** No link of the route is slower than the rate, and one has exactly this rate; without links, or where
      all are faster, it is `unlimited`. */
  ghost predicate IsBottleneck(net: Net, unlimited: nat, p: seq<Node>, rate: nat) {
    && rate <= unlimited
    && (forall k :: 0 < k < |p| ==> rate <= RateInto(net, p, k))
    && (rate == unlimited || exists k :: 0 < k < |p| && rate == RateInto(net, p, k))
  }

  /** Rate of the link over which a route enters its k-th node. */
  function RateInto(net: Net, p: seq<Node>, k: nat): nat
    requires 0 < k < |p|
  {
    LinkAt(net.nbr, p[k - 1], p[k]).bw
  }

  function Min(a: nat, b: nat): nat {
    if a < b then a else b
  }

  // ----- lemmas

  lemma BottleneckStep(net: Net, unlimited: nat, p: seq<Node>, next: Node, rate: nat)
    requires p != [] && IsBottleneck(net, unlimited, p, rate)
    ensures IsBottleneck(net, unlimited, p + [next], Min(rate, LinkAt(net.nbr, Last(p), next).bw))
  {
    hide LinkAt;
    var p' := p + [next];
    forall k | 0 < k < |p'|
      ensures RateInto(net, p', k) == if k < |p| then RateInto(net, p, k) else LinkAt(net.nbr, Last(p), next).bw
    {
    }
    hide RateInto;
    assert RateInto(net, p', |p|) == LinkAt(net.nbr, Last(p), next).bw;
    if rate != unlimited {
      var k :| 0 < k < |p| && rate == RateInto(net, p, k);
      assert RateInto(net, p', k) == rate;
    }
  }

  /** The recorded rate of a route is its bottleneck. */
  lemma {:induction false} PathBwIsBottleneck(net: Net, unlimited: nat, h: Node, p: seq<Node>)
    requires Route(net, h, p)
    ensures IsBottleneck(net, unlimited, p, PathBw(net, unlimited, p))
    decreases |p|
  {
    hide IsBottleneck, Min;
    if |p| > 1 {
      var front := p[..|p| - 1];
      PathBwIsBottleneck(net, unlimited, h, front);
      assert p == front + [p[|p| - 1]] && Last(front) == p[|p| - 2];
      BottleneckStep(net, unlimited, front, p[|p| - 1], PathBw(net, unlimited, front));
    } else {
      RootBottleneck(net, unlimited, p);
    }
  }

  lemma RootBottleneck(net: Net, unlimited: nat, p: seq<Node>)
    requires |p| == 1
    ensures IsBottleneck(net, unlimited, p, unlimited)
  {
  }

  /** A distance is witnessed by a route, and no route is shorter. */
  lemma ShortestRoute(net: Net, h: Node, v: Node) returns (p: seq<Node>)
    requires Dist(net, h, v).Some?
    ensures RouteTo(net, h, v, p) && |p| == Dist(net, h, v).value + 1
    ensures forall r :: RouteTo(net, h, v, r) ==> |p| <= |r|
  {
    var d: nat :| DistIs(net, h, v, d) && Dist(net, h, v) == Some(d);
    p :| RouteTo(net, h, v, p) && |p| == d + 1;
  }

  lemma DistUnique(net: Net, h: Node, v: Node, d: nat)
    requires DistIs(net, h, v, d)
    ensures Dist(net, h, v) == Some(d)
  {
    var r := ShortestRoute(net, h, v);
    var p :| RouteTo(net, h, v, p) && |p| == d + 1;
  }

  lemma {:induction false} RouteGivesDist(net: Net, h: Node, v: Node, p: seq<Node>)
    requires RouteTo(net, h, v, p)
    ensures Dist(net, h, v).Some? && Dist(net, h, v).value + 1 <= |p|
    decreases |p|
  {
    if r :| RouteTo(net, h, v, r) && |r| < |p| {
      RouteGivesDist(net, h, v, r);
    } else {
      assert DistIs(net, h, v, |p| - 1);
      DistUnique(net, h, v, |p| - 1);
    }
  }

  lemma DistOfRoot(net: Net, h: Node)
    ensures Dist(net, h, h) == Some(0)
  {
    assert RouteTo(net, h, h, [h]);
    assert DistIs(net, h, h, 0);
    DistUnique(net, h, h, 0);
  }

  /** Only the root is at distance zero. */
  lemma DistZero(net: Net, h: Node, v: Node)
    ensures Dist(net, h, v) == Some(0) <==> v == h
  {
    DistOfRoot(net, h);
    if Dist(net, h, v) == Some(0) {
      var p := ShortestRoute(net, h, v);
    }
  }

  /** Each hop list is determined up to order by the links alone. */
  lemma HopsUniqueUpToOrder(net: Net, h: Node, v: Node, a: seq<Node>, b: seq<Node>)
    requires HoldsExactlyHops(net, h, v, a) && HoldsExactlyHops(net, h, v, b)
    ensures multiset(a) == multiset(b)
  {
    forall x ensures multiset(a)[x] == multiset(b)[x] {
      DistinctMultiplicity(a, x);
      DistinctMultiplicity(b, x);
    }
  }

  lemma {:induction false} DistinctMultiplicity<T>(s: seq<T>, x: T)
    requires Distinct(s)
    ensures multiset(s)[x] == if x in s then 1 else 0
  {
    if s != [] {
      var t := s[..|s| - 1];
      assert s == t + [s[|s| - 1]];
      DistinctMultiplicity(t, x);
    }
  }

  lemma {:induction false} DistinctBound(s: seq<nat>, n: nat)
    requires Distinct(s) && forall x :: x in s ==> x < n
    ensures |s| <= n
  {
    if s == [] { return; }
    assert s[0] in s;
    if k :| 0 <= k < |s| && s[k] == n - 1 {
      var t := s[..k] + s[k + 1..];
      forall x | x in t ensures x < n - 1 {
        assert x in s;
        var j :| 0 <= j < |t| && t[j] == x;
        assert t[j] == s[if j < k then j else j + 1];
      }
      assert Distinct(t) by {
        forall i, j | 0 <= i < j < |t| ensures t[i] != t[j] {
          assert t[i] == s[if i < k then i else i + 1];
          assert t[j] == s[if j < k then j else j + 1];
        }
      }
      DistinctBound(t, n - 1);
    } else {
      DistinctBound(s, n - 1);
    }
  }
}
