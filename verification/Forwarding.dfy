/** What the installed tables do to packets: forwarding is complete, loop-free and shortest, and
    taking a link down repairs it. */
module Forwarding {
  import opened Options
  import opened Topology
  import opened Search
  import opened Addressing
  import opened Routing

  /** Some entry of v for the address of h names the interface whose link, now up, leads to u. */
  ghost predicate Forwards(net: Net, t: Table, h: Node, v: Node, u: Node) {
    Up(net, v, u) && LinkAt(net.nbr, v, u).idx in Entries(t, v, NodeIdToIp(h))
  }

  /** w is a walk of a packet for h: each step follows an arbitrary entry. */
  ghost predicate Walk(net: Net, t: Table, h: Node, w: seq<Node>) {
    w != [] && forall k :: 0 < k < |w| ==> Forwards(net, t, h, w[k - 1], w[k])
  }

  /** Every entry is the interface of an up link to an equal-cost next hop, and every equal-cost
      next hop is reached through an entry. */
  lemma ForwardsIffHop(net: Net, m: HopMap, t: Table, h: Node, v: Node, u: Node)
    requires WellFormed(net) && Routed(net, m) && Installed(net, m, t) && IsHost(net, h)
    ensures Forwards(net, t, h, v, u) <==> IsHop(net, h, v, u)
  {
    hide NodeIdToIp, Dist;
    var hops := Hops(m, v, h);
    var idxs := Interfaces(net, v, hops);
    assert HoldsExactlyHops(net, h, v, hops) && Entries(t, v, NodeIdToIp(h)) == idxs;
    if Forwards(net, t, h, v, u) {
      var k :| 0 <= k < |idxs| && idxs[k] == LinkAt(net.nbr, v, u).idx;
      assert hops[k] in hops && Up(net, hops[k], v);
    }
    if IsHop(net, h, v, u) {
      assert u in hops && Up(net, u, v);
      var k :| 0 <= k < |hops| && hops[k] == u;
      assert idxs[k] in idxs;
    }
  }

  /** Every entry leads somewhere: no entry names an interface without an up link. */
  lemma EntriesAreLive(net: Net, m: HopMap, t: Table, h: Node, v: Node, idx: nat) returns (u: Node)
    requires WellFormed(net) && Routed(net, m) && Installed(net, m, t) && IsHost(net, h)
    requires idx in Entries(t, v, NodeIdToIp(h))
    ensures Up(net, v, u) && LinkAt(net.nbr, v, u).idx == idx && IsHop(net, h, v, u)
  {
    hide NodeIdToIp, Dist;
    var hops := Hops(m, v, h);
    assert HoldsExactlyHops(net, h, v, hops);
    var k :| 0 <= k < |hops| && Interfaces(net, v, hops)[k] == idx;
    u := hops[k];
    assert u in hops && Up(net, u, v);
  }

  /** The last step of a shortest route is an equal-cost hop, and the rest is a shortest route again. */
  lemma ShortestRouteEndsWithHop(net: Net, h: Node, v: Node, p: seq<Node>)
    requires Shortest(net, h, v, p) && |p| > 1
    ensures Shortest(net, h, p[|p| - 2], p[..|p| - 1]) && IsHop(net, h, v, p[|p| - 2])
  {
    hide Dist;
    var p' := p[..|p| - 1];
    var u := p[|p| - 2];
    assert RouteTo(net, h, u, p') && Up(net, u, v);
    RouteGivesDist(net, h, u, p');
    var r := ShortestRoute(net, h, u);
    if |r| < |p'| {
      var longer := r + [v];
      assert longer[..|longer| - 1] == r && longer[|longer| - 2] == u;
      assert RouteTo(net, h, v, longer);
      RouteGivesDist(net, h, v, longer);
      assert false;
    }
    if |p| == 2 { assert u == h; }
  }

  /** Forwarding is complete: every node but the destination that can reach it has a next hop. */
  lemma HopExists(net: Net, h: Node, v: Node) returns (u: Node)
    requires Dist(net, h, v).Some? && v != h
    ensures IsHop(net, h, v, u)
  {
    hide Dist;
    var p := ShortestRoute(net, h, v);
    assert Route(net, h, p) && Last(p) != h;
    ShortestRouteEndsWithHop(net, h, v, p);
    u := p[|p| - 2];
  }

  /** Whatever entries a packet follows, it comes one hop nearer with each step, stays on switches,
      never meets a node twice, is never stuck, and arrives after exactly the hop distance. */
  lemma {:induction false} PacketsArrive(net: Net, m: HopMap, t: Table, h: Node, w: seq<Node>)
    requires WellFormed(net) && Routed(net, m) && Installed(net, m, t) && IsHost(net, h)
    requires Walk(net, t, h, w) && Dist(net, h, w[0]).Some?
    ensures var d := Dist(net, h, w[0]).value;
            && |w| - 1 <= d
            && (forall k :: 0 <= k < |w| ==> Dist(net, h, w[k]) == Some(d - k))
            && (forall k :: 0 < k < |w| - 1 ==> IsSwitch(net, w[k]))
            && (Last(w) == h <==> |w| - 1 == d)
    ensures Distinct(w)
    ensures Last(w) != h ==> exists u :: Forwards(net, t, h, Last(w), u)
    decreases |w|
  {
    hide Dist, Forwards;
    var d := Dist(net, h, w[0]).value;
    if |w| > 1 {
      var w' := w[..|w| - 1];
      assert Walk(net, t, h, w');
      PacketsArrive(net, m, t, h, w');
      assert forall k :: 0 <= k < |w'| ==> w'[k] == w[k];
      ForwardsIffHop(net, m, t, h, w[|w| - 2], w[|w| - 1]);
      assert Dist(net, h, w[|w| - 2]) == Some(d - (|w| - 2));
      if |w| > 2 {
        ForwardsIffHop(net, m, t, h, w[|w| - 3], w[|w| - 2]);
        DistZero(net, h, w[|w| - 2]);
      }
    }
    DistZero(net, h, Last(w));
    if Last(w) != h {
      var u := HopExists(net, h, Last(w));
      ForwardsIffHop(net, m, t, h, Last(w), u);
    }
  }

  /** A node holds an entry for a host exactly when it is another node that can reach it. */
  lemma EntryIffReachable(net: Net, m: HopMap, t: Table, h: Node, v: Node)
    requires WellFormed(net) && Routed(net, m) && Installed(net, m, t) && IsHost(net, h)
    ensures Entries(t, v, NodeIdToIp(h)) != [] <==> v != h && Dist(net, h, v).Some?
  {
    hide Dist, NodeIdToIp;
    if Entries(t, v, NodeIdToIp(h)) != [] {
      var u := EntriesAreLive(net, m, t, h, v, Entries(t, v, NodeIdToIp(h))[0]);
      DistZero(net, h, v);
    }
    if v != h && Dist(net, h, v).Some? {
      var u := HopExists(net, h, v);
      ForwardsIffHop(net, m, t, h, v, u);
    }
  }

  lemma {:induction false} RouteInLargerNetwork(small: Net, large: Net, h: Node, p: seq<Node>)
    requires small.kinds == large.kinds && forall u, v :: Up(small, u, v) ==> Up(large, u, v)
    requires Route(small, h, p)
    ensures Route(large, h, p)
    decreases |p|
  {
    if |p| > 1 {
      RouteInLargerNetwork(small, large, h, p[..|p| - 1]);
    }
  }

  /** Taking a link down never brings a node nearer to a host. */
  lemma TakeDownNeverShortens(net: Net, a: Node, b: Node, h: Node, v: Node)
    requires Dist(WithoutLink(net, a, b), h, v).Some?
    ensures Dist(net, h, v).Some? && Dist(net, h, v).value <= Dist(WithoutLink(net, a, b), h, v).value
  {
    hide Dist;
    var p := ShortestRoute(WithoutLink(net, a, b), h, v);
    RouteInLargerNetwork(WithoutLink(net, a, b), net, h, p);
    RouteGivesDist(net, h, v, p);
  }

  /** No entry uses a device that was taken down. */
  lemma DownDevicesUnused(net: Net, m: HopMap, t: Table, devices: map<Node, nat>, takenDown: set<(Node, nat)>,
                          h: Node, v: Node, idx: nat)
    requires WellFormed(net) && Routed(net, m) && Installed(net, m, t) && IsHost(net, h)
    requires DevicesOk(net, devices, takenDown)
    requires (v, idx) in takenDown
    ensures idx !in Entries(t, v, NodeIdToIp(h))
  {
    if idx in Entries(t, v, NodeIdToIp(h)) {
      var u := EntriesAreLive(net, m, t, h, v, idx);
    }
  }

  /** A shortest route that ends at v survives when no hop uses the link, in either direction. */
  lemma {:induction false} UnusedLinkKeepsRoute(net: Net, a: Node, b: Node, h: Node, v: Node, p: seq<Node>)
    requires !IsHop(net, h, a, b) && !IsHop(net, h, b, a) && Shortest(net, h, v, p)
    ensures Route(WithoutLink(net, a, b), h, p)
    decreases |p|
  {
    hide Dist, IsHop;
    if |p| > 1 {
      ShortestRouteEndsWithHop(net, h, v, p);
      UnusedLinkKeepsRoute(net, a, b, h, p[|p| - 2], p[..|p| - 1]);
    }
  }

  lemma UnusedLinkKeepsDist(net: Net, a: Node, b: Node, h: Node, v: Node)
    requires !IsHop(net, h, a, b) && !IsHop(net, h, b, a)
    ensures Dist(WithoutLink(net, a, b), h, v) == Dist(net, h, v)
  {
    hide Dist;
    var net' := WithoutLink(net, a, b);
    if Dist(net, h, v).Some? {
      var p := ShortestRoute(net, h, v);
      UnusedLinkKeepsRoute(net, a, b, h, v, p);
      RouteGivesDist(net', h, v, p);
    }
    if Dist(net', h, v).Some? {
      TakeDownNeverShortens(net, a, b, h, v);
    }
  }

  /** Rerouting is local: a link that carries no traffic towards h can go without changing any
      equal-cost set towards h. */
  lemma UnusedLinkKeepsHops(net: Net, a: Node, b: Node, h: Node, v: Node, u: Node)
    requires !IsHop(net, h, a, b) && !IsHop(net, h, b, a)
    ensures IsHop(WithoutLink(net, a, b), h, v, u) <==> IsHop(net, h, v, u)
  {
    hide Dist;
    UnusedLinkKeepsDist(net, a, b, h, v);
    UnusedLinkKeepsDist(net, a, b, h, u);
  }

  /** Two correct next-hop maps for the same network agree up to the order of each list, and the
      tables installed from them do so too. */
  lemma RoutesDetermined(net: Net, m: HopMap, m': HopMap, v: Node, h: Node)
    requires Routed(net, m) && Routed(net, m')
    ensures multiset(Hops(m, v, h)) == multiset(Hops(m', v, h))
  {
    hide Dist;
    if IsHost(net, h) {
      HopsUniqueUpToOrder(net, h, v, Hops(m, v, h), Hops(m', v, h));
    }
  }

  lemma TablesDetermined(net: Net, m: HopMap, t: Table, m': HopMap, t': Table, v: Node, ip: nat)
    requires Routed(net, m) && Routed(net, m') && Installed(net, m, t) && Installed(net, m', t')
    ensures multiset(Entries(t, v, ip)) == multiset(Entries(t', v, ip))
  {
    hide Entries, Interfaces, NodeIdToIp, Hops, Routed;
    if g: Node :| IsHost(net, g) && NodeIdToIp(g) == ip {
      RoutesDetermined(net, m, m', v, g);
      SameHopsSameInterfaces(net, v, Hops(m, v, g), Hops(m', v, g));
    }
  }

  lemma {:induction false} SameHopsSameInterfaces(net: Net, v: Node, a: seq<Node>, b: seq<Node>)
    requires multiset(a) == multiset(b)
    ensures multiset(Interfaces(net, v, a)) == multiset(Interfaces(net, v, b))
    decreases |a|
  {
    hide Interfaces;
    if a == [] {
      assert |b| == |multiset(b)| == |multiset(a)| == 0;
      assert a == b;
    } else {
      assert a[0] in multiset(a) && a[0] in multiset(b);
      var k :| 0 <= k < |b| && b[k] == a[0];
      WithoutAt(net, v, a, 0);
      WithoutAt(net, v, b, k);
      CancelOne(multiset(Without(a, 0)), multiset(Without(b, k)), a[0]);
      hide Without;
      SameHopsSameInterfaces(net, v, Without(a, 0), Without(b, k));
    }
  }

  lemma CancelOne(a: multiset<Node>, b: multiset<Node>, x: Node)
    requires a + multiset{x} == b + multiset{x}
    ensures a == b
  {
    assert a == a + multiset{x} - multiset{x} && b == b + multiset{x} - multiset{x};
  }

  function Without(s: seq<Node>, k: nat): (r: seq<Node>)
    requires k < |s|
    ensures |r| == |s| - 1
  {
    s[..k] + s[k + 1..]
  }

  /** Leaving out one hop leaves out its interface. */
  lemma WithoutAt(net: Net, v: Node, s: seq<Node>, k: nat)
    requires k < |s|
    ensures multiset(s) == multiset(Without(s, k)) + multiset{s[k]}
    ensures multiset(Interfaces(net, v, s))
            == multiset(Interfaces(net, v, Without(s, k))) + multiset{LinkAt(net.nbr, v, s[k]).idx}
  {
    hide Interfaces, LinkAt;
    assert s == s[..k] + ([s[k]] + s[k + 1..]);
    InterfacesAppend(net, v, s[..k], [s[k]] + s[k + 1..]);
    InterfacesAppend(net, v, [s[k]], s[k + 1..]);
    InterfacesAppend(net, v, s[..k], s[k + 1..]);
    assert Interfaces(net, v, [s[k]]) == [LinkAt(net.nbr, v, s[k]).idx];
  }

  lemma {:induction false} InterfacesAppend(net: Net, v: Node, a: seq<Node>, b: seq<Node>)
    ensures Interfaces(net, v, a + b) == Interfaces(net, v, a) + Interfaces(net, v, b)
  {
    hide Interfaces;
    var l, r := Interfaces(net, v, a + b), Interfaces(net, v, a) + Interfaces(net, v, b);
    assert forall k :: 0 <= k < |l| ==> l[k] == r[k];
  }

  // ----- the largest round-trip time and bandwidth-delay product

  datatype Figure = RoundTrip | BandwidthDelay

  /** Round trip over a route: twice the delay of its links and the transmission of one packet, in
      nanoseconds. Bandwidth-delay: what its slowest link carries in that time, in bytes. Both in 64-bit
      arithmetic. */
  ghost function FigureOf(figure: Figure, net: Net, payload: nat, p: seq<Node>): nat {
    var bits := payload * 8000000000 % 0x1_0000_0000_0000_0000;
    var rtt := (PathDelay(net, p) * 2 + PathTxDelay(net, bits, p)) % 0x1_0000_0000_0000_0000;
    if figure.RoundTrip? then rtt
    else rtt * PathBw(net, 0xffff_ffff_ffff_ffff, p) % 0x1_0000_0000_0000_0000 / 8000000000
  }

  /** A shortest route from y to x has this figure, its slowest link being the one that counts. */
  ghost predicate HasFigure(figure: Figure, net: Net, payload: nat, x: Node, y: Node, p: seq<Node>, value: nat) {
    && Shortest(net, y, x, p) && value == FigureOf(figure, net, payload, p)
    && IsBottleneck(net, 0xffff_ffff_ffff_ffff, p, PathBw(net, 0xffff_ffff_ffff_ffff, p))
  }

  /** high bounds the figure of every connected host pair, and belongs to one when positive. */
  ghost predicate IsWorst(figure: Figure, net: Net, payload: nat, high: nat) {
    && (forall x, y :: IsHost(net, x) && IsHost(net, y) && Dist(net, y, x).Some? ==>
          exists p, value: nat :: HasFigure(figure, net, payload, x, y, p, value) && value <= high)
    && (high > 0 ==> exists x, y, p ::
          IsHost(net, x) && IsHost(net, y) && HasFigure(figure, net, payload, x, y, p, high))
  }

  lemma RecordedFigures(net: Net, payload: nat, x: Node, y: Node, delay: nat, tx: nat, bw: nat) returns (p: seq<Node>)
    requires Witnessed(net, payload, y, x, delay, tx, bw)
    ensures HasFigure(RoundTrip, net, payload, x, y, p, Rtt(delay, tx))
    ensures HasFigure(BandwidthDelay, net, payload, x, y, p, Bdp(Rtt(delay, tx), bw))
  {
    hide PathDelay, PathTxDelay, PathBw, Shortest, IsBottleneck;
    p :| Shortest(net, y, x, p) && Totals(net, payload, p, delay, tx, bw);
    var d, t := PathDelay(net, p), PathTxDelay(net, payload * 8000000000 % U64, p);
    ModulusOfDifference(d * 2 + t, delay * 2 + tx, d / U64 * 2 + t / U64, U64);
  }

  /** The maxima computed after the first routing are the worst figures of the network. */
  lemma MaximaAreWorst(net: Net, payload: nat, delay: Matrix, tx: Matrix, bw: Matrix, rtt: Matrix, bdp: Matrix,
                       maxRtt: nat, maxBdp: nat)
    requires AllPairsRecorded(net, payload, |net.kinds|, map[], map[], map[], delay, tx, bw)
    requires RttsComputed(net.kinds, delay, tx, bw, rtt, bdp, |net.kinds|, 0)
    requires IsMaximum(net.kinds, rtt, maxRtt, |net.kinds|, 0) && IsMaximum(net.kinds, bdp, maxBdp, |net.kinds|, 0)
    ensures IsWorst(RoundTrip, net, payload, maxRtt) && IsWorst(BandwidthDelay, net, payload, maxBdp)
  {
    hide AllPairsRecorded, RttsComputed, IsMaximum, IsWorst;
    MaximumIsWorst(RoundTrip, net, payload, delay, tx, bw, rtt, bdp, rtt, maxRtt);
    MaximumIsWorst(BandwidthDelay, net, payload, delay, tx, bw, rtt, bdp, bdp, maxBdp);
  }

  lemma MaximumIsWorst(figure: Figure, net: Net, payload: nat, delay: Matrix, tx: Matrix, bw: Matrix,
                       rtt: Matrix, bdp: Matrix, m: Matrix, high: nat)
    requires AllPairsRecorded(net, payload, |net.kinds|, map[], map[], map[], delay, tx, bw)
    requires RttsComputed(net.kinds, delay, tx, bw, rtt, bdp, |net.kinds|, 0)
    requires m == (if figure.RoundTrip? then rtt else bdp) && IsMaximum(net.kinds, m, high, |net.kinds|, 0)
    ensures IsWorst(figure, net, payload, high)
  {
    hide Witnessed, HasFigure, Dist, Rtt, Bdp;
    forall x, y | IsHost(net, x) && IsHost(net, y) && Dist(net, y, x).Some?
      ensures exists p, value: nat :: HasFigure(figure, net, payload, x, y, p, value) && value <= high
    {
      var p := RecordedFigures(net, payload, x, y, Cell(delay, x, y), Cell(tx, x, y), Cell(bw, x, y));
      assert BeforePair(net.kinds, x, y, |net.kinds|, 0);
    }
    if high > 0 {
      var x: Node, y: Node :| BeforePair(net.kinds, x, y, |net.kinds|, 0) && Cell(m, x, y) == high;
      if Dist(net, y, x).None? {
        assert Cell(delay, x, y) == Cell(map[], x, y);
        assert Cell(tx, x, y) == Cell(map[], x, y) && Cell(bw, x, y) == Cell(map[], x, y);
        NothingRecorded();
        assert false;
      }
      var p := RecordedFigures(net, payload, x, y, Cell(delay, x, y), Cell(tx, x, y), Cell(bw, x, y));
    }
  }

  lemma NothingRecorded()
    ensures Rtt(0, 0) == 0 && Bdp(0, 0) == 0
  {
  }

  // ----- recorded totals

  /** Every host and every node that can reach it have the totals of one shortest route. */
  ghost predicate TotalsRight(net: Net, payload: nat, delay: Matrix, tx: Matrix, bw: Matrix) {
    forall v: Node, g: Node :: IsHost(net, g) && Dist(net, g, v).Some? ==>
      Witnessed(net, payload, g, v, Cell(delay, v, g), Cell(tx, v, g), Cell(bw, v, g))
  }

  lemma RecordedTotalsRight(net: Net, payload: nat, delay: Matrix, tx: Matrix, bw: Matrix,
                            delay': Matrix, tx': Matrix, bw': Matrix)
    requires AllPairsRecorded(net, payload, |net.kinds|, delay, tx, bw, delay', tx', bw')
    ensures TotalsRight(net, payload, delay', tx', bw')
  {
    hide Dist, Witnessed, Cell;
  }

  // ----- whole runs

  datatype Link = Link(a: Node, b: Node, delay: nat, bw: nat)

  predicate Joins(a: Node, b: Node, u: Node, v: Node) {
    (a == u && b == v) || (a == v && b == u)
  }

  /** The last link listed between two nodes, in either direction. */
  function LinkBetween(links: seq<Link>, u: Node, v: Node): Option<Link>
    decreases |links|
  {
    if links == [] then None
    else
      var last := links[|links| - 1];
      if Joins(last.a, last.b, u, v) then Some(last) else LinkBetween(links[..|links| - 1], u, v)
  }

  predicate Cut(downs: seq<(Node, Node)>, u: Node, v: Node)
    decreases |downs|
  {
    downs != [] &&
    (Joins(downs[|downs| - 1].0, downs[|downs| - 1].1, u, v) || Cut(downs[..|downs| - 1], u, v))
  }

  /** Exactly the links listed and not cut are up, with the delay and rate listed last. */
  ghost predicate Consists(net: Net, links: seq<Link>, downs: seq<(Node, Node)>) {
    forall u, v ::
      match LinkBetween(links, u, v)
      case None => !Up(net, u, v)
      case Some(l) =>
        && (Up(net, u, v) <==> !Cut(downs, u, v))
        && LinkAt(net.nbr, u, v).delay == l.delay && LinkAt(net.nbr, u, v).bw == l.bw
  }

  lemma LinkAdded(before: Net, after: Net, links: seq<Link>, i: nat)
    requires i < |links| && Consists(before, links[..i], [])
    requires var l := links[i];
             && (forall u, v :: !Joins(l.a, l.b, u, v) ==> LinkAt(after.nbr, u, v) == LinkAt(before.nbr, u, v))
             && (forall u, v :: Joins(l.a, l.b, u, v) ==>
                   Up(after, u, v) && LinkAt(after.nbr, u, v).delay == l.delay && LinkAt(after.nbr, u, v).bw == l.bw)
    ensures Consists(after, links[..i + 1], [])
  {
    assert links[..i + 1][..i] == links[..i];
  }

  lemma LinkCut(before: Net, after: Net, links: seq<Link>, downs: seq<(Node, Node)>, i: nat)
    requires i < |downs| && WellFormed(before) && Consists(before, links, downs[..i])
    requires var (a, b) := downs[i]; after == if Up(before, a, b) then WithoutLink(before, a, b) else before
    ensures Consists(after, links, downs[..i + 1])
  {
    hide LinkBetween;
    assert downs[..i + 1][..i] == downs[..i];
  }

  /** Reads the topology: exactly the links listed are up. */
  method BuildNetwork(kinds: seq<Kind>, payload: nat, links: seq<Link>) returns (f: Fabric)
    requires |kinds| <= 0x1000000
    requires forall i :: 0 <= i < |links| ==> links[i].a < |kinds| && links[i].b < |kinds| && links[i].bw > 0
    ensures fresh(f) && f.Valid() && f.kinds == kinds && f.payload == payload && f.nextHop == map[] && f.table == map[]
    ensures f.pairDelay == f.pairTxDelay == f.pairBw == map[]
    ensures Consists(f.Network(), links, [])
  {
    hide WellFormed, DevicesOk, Consists;
    f := new Fabric(kinds, payload);
    assert Consists(f.Network(), [], []) by { NothingConsists(f.Network()); }
    for i := 0 to |links|
      invariant f.Valid() && f.kinds == kinds && f.payload == payload && f.nextHop == map[] && f.table == map[]
      invariant fresh(f)
      invariant f.pairDelay == f.pairTxDelay == f.pairBw == map[]
      invariant Consists(f.Network(), links[..i], [])
    {
      ghost var before := f.Network();
      f.AddLink(links[i].a, links[i].b, links[i].delay, links[i].bw);
      LinkAdded(before, f.Network(), links, i);
    }
    assert links[..|links|] == links;
  }

  lemma NothingConsists(net: Net)
    requires forall u, v :: !Up(net, u, v)
    ensures Consists(net, [], [])
  {
  }

  /** A whole run: build the network, route, compute the maxima, then take links down in any order. At
      its end exactly the links listed and not taken down are up, and the installed tables are right for
      them, as are the totals recorded for every connected pair. The maxima are still those of the network as
      built. */
  method Simulate(kinds: seq<Kind>, payload: nat, links: seq<Link>, downs: seq<(Node, Node)>)
    returns (f: Fabric, ghost built: Net)
    requires |kinds| <= 0x1000000
    requires forall i :: 0 <= i < |links| ==> links[i].a < |kinds| && links[i].b < |kinds| && links[i].bw > 0
    requires forall i :: 0 <= i < |downs| ==> downs[i].0 < |kinds| && downs[i].1 < |kinds|
    ensures f.Ready() && f.kinds == kinds && Consists(f.Network(), links, downs)
    ensures TotalsRight(f.Network(), payload, f.pairDelay, f.pairTxDelay, f.pairBw)
    ensures built.kinds == kinds && Consists(built, links, []) && IsWorst(RoundTrip, built, payload, f.maxRtt)
    ensures IsWorst(BandwidthDelay, built, payload, f.maxBdp)
  {
    hide DevicesOk, Routed, Installed, Consists, AllPairsRecorded, RttsComputed, IsMaximum, IsWorst, TotalsRight;
    f := BuildNetwork(kinds, payload, links);
    built := f.Network();
    f.SetUpRouting();
    f.ComputeBdp();
    RecordedTotalsRight(built, payload, map[], map[], map[], f.pairDelay, f.pairTxDelay, f.pairBw);
    MaximaAreWorst(built, payload, f.pairDelay, f.pairTxDelay, f.pairBw, f.pairRtt, f.pairBdp, f.maxRtt, f.maxBdp);
    for i := 0 to |downs|
      invariant f.Ready() && f.kinds == kinds && fresh(f)
      invariant IsWorst(RoundTrip, built, payload, f.maxRtt) && IsWorst(BandwidthDelay, built, payload, f.maxBdp)
      invariant Consists(f.Network(), links, downs[..i])
      invariant f.payload == payload && TotalsRight(f.Network(), payload, f.pairDelay, f.pairTxDelay, f.pairBw)
    {
      ghost var before := f.Network();
      ghost var delay, tx, bw := f.pairDelay, f.pairTxDelay, f.pairBw;
      f.TakeDownLink(downs[i].0, downs[i].1);
      if Up(before, downs[i].0, downs[i].1) {
        RecordedTotalsRight(f.Network(), payload, delay, tx, bw, f.pairDelay, f.pairTxDelay, f.pairBw);
      }
      LinkCut(before, f.Network(), links, downs, i);
    }
    assert downs[..|downs|] == downs;
  }
}
