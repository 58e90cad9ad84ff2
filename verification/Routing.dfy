/** The routing state of the simulation and the code that computes, installs and repairs routes.
    The maps of the original are keyed by node pointers, so their iteration order is arbitrary: every
    loop over keys here picks the next key freely. Reading a missing entry gives the zero value. */
module Routing {
  import opened Options
  import opened Topology
  import opened Search
  import opened Addressing

  const U64 := 0x1_0000_0000_0000_0000

  type Matrix = map<Node, map<Node, nat>>
  type HopMap = map<Node, map<Node, seq<Node>>>
  type Table = map<Node, map<nat, seq<nat>>>

  function Row<T>(m: map<Node, map<nat, T>>, v: Node): map<nat, T> {
    if v in m then m[v] else map[]
  }

  function Cell(m: Matrix, v: Node, g: Node): nat {
    if v in m && g in m[v] then m[v][g] else 0
  }

  function SetCell(m: Matrix, v: Node, g: Node, x: nat): (r: Matrix)
    ensures forall w, f :: Cell(r, w, f) == if w == v && f == g then x else Cell(m, w, f)
  {
    m[v := Row(m, v)[g := x]]
  }

  function Hops(m: HopMap, v: Node, g: Node): seq<Node> {
    if v in m && g in m[v] then m[v][g] else []
  }

  function AddHop(m: HopMap, v: Node, g: Node, u: Node): (r: HopMap)
    ensures forall w, f :: Hops(r, w, f) == Hops(m, w, f) + if w == v && f == g then [u] else []
  {
    m[v := Row(m, v)[g := Hops(m, v, g) + [u]]]
  }

  function Entries(t: Table, v: Node, ip: nat): seq<nat> {
    if v in t && ip in t[v] then t[v][ip] else []
  }

  function AddTableEntry(t: Table, v: Node, ip: nat, idx: nat): (r: Table)
    ensures forall w, a :: Entries(r, w, a) == Entries(t, w, a) + if w == v && a == ip then [idx] else []
  {
    t[v := Row(t, v)[ip := Entries(t, v, ip) + [idx]]]
  }

  function ClearTable(t: Table, v: Node): (r: Table)
    ensures forall w: Node, a: nat :: Entries(r, w, a) == if w == v then [] else Entries(t, w, a)
  {
    t - {v}
  }

  function Interfaces(net: Net, v: Node, hops: seq<Node>): (r: seq<nat>)
    ensures |r| == |hops| && forall k :: 0 <= k < |r| ==> r[k] == LinkAt(net.nbr, v, hops[k]).idx
  {
    if hops == [] then [] else Interfaces(net, v, hops[..|hops| - 1]) + [LinkAt(net.nbr, v, hops[|hops| - 1]).idx]
  }

  /** Bits of a full packet times 10^9, in 64-bit arithmetic. */
  function ScaledBits(payload: nat): nat {
    payload * 1000000000 * 8 % U64
  }

  /** One route with the fewest hops has exactly these three totals (64-bit arithmetic). */
  ghost predicate Witnessed(net: Net, payload: nat, h: Node, v: Node, delay: nat, tx: nat, bw: nat) {
    exists p :: Shortest(net, h, v, p) && Totals(net, payload, p, delay, tx, bw)
  }

  ghost predicate Shortest(net: Net, h: Node, v: Node, p: seq<Node>) {
    RouteTo(net, h, v, p) && Dist(net, h, v) == Some(|p| - 1)
  }

  ghost predicate Totals(net: Net, payload: nat, p: seq<Node>, delay: nat, tx: nat, bw: nat) {
    && delay == PathDelay(net, p) % 0x1_0000_0000_0000_0000
    && tx == PathTxDelay(net, payload * 8000000000 % 0x1_0000_0000_0000_0000, p) % 0x1_0000_0000_0000_0000
    && bw == PathBw(net, 0xffff_ffff_ffff_ffff, p) && IsBottleneck(net, 0xffff_ffff_ffff_ffff, p, bw)
  }

  ghost predicate Labelled(net: Net, payload: nat, dis: map<Node, nat>, tree: map<Node, seq<Node>>,
                           delay: map<Node, nat>, tx: map<Node, nat>, bw: map<Node, nat>)
  {
    && tree.Keys == delay.Keys == dis.Keys && tx.Keys == dis.Keys && bw.Keys == dis.Keys
    && forall v :: v in dis ==> Totals(net, payload, tree[v], delay[v], tx[v], bw[v])
  }

  /** The new list extends the old one by exactly the equal-cost next hops. */
  ghost predicate AppendsHops(net: Net, h: Node, v: Node, before: seq<Node>, after: seq<Node>) {
    before <= after && HoldsExactlyHops(net, h, v, after[|before|..])
  }

  /** The next-hop map is right for the network: equal-cost next hops towards hosts, nothing else. */
  ghost predicate Routed(net: Net, m: HopMap) {
    forall v: Node, g: Node ::
      if IsHost(net, g) then HoldsExactlyHops(net, g, v, Hops(m, v, g)) else Hops(m, v, g) == []
  }

  /** The installed tables list, for each host address, the interfaces of the recorded next hops,
      and hold nothing for other addresses. */
  ghost predicate Installed(net: Net, m: HopMap, t: Table) {
    && (forall v: Node, g: Node :: IsHost(net, g) ==>
          Entries(t, v, NodeIdToIp(g)) == Interfaces(net, v, Hops(m, v, g)))
    && (forall v: Node, ip: nat :: Entries(t, v, ip) != [] ==> exists g: Node :: IsHost(net, g) && NodeIdToIp(g) == ip)
  }

  /** The network with both directions of a link replaced. */
  function WithLink(net: Net, a: Node, b: Node, ab: Interface, ba: Interface): Net {
    net.(nbr := SetLink(SetLink(net.nbr, a, b, ab), b, a, ba))
  }

  function WithoutLink(net: Net, a: Node, b: Node): Net {
    WithLink(net, a, b, LinkAt(net.nbr, a, b).(up := false), LinkAt(net.nbr, b, a).(up := false))
  }

  lemma ExtendTotals(net: Net, payload: nat, p: seq<Node>, next: Node, delay: nat, tx: nat, bw: nat)
    requires p != [] && Up(net, Last(p), next) && Totals(net, payload, p, delay, tx, bw)
    requires LinkAt(net.nbr, Last(p), next).bw > 0
    ensures var link := LinkAt(net.nbr, Last(p), next);
            Totals(net, payload, p + [next], (delay + link.delay) % U64,
                   (tx + ScaledBits(payload) / link.bw) % U64, Min(bw, link.bw))
  {
    var link := LinkAt(net.nbr, Last(p), next);
    PathStep(net, ScaledBits(payload), p, next);
    BottleneckStep(net, U64 - 1, p, next, bw);
    hide IsBottleneck, LinkAt, Up, Min, PathDelay, PathTxDelay, PathBw;
    WrapSum(PathDelay(net, p), link.delay);
    WrapSum(PathTxDelay(net, ScaledBits(payload), p), ScaledBits(payload) / link.bw);
  }

  lemma PathStep(net: Net, scaledBits: nat, p: seq<Node>, next: Node)
    requires p != [] && Up(net, Last(p), next) && LinkAt(net.nbr, Last(p), next).bw > 0
    ensures var p', link := p + [next], LinkAt(net.nbr, Last(p), next);
            && PathDelay(net, p') == PathDelay(net, p) + link.delay
            && PathTxDelay(net, scaledBits, p') == PathTxDelay(net, scaledBits, p) + scaledBits / link.bw
            && PathBw(net, U64 - 1, p') == Min(PathBw(net, U64 - 1, p), link.bw)
  {
    var p' := p + [next];
    assert p'[..|p'| - 1] == p && p'[|p'| - 2] == Last(p);
  }

  lemma WrapSum(a: nat, b: nat)
    ensures (a % U64 + b) % U64 == (a + b) % U64
  {
    ModulusOfDifference(a + b, a % U64 + b, a / U64, U64);
  }

  ghost predicate HopsAdded(net: Net, h: Node, before: HopMap, after: HopMap) {
    forall v: Node, g: Node :: if g == h
      then AppendsHops(net, h, v, Hops(before, v, h), Hops(after, v, h))
      else Hops(after, v, g) == Hops(before, v, g)
  }

  /** The first i queue entries have added themselves to the lists of their neighbours; so has the
      next entry, for all neighbours but `rest`. */
  ghost predicate HopsSoFar(net: Net, h: Node, q: seq<Node>, dis: map<Node, nat>, i: nat, rest: set<Node>,
                            before: HopMap, after: HopMap)
    requires i <= |q| && (rest != {} ==> i > 0)
  {
    forall v: Node, g: Node :: Hops(after, v, g) == Hops(before, v, g) +
      if g == h then HopsAmong(net, dis, q, if v in rest then i - 1 else i, v) else []
  }

  /** The neighbours of the current node outside `rest` are discovered, at most one hop further. */
  ghost predicate Scanned(net: Net, q: seq<Node>, dis: map<Node, nat>, i: nat, rest: set<Node>) {
    i < |q| && q[i] in dis &&
    forall w :: w !in rest && Up(net, q[i], w) ==> w in dis && dis[w] <= dis[q[i]] + 1
  }

  /** Reached nodes get the totals of a shortest route from h; all other entries stay. */
  ghost predicate PairsRecorded(net: Net, payload: nat, h: Node, delay: Matrix, tx: Matrix, bw: Matrix,
                                delay': Matrix, tx': Matrix, bw': Matrix) {
    forall v: Node, g: Node ::
      if g == h && Dist(net, h, v).Some? then
        Witnessed(net, payload, h, v, Cell(delay', v, g), Cell(tx', v, g), Cell(bw', v, g))
      else
        && Cell(delay', v, g) == Cell(delay, v, g)
        && Cell(tx', v, g) == Cell(tx, v, g)
        && Cell(bw', v, g) == Cell(bw, v, g)
  }

  lemma SearchStarts(net: Net, payload: nat, h: Node, before: HopMap)
    requires IsNode(net, h)
    ensures HopsSoFar(net, h, [h], map[h := 0], 0, {}, before, before)
    ensures Inv(net, h, [h], map[h := 0], map[h := [h]], 0)
    ensures Labelled(net, payload, map[h := 0], map[h := [h]], map[h := 0], map[h := 0], map[h := U64 - 1])
  {
    assert RouteTo(net, h, h, [h]);
  }

  /** The columns of the first n nodes that are hosts are recorded, one search each. */
  ghost predicate AllPairsRecorded(net: Net, payload: nat, n: nat, delay: Matrix, tx: Matrix, bw: Matrix,
                                   delay': Matrix, tx': Matrix, bw': Matrix) {
    forall v: Node, g: Node ::
      if g < n && IsHost(net, g) && Dist(net, g, v).Some? then
        Witnessed(net, payload, g, v, Cell(delay', v, g), Cell(tx', v, g), Cell(bw', v, g))
      else
        && Cell(delay', v, g) == Cell(delay, v, g)
        && Cell(tx', v, g) == Cell(tx, v, g)
        && Cell(bw', v, g) == Cell(bw, v, g)
  }

  /** The entries for the recorded next hops are appended, except for the nodes in `nodes` and the
      destinations in `dests` of `node`; entries for addresses of no node are untouched. */
  ghost predicate EntriesAdded(net: Net, m: HopMap, nodes: set<Node>, dests: set<Node>, node: Node, t: Table,
                               t': Table) {
    && (forall v: Node, g: Node :: IsNode(net, g) ==>
          Entries(t', v, NodeIdToIp(g)) == Entries(t, v, NodeIdToIp(g)) +
          if v in nodes || (v == node && g in dests) then [] else Interfaces(net, v, Hops(m, v, g)))
    && (forall v: Node, ip: nat :: !IsNodeAddress(net, ip) ==> Entries(t', v, ip) == Entries(t, v, ip))
  }

  ghost predicate IsNodeAddress(net: Net, ip: nat) {
    exists g: Node :: IsNode(net, g) && NodeIdToIp(g) == ip
  }

  ghost predicate RowExtended(t: Table, t': Table, node: Node, ip: nat, idxs: seq<nat>) {
    forall v: Node, a: nat :: Entries(t', v, a) == Entries(t, v, a) + if v == node && a == ip then idxs else []
  }

  lemma NodeAddressesDistinct(n: nat)
    requires n <= 0x1000000
    ensures forall i: nat, j: nat :: i < n && j < n && NodeIdToIp(i) == NodeIdToIp(j) ==> i == j
  {
    hide NodeIdToIp;
    forall i: nat, j: nat | i < n && j < n && NodeIdToIp(i) == NodeIdToIp(j) ensures i == j {
      AddressesDistinct(i, j);
    }
  }

  /** After the search every reached node carries the totals of a shortest route. */
  lemma ReachedAreWitnessed(net: Net, payload: nat, h: Node, q: seq<Node>, dis: map<Node, nat>,
                            tree: map<Node, seq<Node>>,
                            delay: map<Node, nat>, tx: map<Node, nat>, bw: map<Node, nat>)
    requires Inv(net, h, q, dis, tree, |q|) && Labelled(net, payload, dis, tree, delay, tx, bw)
    ensures delay.Keys == tx.Keys == bw.Keys == dis.Keys
    ensures forall v :: v in dis <==> Dist(net, h, v).Some?
    ensures forall v :: v in dis ==> Witnessed(net, payload, h, v, delay[v], tx[v], bw[v])
  {
    forall v: Node ensures v in dis <==> Dist(net, h, v).Some? {
      DistancesExact(net, h, q, dis, tree, v);
    }
    forall v | v in dis ensures Witnessed(net, payload, h, v, delay[v], tx[v], bw[v]) {
      DistancesExact(net, h, q, dis, tree, v);
      assert Shortest(net, h, v, tree[v]);
    }
  }

  /** After the search every list has gained exactly the equal-cost next hops. */
  lemma ListsAreComplete(net: Net, h: Node, q: seq<Node>, dis: map<Node, nat>, tree: map<Node, seq<Node>>,
                         before: HopMap, after: HopMap)
    requires Inv(net, h, q, dis, tree, |q|) && HopsSoFar(net, h, q, dis, |q|, {}, before, after)
    ensures HopsAdded(net, h, before, after)
  {
    forall v: Node ensures AppendsHops(net, h, v, Hops(before, v, h), Hops(after, v, h)) {
      HopsExact(net, h, q, dis, tree, v);
      ExtensionAppends(net, h, v, Hops(before, v, h), HopsAmong(net, dis, q, |q|, v), Hops(after, v, h));
    }
  }

  lemma ExtensionAppends(net: Net, h: Node, v: Node, before: seq<Node>, hops: seq<Node>, after: seq<Node>)
    requires HoldsExactlyHops(net, h, v, hops) && after == before + hops
    ensures AppendsHops(net, h, v, before, after)
  {
    assert after[|before|..] == hops;
  }

  /** Discovering a neighbour of the current node keeps the search invariant and the totals. */
  lemma VisitNew(net: Net, payload: nat, h: Node, q: seq<Node>, dis: map<Node, nat>, tree: map<Node, seq<Node>>, i: nat,
                 delay: map<Node, nat>, tx: map<Node, nat>, bw: map<Node, nat>, next: Node)
    requires WellFormed(net) && Inv(net, h, q, dis, tree, i) && Labelled(net, payload, dis, tree, delay, tx, bw)
    requires i < |q| && Up(net, q[i], next) && next !in dis
    ensures q[i] in tree && q[i] in dis && q[i] in delay && q[i] in tx && q[i] in bw
    ensures LinkAt(net.nbr, q[i], next).bw > 0
    ensures var now, link := q[i], LinkAt(net.nbr, q[i], next);
            var q', dis', tree' := Enqueue(net, q, next), dis[next := dis[now] + 1], tree[next := tree[now] + [next]];
            && IsNode(net, next) && Inv(net, h, q', dis', tree', i)
            && Labelled(net, payload, dis', tree', delay[next := (delay[now] + link.delay) % U64],
                        tx[next := (tx[now] + ScaledBits(payload) / link.bw) % U64], bw[next := Min(bw[now], link.bw)])
  {
    hide Inv, Discovered, Labelled, Totals, Closed;
    CurrentIsTraced(net, h, q, dis, tree, i, next);
    Discover(net, h, q, dis, tree, i, next);
    LabelNew(net, payload, dis, tree, delay, tx, bw, q[i], next);
  }

  lemma CurrentIsTraced(net: Net, h: Node, q: seq<Node>, dis: map<Node, nat>, tree: map<Node, seq<Node>>, i: nat,
                        next: Node)
    requires WellFormed(net) && Inv(net, h, q, dis, tree, i) && i < |q| && Up(net, q[i], next)
    ensures q[i] in dis && q[i] in tree && tree[q[i]] != [] && Last(tree[q[i]]) == q[i]
    ensures IsNode(net, next) && LinkAt(net.nbr, q[i], next).bw > 0
  {
    assert q[i] in q && Up(net, next, q[i]);
  }

  lemma LabelNew(net: Net, payload: nat, dis: map<Node, nat>, tree: map<Node, seq<Node>>,
                 delay: map<Node, nat>, tx: map<Node, nat>, bw: map<Node, nat>, now: Node, next: Node)
    requires Labelled(net, payload, dis, tree, delay, tx, bw) && now in dis && next !in dis
    requires tree[now] != [] && Last(tree[now]) == now && Up(net, now, next) && LinkAt(net.nbr, now, next).bw > 0
    ensures now in delay && now in tx && now in bw
    ensures var link := LinkAt(net.nbr, now, next);
            Labelled(net, payload, dis[next := dis[now] + 1], tree[next := tree[now] + [next]],
                     delay[next := (delay[now] + link.delay) % U64],
                     tx[next := (tx[now] + ScaledBits(payload) / link.bw) % U64], bw[next := Min(bw[now], link.bw)])
  {
    hide Totals;
    ExtendTotals(net, payload, tree[now], next, delay[now], tx[now], bw[now]);
  }

  /** ... and leaves the recorded lists right. */
  lemma VisitNewKeepsLists(net: Net, h: Node, q: seq<Node>, dis: map<Node, nat>, tree: map<Node, seq<Node>>, i: nat,
                           rest: set<Node>, before: HopMap, after: HopMap, next: Node, d: nat)
    requires Inv(net, h, q, dis, tree, i) && Scanned(net, q, dis, i, rest) && next !in dis && next in rest
    requires HopsSoFar(net, h, q, dis, i + 1, rest, before, after)
    ensures HopsSoFar(net, h, Enqueue(net, q, next), dis[next := d], i + 1, rest, before, after)
    ensures Scanned(net, Enqueue(net, q, next), dis[next := d], i, rest)
  {
    var q', dis' := Enqueue(net, q, next), dis[next := d];
    forall v: Node
      ensures HopsAmong(net, dis', q', if v in rest then i else i + 1, v)
              == HopsAmong(net, dis, q, if v in rest then i else i + 1, v)
    {
      DiscoverKeepsHops(net, h, q, dis, i, next, d, i, v);
      assert v !in rest ==> IsNearer(net, dis', q'[i], v) == IsNearer(net, dis, q[i], v);
    }
  }

  /** The current node joins the list of a neighbour exactly when it is one hop nearer. */
  lemma VisitHop(net: Net, h: Node, q: seq<Node>, dis: map<Node, nat>, i: nat, rest: set<Node>,
                 before: HopMap, after: HopMap, after': HopMap, next: Node)
    requires Scanned(net, q, dis, i, rest) && next in rest && HopsSoFar(net, h, q, dis, i + 1, rest, before, after)
    requires Up(net, q[i], next) ==> next in dis && dis[next] <= dis[q[i]] + 1
    requires after' == if Up(net, q[i], next) && dis[q[i]] + 1 == dis[next] then AddHop(after, next, h, q[i]) else after
    ensures Scanned(net, q, dis, i, rest - {next}) && HopsSoFar(net, h, q, dis, i + 1, rest - {next}, before, after')
  {
    hide Hops, HopsAmong, AddHop, Up;
    assert IsNearer(net, dis, q[i], next) <==> Up(net, q[i], next) && dis[q[i]] + 1 == dis[next];
    HopsAmongStep(net, dis, q, i, next);
    forall v: Node, g: Node
      ensures Hops(after', v, g) == Hops(before, v, g) +
                if g == h then HopsAmong(net, dis, q, if v in rest - {next} then i else i + 1, v) else []
    {
      if v == next && g == h {
        AppendAssociates(Hops(before, v, g), HopsAmong(net, dis, q, i, v), [q[i]]);
      } else {
        EmptyAppends(Hops(after, v, g), []);
      }
    }
  }

  lemma HopsAmongStep(net: Net, dis: map<Node, nat>, q: seq<Node>, i: nat, v: Node)
    requires i < |q|
    ensures HopsAmong(net, dis, q, i + 1, v)
            == if IsNearer(net, dis, q[i], v) then HopsAmong(net, dis, q, i, v) + [q[i]]
               else HopsAmong(net, dis, q, i, v)
  {
  }

  lemma AppendAssociates<T>(a: seq<T>, b: seq<T>, c: seq<T>)
    ensures (a + b) + c == a + (b + c)
  {
  }

  lemma ScanStarts(net: Net, h: Node, q: seq<Node>, dis: map<Node, nat>, tree: map<Node, seq<Node>>, i: nat,
                   before: HopMap, after: HopMap)
    requires Inv(net, h, q, dis, tree, i) && i < |q| && HopsSoFar(net, h, q, dis, i, {}, before, after)
    ensures |q| <= |net.kinds|
    ensures Scanned(net, q, dis, i, Row(net.nbr, q[i]).Keys)
    ensures HopsSoFar(net, h, q, dis, i + 1, Row(net.nbr, q[i]).Keys, before, after)
  {
    QueueBound(net, h, q, dis, tree);
    assert q[i] in q;
    forall v: Node | v !in Row(net.nbr, q[i])
      ensures HopsAmong(net, dis, q, i + 1, v) == HopsAmong(net, dis, q, i, v)
    {
      assert !Up(net, q[i], v);
    }
  }

  lemma NeighbourIsNear(net: Net, h: Node, q: seq<Node>, dis: map<Node, nat>, tree: map<Node, seq<Node>>, i: nat,
                        next: Node)
    requires Inv(net, h, q, dis, tree, i) && i < |q| && next in dis
    ensures q[i] in dis && dis[next] <= dis[q[i]] + 1
  {
  }

  lemma ScanEnds(net: Net, h: Node, q: seq<Node>, dis: map<Node, nat>, tree: map<Node, seq<Node>>, i: nat)
    requires Inv(net, h, q, dis, tree, i) && Scanned(net, q, dis, i, {})
    ensures Inv(net, h, q, dis, tree, i + 1)
  {
    assert forall k :: 0 <= k < |q| ==> q[k] in q;
  }

  lemma NoEntriesYet(net: Net, m: HopMap, t: Table)
    ensures EntriesAdded(net, m, m.Keys, {}, 0, t, t)
  {
    forall v: Node, g: Node | v !in m ensures Interfaces(net, v, Hops(m, v, g)) == [] {}
  }

  lemma BeginNode(net: Net, m: HopMap, nodes: set<Node>, node: Node, t: Table, t': Table)
    requires node in nodes && nodes <= m.Keys && EntriesAdded(net, m, nodes, {}, 0, t, t')
    ensures EntriesAdded(net, m, nodes - {node}, m[node].Keys, node, t, t')
  {
    forall g: Node | g !in m[node] ensures Interfaces(net, node, Hops(m, node, g)) == [] {}
  }

  lemma FinishNode(net: Net, m: HopMap, nodes: set<Node>, node: Node, t: Table, t': Table)
    requires EntriesAdded(net, m, nodes, {}, node, t, t')
    ensures EntriesAdded(net, m, nodes, {}, 0, t, t')
  {
  }

  lemma RowStarts(net: Net, t: Table, node: Node, ip: nat, nexts: seq<Node>)
    ensures RowExtended(t, t, node, ip, Interfaces(net, node, nexts[..0]))
  {
  }

  lemma ExtendRow(net: Net, t: Table, t': Table, node: Node, ip: nat, nexts: seq<Node>, k: nat)
    requires k < |nexts| && RowExtended(t, t', node, ip, Interfaces(net, node, nexts[..k]))
    ensures RowExtended(t, AddTableEntry(t', node, ip, LinkAt(net.nbr, node, nexts[k]).idx), node, ip,
                        Interfaces(net, node, nexts[..k + 1]))
  {
    assert nexts[..k + 1][..k] == nexts[..k] && nexts[..k + 1][k] == nexts[k];
    AppendAssociates(Entries(t, node, ip), Interfaces(net, node, nexts[..k]), [LinkAt(net.nbr, node, nexts[k]).idx]);
  }

  lemma EmptyAppends<T>(a: seq<T>, b: seq<T>)
    ensures (a + []) + b == a + b && a + [] == a
  {
  }

  lemma FinishDest(net: Net, m: HopMap, nodes: set<Node>, dests: set<Node>, node: Node, dst: Node, t: Table, t': Table,
                   t'': Table)
    requires forall i: nat, j: nat :: IsNode(net, i) && IsNode(net, j) && NodeIdToIp(i) == NodeIdToIp(j) ==> i == j
    requires node in m && node !in nodes && dst in dests && dests <= m[node].Keys
    requires Hops(m, node, dst) != [] ==> IsNode(net, dst)
    requires EntriesAdded(net, m, nodes, dests, node, t, t')
    requires RowExtended(t', t'', node, NodeIdToIp(dst), Interfaces(net, node, Hops(m, node, dst)))
    ensures EntriesAdded(net, m, nodes, dests - {dst}, node, t, t'')
  {
    hide Entries, Interfaces, NodeIdToIp;
    var own := Interfaces(net, node, Hops(m, node, dst));
    forall v: Node, g: Node | IsNode(net, g)
      ensures Entries(t'', v, NodeIdToIp(g)) == Entries(t, v, NodeIdToIp(g)) +
                if v in nodes || (v == node && g in dests - {dst}) then [] else Interfaces(net, v, Hops(m, v, g))
    {
      var ip := NodeIdToIp(g);
      if v == node && ip == NodeIdToIp(dst) && own != [] {
        assert g == dst;
        EmptyAppends(Entries(t, v, ip), own);
      } else {
        EmptyAppends(Entries(t', v, ip), []);
      }
    }
    forall v: Node, ip: nat | !IsNodeAddress(net, ip) ensures Entries(t'', v, ip) == Entries(t, v, ip) {
      assert own != [] ==> ip != NodeIdToIp(dst);
      EmptyAppends(Entries(t', v, ip), []);
    }
  }

  /** Routing from scratch: with nothing recorded before, the appended lists and entries are all there is. */
  lemma FreshRoutes(net: Net, m: HopMap)
    requires forall v: Node, g: Node ::
               if IsHost(net, g) then AppendsHops(net, g, v, [], Hops(m, v, g)) else Hops(m, v, g) == []
    ensures Routed(net, m)
  {
    forall v: Node, g: Node | IsHost(net, g) ensures HoldsExactlyHops(net, g, v, Hops(m, v, g)) {
      assert Hops(m, v, g)[0..] == Hops(m, v, g);
    }
  }

  lemma FreshEntries(net: Net, m: HopMap, t: Table, t': Table)
    requires Routed(net, m) && EntriesAdded(net, m, {}, {}, 0, t, t')
    requires forall v: Node, ip: nat :: Entries(t, v, ip) == []
    ensures Installed(net, m, t')
  {
    hide Entries, NodeIdToIp;
    forall v: Node, ip: nat | Entries(t', v, ip) != []
      ensures exists g: Node :: IsHost(net, g) && NodeIdToIp(g) == ip
    {
      assert IsNodeAddress(net, ip);
      var g: Node :| IsNode(net, g) && NodeIdToIp(g) == ip;
      assert Entries(t', v, ip) == [] + Interfaces(net, v, Hops(m, v, g));
    }
  }

  /** Hops towards g are recorded at nodes only, and towards hosts only. */
  lemma RoutedTowardsNodes(net: Net, m: HopMap)
    requires Routed(net, m)
    ensures forall v: Node, g: Node :: Hops(m, v, g) != [] ==> IsNode(net, g)
  {
  }

  lemma RoutedAtNodes(net: Net, m: HopMap, v: Node, g: Node)
    requires WellFormed(net) && Routed(net, m) && Hops(m, v, g) != []
    ensures IsNode(net, v)
  {
    var u := Hops(m, v, g)[0];
    assert u in Hops(m, v, g);
    assert IsHop(net, g, v, u) && Up(net, v, u);
  }

  lemma InstalledAtNodes(net: Net, m: HopMap, t: Table)
    requires WellFormed(net) && Routed(net, m) && Installed(net, m, t)
    ensures forall v: Node, ip: nat :: Entries(t, v, ip) != [] ==> IsNode(net, v)
  {
    forall v: Node, ip: nat | Entries(t, v, ip) != [] ensures IsNode(net, v) {
      var g: Node :| IsHost(net, g) && NodeIdToIp(g) == ip;
      RoutedAtNodes(net, m, v, g);
    }
  }

  /** Device bookkeeping: interfaces in use are installed, and none of them was taken down. */
  ghost predicate DevicesOk(net: Net, devices: map<Node, nat>, takenDown: set<(Node, nat)>) {
    && (forall u, v :: Up(net, u, v) ==>
          u in devices && LinkAt(net.nbr, u, v).idx < devices[u] && (u, LinkAt(net.nbr, u, v).idx) !in takenDown)
    && (forall x :: x in takenDown ==> x.0 in devices && x.1 < devices[x.0])
  }

  lemma NewLinkOk(net: Net, devices: map<Node, nat>, takenDown: set<(Node, nat)>, devices': map<Node, nat>,
                  a: Node, b: Node, ab: Interface, ba: Interface)
    requires WellFormed(net) && DevicesOk(net, devices, takenDown)
    requires IsNode(net, a) && IsNode(net, b)
    requires devices'.Keys == devices.Keys + {a, b}
    requires forall u :: u in devices ==> devices[u] <= devices'[u]
    requires (a in devices ==> devices[a] <= ab.idx) && ab.idx < devices'[a]
    requires (b in devices ==> devices[b] <= ba.idx) && ba.idx < devices'[b]
    requires ab.up && ba.up && ab.bw > 0 && ba.bw > 0
    ensures WellFormed(WithLink(net, a, b, ab, ba)) && DevicesOk(WithLink(net, a, b, ab, ba), devices', takenDown)
  {
    var net' := WithLink(net, a, b, ab, ba);
    forall u, v | Up(net', u, v)
      ensures IsNode(net', u) && Up(net', v, u) && LinkAt(net'.nbr, u, v).bw > 0
      ensures u in devices' && LinkAt(net'.nbr, u, v).idx < devices'[u] && (u, LinkAt(net'.nbr, u, v).idx) !in takenDown
    {
      if !((u == a && v == b) || (u == b && v == a)) { assert Up(net, u, v); }
    }
  }

  lemma LostLinkOk(net: Net, devices: map<Node, nat>, takenDown: set<(Node, nat)>, a: Node, b: Node)
    requires WellFormed(net) && DevicesOk(net, devices, takenDown) && Up(net, a, b)
    ensures WellFormed(WithoutLink(net, a, b))
    ensures DevicesOk(WithoutLink(net, a, b), devices,
                      takenDown + {(a, LinkAt(net.nbr, a, b).idx), (b, LinkAt(net.nbr, b, a).idx)})
  {
    var net' := WithoutLink(net, a, b);
    forall u, v ensures Up(net', u, v) <==> Up(net, u, v) && !((u == a && v == b) || (u == b && v == a)) {}
    assert Up(net, b, a);
  }

  function Rtt(delay: nat, tx: nat): nat {
    (delay * 2 + tx) % U64
  }

  function Bdp(rtt: nat, bw: nat): nat {
    rtt * bw % U64 / 1000000000 / 8
  }

  /** Host pairs in row order, up to row i and column j. */
  predicate BeforePair(kinds: seq<Kind>, x: Node, y: Node, i: nat, j: nat) {
    && x < |kinds| && y < |kinds| && kinds[x].Host? && kinds[y].Host?
    && (x < i || (x == i && y < j))
  }

  /** high bounds the cells of the pairs seen so far and is one of them when positive. */
  ghost predicate IsMaximum(kinds: seq<Kind>, m: Matrix, high: nat, i: nat, j: nat) {
    && (forall x: Node, y: Node :: BeforePair(kinds, x, y, i, j) ==> Cell(m, x, y) <= high)
    && (high > 0 ==> exists x: Node, y: Node :: BeforePair(kinds, x, y, i, j) && Cell(m, x, y) == high)
  }

  ghost predicate RttsComputed(kinds: seq<Kind>, delay: Matrix, tx: Matrix, bw: Matrix, rtt: Matrix, bdp: Matrix,
                               i: nat, j: nat) {
    forall x: Node, y: Node :: BeforePair(kinds, x, y, i, j) ==>
      && Cell(rtt, x, y) == Rtt(Cell(delay, x, y), Cell(tx, x, y))
      && Cell(bdp, x, y) == Bdp(Cell(rtt, x, y), Cell(bw, x, y))
  }

  lemma NextPair(kinds: seq<Kind>, i: nat, j: nat)
    requires i < |kinds| && j < |kinds| && kinds[i].Host?
    ensures forall x: Node, y: Node ::
              BeforePair(kinds, x, y, i, j + 1) <==>
              BeforePair(kinds, x, y, i, j) || (x == i && y == j && kinds[j].Host?)
    ensures !BeforePair(kinds, i, j, i, j)
  {
  }

  lemma MaximumStep(kinds: seq<Kind>, m: Matrix, high: nat, i: nat, j: nat, c: nat)
    requires i < |kinds| && j < |kinds| && kinds[i].Host? && kinds[j].Host? && IsMaximum(kinds, m, high, i, j)
    ensures IsMaximum(kinds, SetCell(m, i, j, c), if c > high then c else high, i, j + 1)
  {
    hide Cell, SetCell, BeforePair;
    NextPair(kinds, i, j);
    if c <= high && high > 0 {
      var x: Node, y: Node :| BeforePair(kinds, x, y, i, j) && Cell(m, x, y) == high;
      assert Cell(SetCell(m, i, j, c), x, y) == high;
    }
    assert BeforePair(kinds, i, j, i, j + 1) && Cell(SetCell(m, i, j, c), i, j) == c;
  }

  lemma RttsStep(kinds: seq<Kind>, delay: Matrix, tx: Matrix, bw: Matrix, rtt: Matrix, bdp: Matrix, i: nat, j: nat)
    requires i < |kinds| && j < |kinds| && kinds[i].Host? && kinds[j].Host?
    requires RttsComputed(kinds, delay, tx, bw, rtt, bdp, i, j)
    ensures var r := Rtt(Cell(delay, i, j), Cell(tx, i, j));
            RttsComputed(kinds, delay, tx, bw,
                         SetCell(rtt, i, j, r), SetCell(bdp, i, j, Bdp(r, Cell(bw, i, j))), i, j + 1)
  {
    hide Cell, SetCell, BeforePair, Rtt, Bdp;
    NextPair(kinds, i, j);
  }

  lemma NoPairsYet(kinds: seq<Kind>, delay: Matrix, tx: Matrix, bw: Matrix, rtt: Matrix, bdp: Matrix)
    ensures RttsComputed(kinds, delay, tx, bw, rtt, bdp, 0, 0)
    ensures IsMaximum(kinds, rtt, 0, 0, 0) && IsMaximum(kinds, bdp, 0, 0, 0)
  {
  }

  /** Moving past a pair that is not a host pair, or to the next row, changes nothing. */
  lemma SamePairs(kinds: seq<Kind>, delay: Matrix, tx: Matrix, bw: Matrix, rtt: Matrix, bdp: Matrix,
                  maxRtt: nat, maxBdp: nat, i: nat, j: nat, i': nat, j': nat)
    requires IsMaximum(kinds, rtt, maxRtt, i, j) && IsMaximum(kinds, bdp, maxBdp, i, j)
    requires RttsComputed(kinds, delay, tx, bw, rtt, bdp, i, j)
    requires forall x: Node, y: Node :: BeforePair(kinds, x, y, i', j') <==> BeforePair(kinds, x, y, i, j)
    ensures IsMaximum(kinds, rtt, maxRtt, i', j') && IsMaximum(kinds, bdp, maxBdp, i', j')
    ensures RttsComputed(kinds, delay, tx, bw, rtt, bdp, i', j')
  {
    hide Cell, BeforePair, Rtt, Bdp;
  }

  class Fabric {
    const kinds: seq<Kind>
    const payload: nat
    var nbr2if: map<Node, map<Node, Interface>>
    var devices: map<Node, nat>
    var nextHop: HopMap
    var pairDelay: Matrix
    var pairTxDelay: Matrix
    var pairBw: Matrix
    var pairRtt: Matrix
    var pairBdp: Matrix
    var maxRtt: nat
    var maxBdp: nat
    var table: Table
    var takenDown: set<(Node, nat)>

    ghost function Network(): Net
      reads this
    {
      Net(kinds, nbr2if)
    }

    /** Addresses tell the nodes apart, links are well formed, interfaces in use work. */
    ghost predicate Valid()
      reads this
    {
      && |kinds| <= 0x1000000
      && WellFormed(Network())
      && DevicesOk(Network(), devices, takenDown)
    }

    constructor (kinds: seq<Kind>, payload: nat)
      requires |kinds| <= 0x1000000
      ensures Valid() && this.kinds == kinds && this.payload == payload
      ensures nextHop == map[] && table == map[] && takenDown == {}
      ensures pairDelay == pairTxDelay == pairBw == pairRtt == pairBdp == map[] && maxRtt == maxBdp == 0
      ensures forall u, v :: LinkAt(nbr2if, u, v) == Interface(0, false, 0, 0)
    {
      this.kinds, this.payload := kinds, payload;
      nbr2if, devices, nextHop, table, takenDown := map[], map[], map[], map[], {};
      pairDelay, pairTxDelay, pairBw, pairRtt, pairBdp := map[], map[], map[], map[], map[];
      maxRtt, maxBdp := 0, 0;
    }

    /** A new device gets the next index of its node. Index 0 is the loopback device. */
    method InstallDevice(v: Node) returns (i: nat)
      modifies this`devices
      ensures i == if v in old(devices) then old(devices)[v] else 1
      ensures devices == old(devices)[v := i + 1]
    {
      i := if v in devices then devices[v] else 1;
      devices := devices[v := i + 1];
    }

    /** Installs a device at both ends, one after the other, and records the link as up. */
    method AddLink(src: Node, dst: Node, delay: nat, bw: nat)
      requires Valid() && src < |kinds| && dst < |kinds| && bw > 0
      modifies this`nbr2if, this`devices
      ensures Valid()
      ensures forall u, v :: !((u == src && v == dst) || (u == dst && v == src)) ==>
                LinkAt(nbr2if, u, v) == old(LinkAt(nbr2if, u, v))
      ensures Up(Network(), src, dst) && Up(Network(), dst, src)
      ensures LinkAt(nbr2if, src, dst).delay == LinkAt(nbr2if, dst, src).delay == delay
      ensures LinkAt(nbr2if, src, dst).bw == LinkAt(nbr2if, dst, src).bw == bw
      ensures src != dst ==>
                && LinkAt(nbr2if, src, dst).idx == (if src in old(devices) then old(devices)[src] else 1)
                && LinkAt(nbr2if, dst, src).idx == (if dst in old(devices) then old(devices)[dst] else 1)
    {
      hide WellFormed, DevicesOk, SetLink;
      ghost var net, before := Network(), devices;
      var i := InstallDevice(src);
      var j := InstallDevice(dst);
      nbr2if := SetLink(nbr2if, src, dst, Interface(i, true, delay, bw));
      nbr2if := SetLink(nbr2if, dst, src, Interface(j, true, delay, bw));
      NewLinkOk(net, before, takenDown, devices, src, dst, Interface(i, true, delay, bw),
                Interface(j, true, delay, bw));
    }

    method CalculateRoute(host: Node)
      requires Valid() && host < |kinds|
      modifies this`nextHop, this`pairDelay, this`pairTxDelay, this`pairBw
      ensures HopsAdded(Network(), host, old(nextHop), nextHop)
      ensures PairsRecorded(Network(), payload, host, old(pairDelay), old(pairTxDelay), old(pairBw),
                            pairDelay, pairTxDelay, pairBw)
    {
      hide HopsAdded, Witnessed, Dist;
      var delay, txDelay, bw := SearchFrom(host);
      pairDelay := RecordColumn(pairDelay, host, delay);
      pairTxDelay := RecordColumn(pairTxDelay, host, txDelay);
      pairBw := RecordColumn(pairBw, host, bw);
    }

    /** The breadth-first search; only switches are expanded further. */
    method SearchFrom(host: Node) returns (delay: map<Node, nat>, txDelay: map<Node, nat>, bw: map<Node, nat>)
      requires Valid() && host < |kinds|
      modifies this`nextHop
      ensures HopsAdded(Network(), host, old(nextHop), nextHop)
      ensures delay.Keys == txDelay.Keys == bw.Keys
      ensures forall v :: v in delay <==> Dist(Network(), host, v).Some?
      ensures forall v :: v in delay ==> Witnessed(Network(), payload, host, v, delay[v], txDelay[v], bw[v])
    {
      hide Inv, Labelled, HopsSoFar, HopsAdded, Witnessed, Dist, WellFormed, DevicesOk, AddHop, Hops, ScaledBits, Min;
      ghost var net, before := Network(), nextHop;
      var q: seq<Node> := [host];
      var dis: map<Node, nat> := map[host := 0];
      delay, txDelay, bw := map[host := 0], map[host := 0], map[host := U64 - 1];
      ghost var tree: map<Node, seq<Node>> := map[host := [host]];
      var i := 0;
      SearchStarts(net, payload, host, before);
      while i < |q|
        invariant i <= |q| && Inv(net, host, q, dis, tree, i) && Labelled(net, payload, dis, tree, delay, txDelay, bw)
        invariant HopsSoFar(net, host, q, dis, i, {}, before, nextHop)
        decreases |kinds| - i
      {
        ScanStarts(net, host, q, dis, tree, i, before, nextHop);
        var now := q[i];
        var d := dis[now];
        var rest := Row(nbr2if, now).Keys;
        while rest != {}
          invariant rest <= Row(nbr2if, now).Keys
          invariant Scanned(net, q, dis, i, rest) && now == q[i] && d == dis[now]
          invariant Inv(net, host, q, dis, tree, i) && Labelled(net, payload, dis, tree, delay, txDelay, bw)
          invariant HopsSoFar(net, host, q, dis, i + 1, rest, before, nextHop)
          decreases |rest|
        {
          var next :| next in rest;
          var link := nbr2if[now][next];
          ghost var lists := nextHop;
          if link.up {
            if next !in dis {
              VisitNew(net, payload, host, q, dis, tree, i, delay, txDelay, bw, next);
              VisitNewKeepsLists(net, host, q, dis, tree, i, rest, before, nextHop, next, d + 1);
              tree := tree[next := tree[now] + [next]];
              if kinds[next].Switch? {
                q := q + [next];
              }
              dis := dis[next := d + 1];
              delay := delay[next := (delay[now] + link.delay) % U64];
              txDelay := txDelay[next := (txDelay[now] + ScaledBits(payload) / link.bw) % U64];
              bw := bw[next := Min(bw[now], link.bw)];
            } else {
              NeighbourIsNear(net, host, q, dis, tree, i, next);
            }
            if d + 1 == dis[next] {
              nextHop := AddHop(nextHop, next, host, now);
            }
          }
          VisitHop(net, host, q, dis, i, rest, before, lists, nextHop, next);
          rest := rest - {next};
        }
        ScanEnds(net, host, q, dis, tree, i);
        i := i + 1;
      }
      ReachedAreWitnessed(net, payload, host, q, dis, tree, delay, txDelay, bw);
      ListsAreComplete(net, host, q, dis, tree, before, nextHop);
    }

    static method RecordColumn(m: Matrix, host: Node, column: map<Node, nat>) returns (r: Matrix)
      ensures forall v: Node, g: Node :: Cell(r, v, g) == if g == host && v in column then column[v] else Cell(m, v, g)
    {
      r := m;
      var rest := column.Keys;
      while rest != {}
        invariant rest <= column.Keys
        invariant forall v: Node, g: Node :: Cell(r, v, g) ==
                    if g == host && v in column && v !in rest then column[v] else Cell(m, v, g)
        decreases |rest|
      {
        var v :| v in rest;
        rest := rest - {v};
        r := SetCell(r, v, host, column[v]);
      }
    }

    /** One search per host; each host's lists are appended to what the next-hop map holds. */
    method CalculateRoutes()
      requires Valid()
      modifies this`nextHop, this`pairDelay, this`pairTxDelay, this`pairBw
      ensures forall v: Node, g: Node :: if IsHost(Network(), g)
                then AppendsHops(Network(), g, v, old(Hops(nextHop, v, g)), Hops(nextHop, v, g))
                else Hops(nextHop, v, g) == old(Hops(nextHop, v, g))
      ensures AllPairsRecorded(Network(), payload, |kinds|, old(pairDelay), old(pairTxDelay), old(pairBw),
                               pairDelay, pairTxDelay, pairBw)
    {
      hide AppendsHops, Witnessed, Dist, Hops, Cell, WellFormed, DevicesOk;
      ghost var net, before := Network(), nextHop;
      ghost var delay, tx, bw := pairDelay, pairTxDelay, pairBw;
      var i := 0;
      while i < |kinds|
        invariant i <= |kinds|
        invariant forall v: Node, g: Node :: if g < i && IsHost(net, g)
                    then AppendsHops(net, g, v, Hops(before, v, g), Hops(nextHop, v, g))
                    else Hops(nextHop, v, g) == Hops(before, v, g)
        invariant AllPairsRecorded(net, payload, i, delay, tx, bw, pairDelay, pairTxDelay, pairBw)
      {
        if kinds[i].Host? {
          CalculateRoute(i);
        }
        i := i + 1;
      }
    }

    /** Appends, for every recorded next hop, its interface to the table entry of the destination. */
    method SetRoutingEntries()
      requires Valid() && forall v: Node, g: Node :: Hops(nextHop, v, g) != [] ==> IsNode(Network(), g)
      modifies this`table
      ensures EntriesAdded(Network(), nextHop, {}, {}, 0, old(table), table)
    {
      hide EntriesAdded, RowExtended, AddTableEntry, Interfaces, NodeIdToIp, WellFormed, DevicesOk, Entries;
      ghost var net, before := Network(), table;
      NodeAddressesDistinct(|kinds|);
      var nodes := nextHop.Keys;
      NoEntriesYet(net, nextHop, table);
      while nodes != {}
        invariant nodes <= nextHop.Keys
        invariant EntriesAdded(net, nextHop, nodes, {}, 0, before, table)
        decreases |nodes|
      {
        var node :| node in nodes;
        var dests := nextHop[node].Keys;
        BeginNode(net, nextHop, nodes, node, before, table);
        nodes := nodes - {node};
        while dests != {}
          invariant node in nextHop && dests <= nextHop[node].Keys
          invariant EntriesAdded(net, nextHop, nodes, dests, node, before, table)
          decreases |dests|
        {
          var dst :| dst in dests;
          var nexts := nextHop[node][dst];
          ghost var start := table;
          var k := 0;
          RowStarts(net, table, node, NodeIdToIp(dst), nexts);
          while k < |nexts|
            invariant k <= |nexts|
            invariant RowExtended(start, table, node, NodeIdToIp(dst), Interfaces(net, node, nexts[..k]))
          {
            var interface := LinkAt(nbr2if, node, nexts[k]).idx;
            ExtendRow(net, start, table, node, NodeIdToIp(dst), nexts, k);
            table := AddTableEntry(table, node, NodeIdToIp(dst), interface);
            k := k + 1;
          }
          assert nexts[..k] == nexts;
          FinishDest(net, nextHop, nodes, dests, node, dst, before, start, table);
          dests := dests - {dst};
        }
        FinishNode(net, nextHop, nodes, node, before, table);
      }
    }

    /** Routes are right for the network and the tables hold exactly them. */
    ghost predicate Ready()
      reads this
    {
      && Valid()
      && Routed(Network(), nextHop)
      && Installed(Network(), nextHop, table)
    }

    /** First routing, after all links are added. */
    method SetUpRouting()
      requires Valid() && nextHop == map[] && table == map[]
      modifies this`nextHop, this`pairDelay, this`pairTxDelay, this`pairBw, this`table
      ensures Ready()
      ensures AllPairsRecorded(Network(), payload, |kinds|, old(pairDelay), old(pairTxDelay), old(pairBw),
                               pairDelay, pairTxDelay, pairBw)
    {
      hide Routed, Installed, EntriesAdded, AllPairsRecorded, AppendsHops, WellFormed, DevicesOk;
      CalculateRoutes();
      FreshRoutes(Network(), nextHop);
      RoutedTowardsNodes(Network(), nextHop);
      ghost var before := table;
      SetRoutingEntries();
      FreshEntries(Network(), nextHop, before, table);
    }

    method ClearTables()
      requires forall v: Node, ip: nat :: Entries(table, v, ip) != [] ==> v < |kinds|
      modifies this`table
      ensures forall v: Node, ip: nat :: Entries(table, v, ip) == []
    {
      var i := 0;
      while i < |kinds|
        invariant i <= |kinds|
        invariant forall v: Node, ip: nat :: Entries(table, v, ip) != [] ==> i <= v < |kinds|
      {
        table := ClearTable(table, i);
        i := i + 1;
      }
    }

    /** Routing from scratch, with the tables cleared. */
    method RouteAgain()
      requires Valid() && forall v: Node, ip: nat :: Entries(table, v, ip) != [] ==> v < |kinds|
      modifies this`nextHop, this`pairDelay, this`pairTxDelay, this`pairBw, this`table
      ensures Ready()
      ensures AllPairsRecorded(Network(), payload, |kinds|, old(pairDelay), old(pairTxDelay), old(pairBw),
                               pairDelay, pairTxDelay, pairBw)
    {
      hide Routed, Installed, EntriesAdded, AllPairsRecorded, AppendsHops, WellFormed, DevicesOk;
      nextHop := map[];
      CalculateRoutes();
      FreshRoutes(Network(), nextHop);
      RoutedTowardsNodes(Network(), nextHop);
      ClearTables();
      ghost var before := table;
      SetRoutingEntries();
      FreshEntries(Network(), nextHop, before, table);
    }

    /** Takes the link between a and b down and routes again. Nothing happens if it is not up. */
    method TakeDownLink(a: Node, b: Node)
      requires Ready() && a < |kinds| && b < |kinds|
      modifies this`nbr2if, this`nextHop, this`pairDelay, this`pairTxDelay, this`pairBw, this`table, this`takenDown
      ensures Ready()
      ensures old(Up(Network(), a, b)) ==>
                && Network() == WithoutLink(old(Network()), a, b)
                && takenDown == old(takenDown) +
                     {(a, old(LinkAt(nbr2if, a, b)).idx), (b, old(LinkAt(nbr2if, b, a)).idx)}
                && AllPairsRecorded(Network(), payload, |kinds|, old(pairDelay), old(pairTxDelay), old(pairBw),
                                    pairDelay, pairTxDelay, pairBw)
      ensures !old(Up(Network(), a, b)) ==>
                && nbr2if == old(nbr2if) && nextHop == old(nextHop) && table == old(table)
                && takenDown == old(takenDown)
                && pairDelay == old(pairDelay) && pairTxDelay == old(pairTxDelay) && pairBw == old(pairBw)
    {
      hide Routed, Installed, EntriesAdded, AllPairsRecorded, AppendsHops, WellFormed, DevicesOk;
      if !LinkAt(nbr2if, a, b).up {
        return;
      }
      LostLinkOk(Network(), devices, takenDown, a, b);
      InstalledAtNodes(Network(), nextHop, table);
      ghost var down := WithoutLink(Network(), a, b);
      nbr2if := SetLink(nbr2if, a, b, LinkAt(nbr2if, a, b).(up := false));
      nbr2if := SetLink(nbr2if, b, a, LinkAt(nbr2if, b, a).(up := false));
      takenDown := takenDown + {(a, LinkAt(nbr2if, a, b).idx), (b, LinkAt(nbr2if, b, a).idx)};
      RouteAgain();
    }

    /** Round-trip time and bandwidth-delay product of every host pair, and their maxima, in 64-bit
        arithmetic. */
    method ComputeBdp()
      modifies this`pairRtt, this`pairBdp, this`maxRtt, this`maxBdp
      ensures RttsComputed(kinds, pairDelay, pairTxDelay, pairBw, pairRtt, pairBdp, |kinds|, 0)
      ensures IsMaximum(kinds, pairRtt, maxRtt, |kinds|, 0) && IsMaximum(kinds, pairBdp, maxBdp, |kinds|, 0)
    {
      hide Rtt, Bdp, Cell, SetCell, IsMaximum, RttsComputed;
      NoPairsYet(kinds, pairDelay, pairTxDelay, pairBw, pairRtt, pairBdp);
      maxRtt, maxBdp := 0, 0;
      var i := 0;
      while i < |kinds|
        invariant i <= |kinds| && RttsComputed(kinds, pairDelay, pairTxDelay, pairBw, pairRtt, pairBdp, i, 0)
        invariant IsMaximum(kinds, pairRtt, maxRtt, i, 0) && IsMaximum(kinds, pairBdp, maxBdp, i, 0)
      {
        var j := 0;
        while kinds[i].Host? && j < |kinds|
          invariant j <= |kinds| && RttsComputed(kinds, pairDelay, pairTxDelay, pairBw, pairRtt, pairBdp, i, j)
          invariant IsMaximum(kinds, pairRtt, maxRtt, i, j) && IsMaximum(kinds, pairBdp, maxBdp, i, j)
        {
          if kinds[j].Host? {
            RttsStep(kinds, pairDelay, pairTxDelay, pairBw, pairRtt, pairBdp, i, j);
            var rtt := Rtt(Cell(pairDelay, i, j), Cell(pairTxDelay, i, j));
            var bdp := Bdp(rtt, Cell(pairBw, i, j));
            MaximumStep(kinds, pairBdp, maxBdp, i, j, bdp);
            MaximumStep(kinds, pairRtt, maxRtt, i, j, rtt);
            pairBdp := SetCell(pairBdp, i, j, bdp);
            pairRtt := SetCell(pairRtt, i, j, rtt);
            if bdp > maxBdp {
              maxBdp := bdp;
            }
            if rtt > maxRtt {
              maxRtt := rtt;
            }
          } else {
            SamePairs(kinds, pairDelay, pairTxDelay, pairBw, pairRtt, pairBdp, maxRtt, maxBdp, i, j, i, j + 1);
          }
          j := j + 1;
        }
        SamePairs(kinds, pairDelay, pairTxDelay, pairBw, pairRtt, pairBdp, maxRtt, maxBdp, i, j, i + 1, 0);
        i := i + 1;
      }
    }
  }
}
