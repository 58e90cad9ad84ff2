/** Breadth-first search from one host: what the loop keeps true, and what that says at its end. */
module Search {
  import opened Options
  import opened Topology

  /** The queue holds the root and the discovered switches, in order of distance, each once. */
  ghost predicate Queued(net: Net, h: Node, q: seq<Node>, dis: map<Node, nat>) {
    && q != [] && q[0] == h && h in dis && dis[h] == 0
    && Distinct(q)
    && (forall v :: v in q <==> v in dis && (v == h || IsSwitch(net, v)))
    && (forall a, b :: 0 <= a < b < |q| ==> dis[q[a]] <= dis[q[b]])
  }

  /** Only switches are queued: packets do not pass through a host. */
  function Enqueue(net: Net, q: seq<Node>, next: Node): (q': seq<Node>)
    ensures |q| <= |q'| && forall k :: 0 <= k < |q| ==> q'[k] == q[k]
  {
    if IsSwitch(net, next) then q + [next] else q
  }

  /** Every discovered node has a route of its recorded length. */
  ghost predicate Traced(net: Net, h: Node, dis: map<Node, nat>, tree: map<Node, seq<Node>>) {
    && tree.Keys == dis.Keys
    && (forall v :: v in dis ==> IsNode(net, v) && RouteTo(net, h, v, tree[v]) && |tree[v]| == dis[v] + 1)
  }

  ghost predicate Discovered(net: Net, h: Node, q: seq<Node>, dis: map<Node, nat>, tree: map<Node, seq<Node>>) {
    Queued(net, h, q, dis) && Traced(net, h, dis, tree)
  }

  /** The neighbours of the first i queue entries are all discovered, at most one hop further. */
  ghost predicate Closed(net: Net, q: seq<Node>, dis: map<Node, nat>, i: nat)
    requires i <= |q|
  {
    forall k, w :: 0 <= k < i && Up(net, q[k], w) ==> q[k] in dis && w in dis && dis[w] <= dis[q[k]] + 1
  }

  ghost predicate Inv(net: Net, h: Node, q: seq<Node>, dis: map<Node, nat>, tree: map<Node, seq<Node>>, i: nat) {
    && Discovered(net, h, q, dis, tree)
    && i <= |q|
    && Closed(net, q, dis, i)
    && (i < |q| ==> forall v :: v in dis ==> dis[v] <= dis[q[i]] + 1)
  }

  /** The next hops recorded for v by the first k queue entries. */
  ghost function HopsAmong(net: Net, dis: map<Node, nat>, q: seq<Node>, k: nat, v: Node): seq<Node>
    requires k <= |q|
  {
    if k == 0 then []
    else
      HopsAmong(net, dis, q, k - 1, v) +
      if IsNearer(net, dis, q[k - 1], v) then [q[k - 1]] else []
  }

  ghost predicate IsNearer(net: Net, dis: map<Node, nat>, u: Node, v: Node) {
    Up(net, u, v) && u in dis && v in dis && dis[v] == dis[u] + 1
  }

  lemma QueueBound(net: Net, h: Node, q: seq<Node>, dis: map<Node, nat>, tree: map<Node, seq<Node>>)
    requires Discovered(net, h, q, dis, tree)
    ensures |q| <= |net.kinds|
  {
    DistinctBound(q, |net.kinds|);
  }

  lemma DiscoverTraced(net: Net, h: Node, dis: map<Node, nat>, tree: map<Node, seq<Node>>, now: Node, next: Node)
    requires WellFormed(net) && Traced(net, h, dis, tree)
    requires now in dis && Up(net, now, next) && next !in dis
    requires now == h ==> dis[h] == 0
    requires now == h || IsSwitch(net, now)
    ensures Traced(net, h, dis[next := dis[now] + 1], tree[next := tree[now] + [next]])
  {
    var p := tree[now] + [next];
    assert p[..|p| - 1] == tree[now] && p[|p| - 2] == now;
    assert RouteTo(net, h, next, p);
    assert Up(net, next, now);
  }

  lemma DiscoverQueued(net: Net, h: Node, q: seq<Node>, dis: map<Node, nat>, next: Node, d: nat)
    requires Queued(net, h, q, dis) && next !in dis
    requires forall v :: v in dis ==> dis[v] <= d
    ensures Queued(net, h, Enqueue(net, q, next), dis[next := d])
  {
    var q' := Enqueue(net, q, next);
    assert next !in q;
    forall v ensures v in q' <==> v in dis[next := d] && (v == h || IsSwitch(net, v)) {
      assert v in q' <==> v in q || (IsSwitch(net, next) && v == next);
    }
    assert forall k :: 0 <= k < |q| ==> q[k] in q && q'[k] == q[k];
  }

  lemma DiscoverClosed(net: Net, q: seq<Node>, q': seq<Node>, dis: map<Node, nat>, i: nat, next: Node, d: nat)
    requires i <= |q| <= |q'| && forall k :: 0 <= k < |q| ==> q'[k] == q[k]
    requires Closed(net, q, dis, i) && next !in dis
    ensures Closed(net, q', dis[next := d], i)
  {
    forall k, w | 0 <= k < i && Up(net, q'[k], w)
      ensures q'[k] in dis && w in dis && dis[w] <= dis[q'[k]] + 1
    {
      assert q'[k] == q[k];
    }
  }

  /** One discovery keeps the invariant. */
  lemma Discover(net: Net, h: Node, q: seq<Node>, dis: map<Node, nat>, tree: map<Node, seq<Node>>, i: nat, next: Node)
    requires WellFormed(net) && Inv(net, h, q, dis, tree, i) && i < |q|
    requires Up(net, q[i], next) && next !in dis
    ensures q[i] in dis
    ensures Inv(net, h, Enqueue(net, q, next),
                dis[next := dis[q[i]] + 1], tree[next := tree[q[i]] + [next]], i)
  {
    assert q[i] in q;
    DiscoverTraced(net, h, dis, tree, q[i], next);
    DiscoverQueued(net, h, q, dis, next, dis[q[i]] + 1);
    DiscoverClosed(net, q, Enqueue(net, q, next), dis, i, next, dis[q[i]] + 1);
  }

  /** A discovery does not change the next hops recorded by earlier queue entries. */
  lemma {:induction false} DiscoverKeepsHops(net: Net, h: Node, q: seq<Node>, dis: map<Node, nat>, i: nat, next: Node,
                                             d: nat, k: nat, v: Node)
    requires i <= |q| && k <= i && Closed(net, q, dis, i) && next !in dis
    ensures HopsAmong(net, dis[next := d], Enqueue(net, q, next), k, v)
            == HopsAmong(net, dis, q, k, v)
  {
    if k > 0 {
      DiscoverKeepsHops(net, h, q, dis, i, next, d, k - 1, v);
      var u := q[k - 1];
      if Up(net, u, v) { assert u in dis && v in dis; }
      assert IsNearer(net, dis[next := d], u, v) == IsNearer(net, dis, u, v);
    }
  }

  /** Once the whole queue is processed, every route ends at a discovered node and is no shorter
      than the recorded distance. */
  lemma {:induction false} RouteIsDiscovered(net: Net, h: Node, q: seq<Node>, dis: map<Node, nat>,
                                             tree: map<Node, seq<Node>>,
                                             p: seq<Node>)
    requires Inv(net, h, q, dis, tree, |q|) && Route(net, h, p)
    ensures Last(p) in dis && dis[Last(p)] + 1 <= |p|
    decreases |p|
  {
    if |p| > 1 {
      var p' := p[..|p| - 1];
      RouteIsDiscovered(net, h, q, dis, tree, p');
      assert Last(p') == p[|p| - 2] && (|p'| == 1 ==> Last(p') == h);
      assert Last(p') in q;
    }
  }

  /** The recorded distances are the hop distances, and unrecorded nodes cannot be reached. */
  lemma DistancesExact(net: Net, h: Node, q: seq<Node>, dis: map<Node, nat>, tree: map<Node, seq<Node>>, v: Node)
    requires Inv(net, h, q, dis, tree, |q|)
    ensures Dist(net, h, v) == if v in dis then Some(dis[v]) else None
  {
    if v in dis {
      forall p | RouteTo(net, h, v, p) ensures dis[v] + 1 <= |p| {
        RouteIsDiscovered(net, h, q, dis, tree, p);
      }
      assert RouteTo(net, h, v, tree[v]);
      assert DistIs(net, h, v, dis[v]);
      DistUnique(net, h, v, dis[v]);
    } else if Dist(net, h, v).Some? {
      var p := ShortestRoute(net, h, v);
      RouteIsDiscovered(net, h, q, dis, tree, p);
    }
  }

  lemma {:induction false} HopsAmongMembers(net: Net, dis: map<Node, nat>, q: seq<Node>, k: nat, v: Node)
    requires k <= |q| && Distinct(q)
    ensures forall u :: u in HopsAmong(net, dis, q, k, v) <==> u in q[..k] && IsNearer(net, dis, u, v)
    ensures Distinct(HopsAmong(net, dis, q, k, v))
  {
    if k > 0 {
      HopsAmongMembers(net, dis, q, k - 1, v);
      assert q[..k] == q[..k - 1] + [q[k - 1]];
      assert q[k - 1] !in q[..k - 1];
    }
  }

  lemma NearerIsHop(net: Net, h: Node, q: seq<Node>, dis: map<Node, nat>, tree: map<Node, seq<Node>>, v: Node, u: Node)
    requires Inv(net, h, q, dis, tree, |q|)
    ensures u in q && IsNearer(net, dis, u, v) <==> IsHop(net, h, v, u)
  {
    hide Dist, Closed, RouteTo, Distinct;
    DistancesExact(net, h, q, dis, tree, v);
    DistancesExact(net, h, q, dis, tree, u);
    assert u in q <==> u in dis && (u == h || IsSwitch(net, u));
  }

  /** The recorded next hops are exactly the equal-cost neighbours, each once. */
  lemma HopsExact(net: Net, h: Node, q: seq<Node>, dis: map<Node, nat>, tree: map<Node, seq<Node>>, v: Node)
    requires Inv(net, h, q, dis, tree, |q|)
    ensures HoldsExactlyHops(net, h, v, HopsAmong(net, dis, q, |q|, v))
  {
    HopsAmongMembers(net, dis, q, |q|, v);
    var hops := HopsAmong(net, dis, q, |q|, v);
    assert q[..|q|] == q;
    forall u ensures u in hops <==> IsHop(net, h, v, u) {
      NearerIsHop(net, h, q, dis, tree, v, u);
    }
  }
}
