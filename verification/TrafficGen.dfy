/** The traffic generator: per-host arrival processes merged by a heap into one list of flows. Random
    draws are arbitrary inputs. */
module TrafficGen {
  import opened Options
  import opened FlowScheduling

  /** A heap entry: the next arrival of a host. Entries compare by time, then host. */
  datatype Arrival = Arrival(t: nat, src: nat)

  predicate Precedes(a: Arrival, b: Arrival) {
    a.t < b.t || (a.t == b.t && a.src <= b.src)
  }

  datatype Flow = Flow(src: nat, dst: nat, size: nat, t: nat)

  /** The draws of one round of the loop: the gap, the destination finally drawn for each possible
      source, and the size. */
  datatype Draw = Draw(gap: nat, dst: nat -> nat, size: int)

  /** The destination redraw has ended: another host. */
  ghost predicate PicksOthers(d: Draw, n: nat) {
    forall s: nat :: s < n ==> d.dst(s) < n && d.dst(s) != s
  }

  // ----- what the draws determine, without a heap

  /** One round: a flow is emitted, or a host leaves. Round k uses draw k. */
  datatype Event = Emit(flow: Flow) | Drop(host: nat)

  function HostOf(e: Event): nat {
    match e
    case Emit(f) => f.src
    case Drop(h) => h
  }

  /** The next arrival of a host after some rounds: its first arrival, then one drawn gap after each of its
      flows; None once it has left. */
  function Next(first: seq<nat>, draws: seq<Draw>, events: seq<Event>, h: nat): Option<nat>
    requires h < |first| && |events| <= |draws|
    decreases |events|
  {
    if events == [] then Some(first[h])
    else
      var k := |events| - 1;
      match events[k]
      case Emit(f) => if f.src == h then Some(f.t + draws[k].gap) else Next(first, draws, events[..k], h)
      case Drop(g) => if g == h then None else Next(first, draws, events[..k], h)
  }

  /** The host's next arrival comes before those of all other hosts that have not left. */
  ghost predicate IsLeast(first: seq<nat>, draws: seq<Draw>, events: seq<Event>, h: nat)
    requires |events| <= |draws|
  {
    && h < |first| && Next(first, draws, events, h).Some?
    && forall g: nat :: g < |first| && Next(first, draws, events, g).Some? ==>
         Precedes(Arrival(Next(first, draws, events, h).value, h), Arrival(Next(first, draws, events, g).value, g))
  }

  /** The least host arrives first and, of those that arrive at the same time, has the smallest number. */
  lemma LeastArrivesFirst(first: seq<nat>, draws: seq<Draw>, events: seq<Event>, h: nat, g: nat)
    requires |events| <= |draws| && IsLeast(first, draws, events, h)
    requires g < |first| && Next(first, draws, events, g).Some?
    ensures Next(first, draws, events, h).value <= Next(first, draws, events, g).value
    ensures Next(first, draws, events, h) == Next(first, draws, events, g) ==> h <= g
  {
    hide Next;
  }

  /** The only thing that the next round may do: the least host leaves if the gap drawn takes it past the
      end; otherwise its flow is emitted, with the destination and the size drawn. */
  ghost predicate IsRound(first: seq<nat>, limit: nat, draws: seq<Draw>, before: seq<Event>, e: Event) {
    && |before| < |draws|
    && IsLeast(first, draws, before, HostOf(e))
    && var h, draw := HostOf(e), draws[|before|];
       var t := Next(first, draws, before, h).value;
       if t + draw.gap > limit then e == Drop(h)
       else e == Emit(Flow(h, draw.dst(h), if draw.size <= 0 then 1 else draw.size, t))
  }

  ghost predicate IsRun(first: seq<nat>, limit: nat, draws: seq<Draw>, events: seq<Event>)
    decreases |events|
  {
    && |events| <= |draws|
    && (events != [] ==>
          && IsRun(first, limit, draws, events[..|events| - 1])
          && IsRound(first, limit, draws, events[..|events| - 1], events[|events| - 1]))
  }

  function FlowsOf(events: seq<Event>): seq<Flow>
    decreases |events|
  {
    if events == [] then []
    else
      var k := |events| - 1;
      FlowsOf(events[..k]) + if events[k].Emit? then [events[k].flow] else []
  }

  predicate TimeOrdered(flows: seq<Flow>) {
    forall i :: 0 < i < |flows| ==> flows[i - 1].t <= flows[i].t
  }

  predicate AllGapsPositive(draws: seq<Draw>) {
    forall k :: 0 <= k < |draws| ==> draws[k].gap >= 1
  }

  lemma NextAfter(first: seq<nat>, draws: seq<Draw>, events: seq<Event>, e: Event, h: nat)
    requires h < |first| && |events| < |draws|
    ensures Next(first, draws, events + [e], h)
            == if HostOf(e) != h then Next(first, draws, events, h)
               else if e.Emit? then Some(e.flow.t + draws[|events|].gap) else None
  {
    assert (events + [e])[..|events|] == events;
  }

  /** The draws determine the run: two runs of one length are the same. */
  lemma {:induction false} RunDetermined(first: seq<nat>, limit: nat, draws: seq<Draw>, a: seq<Event>, b: seq<Event>)
    requires IsRun(first, limit, draws, a) && IsRun(first, limit, draws, b) && |a| == |b|
    ensures a == b
    decreases |a|
  {
    hide Next;
    if a != [] {
      var k := |a| - 1;
      RunDetermined(first, limit, draws, a[..k], b[..k]);
      assert a == a[..k] + [a[k]] && b == b[..k] + [b[k]];
    }
  }

  /** A round is at the least next arrival, and moves none back. */
  lemma RoundAdvances(first: seq<nat>, limit: nat, draws: seq<Draw>, events: seq<Event>, e: Event, h: nat)
    requires IsRound(first, limit, draws, events, e)
    requires h < |first| && Next(first, draws, events + [e], h).Some?
    ensures Next(first, draws, events, h).Some? && (e.Emit? ==> e.flow.t <= Next(first, draws, events, h).value)
    ensures Next(first, draws, events, h).value <= Next(first, draws, events + [e], h).value
  {
    hide Next;
    NextAfter(first, draws, events, e, h);
  }

  /** No next arrival is earlier than a flow already emitted. */
  ghost predicate NoneEarlier(first: seq<nat>, draws: seq<Draw>, events: seq<Event>, t: nat)
    requires |events| <= |draws|
  {
    forall h: nat :: h < |first| && Next(first, draws, events, h).Some? ==> t <= Next(first, draws, events, h).value
  }

  /** Flows come in order of their start times. */
  lemma {:induction false} RunOrdered(first: seq<nat>, limit: nat, draws: seq<Draw>, events: seq<Event>)
    requires IsRun(first, limit, draws, events)
    ensures var flows := FlowsOf(events);
            TimeOrdered(flows) && (flows != [] ==> NoneEarlier(first, draws, events, flows[|flows| - 1].t))
    decreases |events|
  {
    hide Next, NoneEarlier, IsRound;
    if events != [] {
      var k := |events| - 1;
      var front, e := events[..k], events[k];
      RunOrdered(first, limit, draws, front);
      assert events == front + [e];
      var flows := FlowsOf(front);
      RoundKeepsOrder(first, limit, draws, front, e, if flows == [] then 0 else flows[|flows| - 1].t);
    }
  }

  lemma RoundKeepsOrder(first: seq<nat>, limit: nat, draws: seq<Draw>, events: seq<Event>, e: Event, t: nat)
    requires IsRound(first, limit, draws, events, e)
    requires t == 0 || NoneEarlier(first, draws, events, t)
    ensures NoneEarlier(first, draws, events + [e], t)
    ensures e.Emit? ==> t <= e.flow.t && NoneEarlier(first, draws, events + [e], e.flow.t)
  {
    hide Next;
    forall h: nat | h < |first| && Next(first, draws, events + [e], h).Some?
      ensures t <= Next(first, draws, events + [e], h).value
      ensures e.Emit? ==> e.flow.t <= Next(first, draws, events + [e], h).value
    {
      RoundAdvances(first, limit, draws, events, e, h);
    }
  }

  /** Flow i was emitted in a round of its own, by the least host of that round, with that round's draws;
      the earlier rounds emitted the flows before it. */
  lemma {:induction false} FlowIsDrawn(first: seq<nat>, limit: nat, draws: seq<Draw>, events: seq<Event>, i: nat)
    returns (k: nat)
    requires IsRun(first, limit, draws, events) && i < |FlowsOf(events)|
    ensures k < |events| && events[k] == Emit(FlowsOf(events)[i]) && FlowsOf(events[..k]) == FlowsOf(events)[..i]
    ensures IsRound(first, limit, draws, events[..k], events[k])
    decreases |events|
  {
    hide IsRound;
    k := |events| - 1;
    if i < |FlowsOf(events[..k])| {
      var n := k;
      k := FlowIsDrawn(first, limit, draws, events[..n], i);
      assert events[..n][..k] == events[..k];
    }
  }

  /** A round without a flow took its draw as well: the least host left, because the gap was too long. */
  lemma {:induction false} DropIsDrawn(first: seq<nat>, limit: nat, draws: seq<Draw>, events: seq<Event>, k: nat)
    requires IsRun(first, limit, draws, events) && k < |events| && events[k].Drop?
    ensures IsLeast(first, draws, events[..k], events[k].host)
    ensures Next(first, draws, events[..k], events[k].host).value + draws[k].gap > limit
    decreases |events|
  {
    hide Next;
    var n := |events| - 1;
    if k < n {
      DropIsDrawn(first, limit, draws, events[..n], k);
      assert events[..n][..k] == events[..k];
    }
  }

  /** Every flow goes from a host to another one, has positive size and starts before the end. */
  lemma FlowsAreSound(first: seq<nat>, limit: nat, draws: seq<Draw>, events: seq<Event>, i: nat)
    requires IsRun(first, limit, draws, events) && i < |FlowsOf(events)|
    requires forall k :: 0 <= k < |draws| ==> PicksOthers(draws[k], |first|)
    ensures var f := FlowsOf(events)[i];
            f.src < |first| && f.dst < |first| && f.dst != f.src && f.size > 0 && f.t <= limit
  {
    hide Next, IsRun;
    var k := FlowIsDrawn(first, limit, draws, events, i);
  }

  // ----- bounds on the number of rounds

  /** How many rounds a host can still have, with gaps of at least one. */
  function RoundsLeft(limit: nat, next: Option<nat>): nat {
    if next.None? then 0 else if next.value > limit then 1 else limit + 1 - next.value
  }

  ghost function AllRoundsLeft(first: seq<nat>, limit: nat, draws: seq<Draw>, events: seq<Event>, n: nat): nat
    requires n <= |first| && |events| <= |draws|
  {
    if n == 0 then 0
    else AllRoundsLeft(first, limit, draws, events, n - 1) + RoundsLeft(limit, Next(first, draws, events, n - 1))
  }

  lemma {:induction false} RoundTakesOne(first: seq<nat>, limit: nat, draws: seq<Draw>, events: seq<Event>, e: Event,
                                         n: nat)
    requires IsRound(first, limit, draws, events, e) && draws[|events|].gap >= 1 && n <= |first|
    ensures AllRoundsLeft(first, limit, draws, events + [e], n) + (if HostOf(e) < n then 1 else 0)
            <= AllRoundsLeft(first, limit, draws, events, n)
  {
    hide Next;
    if n > 0 {
      RoundTakesOne(first, limit, draws, events, e, n - 1);
      NextAfter(first, draws, events, e, n - 1);
    }
  }

  lemma {:induction false} RoundsAtFirst(first: seq<nat>, limit: nat, draws: seq<Draw>, n: nat)
    requires n <= |first|
    ensures AllRoundsLeft(first, limit, draws, [], n) <= n * (limit + 1)
  {
    if n > 0 {
      RoundsAtFirst(first, limit, draws, n - 1);
      assert n * (limit + 1) == (n - 1) * (limit + 1) + (limit + 1);
    }
  }

  /** With gaps of at least one, no host has more rounds than there are nanoseconds to the end, and one. */
  lemma {:induction false} RoundsBounded(first: seq<nat>, limit: nat, draws: seq<Draw>, events: seq<Event>)
    requires IsRun(first, limit, draws, events) && AllGapsPositive(draws)
    ensures |events| + AllRoundsLeft(first, limit, draws, events, |first|) <= |first| * (limit + 1)
    decreases |events|
  {
    hide AllRoundsLeft, Next;
    if events == [] {
      RoundsAtFirst(first, limit, draws, |first|);
    } else {
      var k := |events| - 1;
      assert events == events[..k] + [events[k]];
      RoundsBounded(first, limit, draws, events[..k]);
      RoundTakesOne(first, limit, draws, events[..k], events[k], |first|);
    }
  }

  lemma {:induction false} SomeRoundLeft(first: seq<nat>, limit: nat, draws: seq<Draw>, events: seq<Event>, h: nat,
                                         n: nat)
    requires h < n <= |first| && |events| <= |draws| && Next(first, draws, events, h).Some?
    ensures AllRoundsLeft(first, limit, draws, events, n) > 0
  {
    hide Next;
    if h < n - 1 {
      SomeRoundLeft(first, limit, draws, events, h, n - 1);
    }
  }

  // ----- the heap

  /** What the heap functions of the library promise and the loop relies on: the front is least. */
  predicate HeapOrdered(heap: seq<Arrival>) {
    forall k :: 0 <= k < |heap| ==> Precedes(heap[0], heap[k])
  }

  /** Any rearrangement with the least entry in front. */
  method BringLeastForward(list: seq<Arrival>) returns (heap: seq<Arrival>)
    ensures HeapOrdered(heap) && multiset(heap) == multiset(list) && |heap| == |list|
  {
    if list == [] {
      return [];
    }
    var m := 0;
    for i := 1 to |list|
      invariant 0 <= m < |list| && forall k :: 0 <= k < i ==> Precedes(list[m], list[k])
    {
      if Precedes(list[i], list[m]) {
        m := i;
      }
    }
    heap := list[0 := list[m]][m := list[0]];
  }

  /** How often an arrival is in the heap: once if it is the next of its host. */
  function Times(first: seq<nat>, draws: seq<Draw>, events: seq<Event>, a: Arrival): nat
    requires |events| <= |draws|
  {
    if a.src < |first| && Next(first, draws, events, a.src) == Some(a.t) then 1 else 0
  }

  /** The heap holds the next arrival of each host that has not left, once, and nothing else. */
  ghost predicate HeapOk(first: seq<nat>, draws: seq<Draw>, events: seq<Event>, heap: multiset<Arrival>)
    requires |events| <= |draws|
  {
    forall a :: heap[a] == Times(first, draws, events, a)
  }

  /** The front of the heap is the least host. */
  lemma FrontIsLeast(first: seq<nat>, draws: seq<Draw>, events: seq<Event>, heap: seq<Arrival>)
    requires heap != [] && HeapOrdered(heap) && |events| <= |draws| && HeapOk(first, draws, events, multiset(heap))
    ensures heap[0].src < |first| && Next(first, draws, events, heap[0].src) == Some(heap[0].t)
    ensures IsLeast(first, draws, events, heap[0].src)
  {
    hide Next, Precedes;
    assert heap[0] in multiset(heap);
    forall g: nat | g < |first| && Next(first, draws, events, g).Some?
      ensures Precedes(heap[0], Arrival(Next(first, draws, events, g).value, g))
    {
      var a := Arrival(Next(first, draws, events, g).value, g);
      assert multiset(heap)[a] == Times(first, draws, events, a) == 1 && a in heap;
    }
  }

  lemma TimesAfter(first: seq<nat>, draws: seq<Draw>, events: seq<Event>, e: Event, t: nat, a: Arrival)
    requires |events| < |draws| && HostOf(e) < |first| && Next(first, draws, events, HostOf(e)) == Some(t)
    requires e.Emit? ==> e.flow.t == t
    ensures Times(first, draws, events, Arrival(t, HostOf(e))) == 1
    ensures Times(first, draws, events + [e], a)
            == Times(first, draws, events, a) - (if a == Arrival(t, HostOf(e)) then 1 else 0)
               + if e.Emit? && a == Arrival(t + draws[|events|].gap, HostOf(e)) then 1 else 0
  {
    hide Next;
    if a.src < |first| {
      NextAfter(first, draws, events, e, a.src);
    }
  }

  /** A round keeps the heap right: the front entry goes, and comes back with its next arrival if the host
      has not left. */
  lemma RoundKeepsHeap(first: seq<nat>, draws: seq<Draw>, events: seq<Event>, heap: multiset<Arrival>, e: Event,
                       t: nat, heap': multiset<Arrival>)
    requires |events| < |draws| && HeapOk(first, draws, events, heap)
    requires HostOf(e) < |first| && Next(first, draws, events, HostOf(e)) == Some(t) && (e.Emit? ==> e.flow.t == t)
    requires heap' == heap - multiset{Arrival(t, HostOf(e))} +
                        if e.Emit? then multiset{Arrival(t + draws[|events|].gap, HostOf(e))} else multiset{}
    ensures HeapOk(first, draws, events + [e], heap')
  {
    hide Times, Next;
    var front := Arrival(t, HostOf(e));
    var next := if e.Emit? then multiset{Arrival(t + draws[|events|].gap, HostOf(e))} else multiset{};
    assert heap[front] == Times(first, draws, events, front);
    forall a ensures heap'[a] == Times(first, draws, events + [e], a) {
      TimesAfter(first, draws, events, e, t, a);
      assert heap[a] == Times(first, draws, events, a);
      assert heap'[a] == heap[a] - multiset{front}[a] + next[a];
    }
  }

  lemma ReplaceFront(heap: seq<Arrival>, next: Arrival)
    requires heap != []
    ensures multiset(heap[1..]) == multiset(heap) - multiset{heap[0]} == multiset(heap) - multiset{heap[0]} + multiset{}
    ensures multiset(heap[1..] + [next]) == multiset(heap) - multiset{heap[0]} + multiset{next}
  {
    assert heap == [heap[0]] + heap[1..];
    assert multiset(heap) == multiset{heap[0]} + multiset(heap[1..]);
    assert multiset(heap) - multiset{heap[0]} == multiset(heap[1..]);
    assert multiset(heap[1..] + [next]) == multiset(heap[1..]) + multiset{next};
  }

  lemma RunExtends(first: seq<nat>, limit: nat, draws: seq<Draw>, events: seq<Event>, e: Event)
    requires |events| < |draws| && IsRun(first, limit, draws, events) && IsRound(first, limit, draws, events, e)
    ensures IsRun(first, limit, draws, events + [e])
    ensures FlowsOf(events + [e]) == FlowsOf(events) + if e.Emit? then [e.flow] else []
  {
    hide IsRound;
    assert (events + [e])[..|events|] == events;
  }

  lemma InitialHeapOk(first: seq<nat>, draws: seq<Draw>, list: seq<Arrival>)
    requires |list| == |first| && forall i :: 0 <= i < |list| ==> list[i] == Arrival(first[i], i)
    ensures HeapOk(first, draws, [], multiset(list))
  {
    forall a ensures multiset(list)[a] == Times(first, draws, [], a) {
      InitialOnce(first, list, |list|, a);
      assert list[..|list|] == list;
    }
  }

  lemma {:induction false} InitialOnce(first: seq<nat>, list: seq<Arrival>, n: nat, a: Arrival)
    requires n <= |list| == |first| && forall i :: 0 <= i < |list| ==> list[i] == Arrival(first[i], i)
    ensures multiset(list[..n])[a] == if a.src < n && first[a.src] == a.t then 1 else 0
  {
    if n > 0 {
      InitialOnce(first, list, n - 1, a);
      assert list[..n] == list[..n - 1] + [list[n - 1]];
    }
  }

  /** A round that emits the flow of the front entry. */
  lemma EmitRound(first: seq<nat>, limit: nat, draws: seq<Draw>, events: seq<Event>, heap: seq<Arrival>, e: Event)
    requires heap != [] && HeapOrdered(heap) && |events| < |draws| && HeapOk(first, draws, events, multiset(heap))
    requires IsRun(first, limit, draws, events) && heap[0].t + draws[|events|].gap <= limit
    requires var (a, draw) := (heap[0], draws[|events|]);
             e == Emit(Flow(a.src, draw.dst(a.src), if draw.size <= 0 then 1 else draw.size, a.t))
    ensures IsRun(first, limit, draws, events + [e]) && FlowsOf(events + [e]) == FlowsOf(events) + [e.flow]
    ensures HeapOk(first, draws, events + [e],
                   multiset(heap[1..] + [Arrival(heap[0].t + draws[|events|].gap, heap[0].src)]))
  {
    hide HeapOk, HeapOrdered, Next, IsRun, FlowsOf, IsLeast;
    FrontIsLeast(first, draws, events, heap);
    RunExtends(first, limit, draws, events, e);
    var next := Arrival(heap[0].t + draws[|events|].gap, heap[0].src);
    ReplaceFront(heap, next);
    RoundKeepsHeap(first, draws, events, multiset(heap), e, heap[0].t, multiset(heap[1..] + [next]));
  }

  /** A round that drops it. */
  lemma DropRound(first: seq<nat>, limit: nat, draws: seq<Draw>, events: seq<Event>, heap: seq<Arrival>)
    requires heap != [] && HeapOrdered(heap) && |events| < |draws| && HeapOk(first, draws, events, multiset(heap))
    requires IsRun(first, limit, draws, events) && heap[0].t + draws[|events|].gap > limit
    ensures var events' := events + [Drop(heap[0].src)];
            && IsRun(first, limit, draws, events') && FlowsOf(events') == FlowsOf(events)
            && HeapOk(first, draws, events', multiset(heap[1..]))
  {
    hide HeapOk, HeapOrdered, Next, IsRun, FlowsOf, IsLeast;
    FrontIsLeast(first, draws, events, heap);
    RunExtends(first, limit, draws, events, Drop(heap[0].src));
    ReplaceFront(heap, heap[0]);
    RoundKeepsHeap(first, draws, events, multiset(heap), Drop(heap[0].src), heap[0].t, multiset(heap[1..]));
  }

  // ----- the generator

  /** Emits flows until every host has left, or the draws run out. The first arrivals and the end are
      absolute times in nanoseconds. The flows are those of the one run that the draws determine. */
  method GenerateFlows(first: seq<nat>, limit: nat, draws: seq<Draw>)
    returns (flows: seq<Flow>, nFlow: nat, heap: seq<Arrival>, ghost events: seq<Event>)
    ensures IsRun(first, limit, draws, events) && flows == FlowsOf(events) && nFlow == |flows| && TimeOrdered(flows)
    ensures HeapOk(first, draws, events, multiset(heap)) && (heap != [] ==> |events| == |draws|)
    ensures AllGapsPositive(draws) && |draws| >= |first| * (limit + 1) ==> heap == []
  {
    hide HeapOk, HeapOrdered, IsRun, FlowsOf, Precedes, TimeOrdered;
    var list := seq(|first|, i requires 0 <= i < |first| => Arrival(first[i], i));
    flows, nFlow, events := [], 0, [];
    heap := BringLeastForward(list);
    InitialHeapOk(first, draws, list);
    assert IsRun(first, limit, draws, []) && FlowsOf([]) == [] by { NothingRun(first, limit, draws); }
    var k := 0;
    while |heap| > 0 && k < |draws|
      invariant k == |events| <= |draws| && nFlow == |flows| && flows == FlowsOf(events)
      invariant IsRun(first, limit, draws, events)
      invariant HeapOrdered(heap) && HeapOk(first, draws, events, multiset(heap))
      decreases |draws| - k
    {
      var t, src, draw := heap[0].t, heap[0].src, draws[k];
      if t + draw.gap > limit {
        DropRound(first, limit, draws, events, heap);
        events := events + [Drop(src)];
        heap := BringLeastForward(heap[1..]);
      } else {
        var size := if draw.size <= 0 then 1 else draw.size;
        var f := Flow(src, draw.dst(src), size, t);
        EmitRound(first, limit, draws, events, heap, Emit(f));
        nFlow := nFlow + 1;
        flows := flows + [f];
        events := events + [Emit(f)];
        heap := BringLeastForward(heap[1..] + [Arrival(t + draw.gap, src)]);
      }
      k := k + 1;
    }
    RunOrdered(first, limit, draws, events);
    if AllGapsPositive(draws) && heap != [] {
      StillRunning(first, limit, draws, events, heap);
    }
  }

  lemma NothingRun(first: seq<nat>, limit: nat, draws: seq<Draw>)
    ensures IsRun(first, limit, draws, []) && FlowsOf([]) == []
  {
  }

  lemma StillRunning(first: seq<nat>, limit: nat, draws: seq<Draw>, events: seq<Event>, heap: seq<Arrival>)
    requires |events| <= |draws| && IsRun(first, limit, draws, events) && AllGapsPositive(draws)
    requires heap != [] && HeapOrdered(heap) && HeapOk(first, draws, events, multiset(heap))
    ensures |events| < |first| * (limit + 1)
  {
    hide HeapOk, HeapOrdered, Next, IsRun;
    FrontIsLeast(first, draws, events, heap);
    RoundsBounded(first, limit, draws, events);
    SomeRoundLeft(first, limit, draws, events, heap[0].src, |first|);
  }

  // ----- into the simulation

  /** The line of a flow: priority group 3, destination port 100. */
  function ToInput(f: Flow): FlowInput {
    FlowInput(f.src, f.dst, 3, 100, f.size, f.t)
  }

  function ToInputs(flows: seq<Flow>): (r: seq<FlowInput>)
    ensures |r| == |flows| && forall i :: 0 <= i < |r| ==> r[i] == ToInput(flows[i])
  {
    seq(|flows|, i requires 0 <= i < |flows| => ToInput(flows[i]))
  }

  function HostIds(n: nat): (r: set<nat>)
    ensures forall h: nat :: h in r <==> h < n
  {
    if n == 0 then {} else HostIds(n - 1) + {n - 1}
  }

  /** The flow was started as generated: from its source to its destination, with its size, in priority group
      3 to destination port 100, at its time. */
  predicate StartedAsGenerated(f: Flow, s: Started) {
    && s.flow.src == f.src && s.flow.dst == f.dst && s.flow.size == f.size
    && s.flow.pg == 3 && s.flow.dport == 100 && s.time == f.t
  }

  lemma StartsAreGenerated(flows: seq<Flow>, log: seq<Started>)
    requires StartedExactly(ToInputs(flows), |flows|, log)
    ensures |log| == |flows| && forall i :: 0 <= i < |flows| ==> StartedAsGenerated(flows[i], log[i])
  {
    hide PortOf;
  }

  /** Whatever is drawn, the simulation starts every flow of the run once, at its time. */
  method GenerateAndStart(first: seq<nat>, limit: nat, draws: seq<Draw>)
    returns (flows: seq<Flow>, log: seq<Started>, ghost events: seq<Event>)
    requires forall k :: 0 <= k < |draws| ==> PicksOthers(draws[k], |first|)
    ensures IsRun(first, limit, draws, events) && flows == FlowsOf(events)
    ensures StartedExactly(ToInputs(flows), |flows|, log)
    ensures |log| == |flows| && forall i :: 0 <= i < |flows| ==> StartedAsGenerated(flows[i], log[i])
  {
    hide StartedAsGenerated, IsRun, FlowsOf, PicksOthers, StartedExactly, HeapOk;
    var nFlow, heap;
    flows, nFlow, heap, events := GenerateFlows(first, limit, draws);
    forall i: nat | i < |flows| ensures flows[i].src < |first| && flows[i].dst < |first| {
      FlowsAreSound(first, limit, draws, events, i);
    }
    var hosts := HostIds(|first|);
    var scheduler := new Scheduler(ToInputs(flows), hosts);
    var ok := scheduler.Run();
    assert InOrder(ToInputs(flows));
    log := scheduler.log;
    StartsAreGenerated(flows, log);
  }
}
