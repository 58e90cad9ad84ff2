/** Starting the flows of a traffic file: the scheduler wakes at the next start time, starts every flow
    due then, and schedules itself again. Times are integer nanoseconds. */
module FlowScheduling {
  import opened Options

  const FIRST_PORT := 10000
  const PORTS := 0x10000

  datatype FlowInput = FlowInput(src: nat, dst: nat, pg: nat, dport: nat, size: nat, start: nat)

  /** A flow that was started, with the source port it got and the time. */
  datatype Started = Started(flow: FlowInput, port: nat, time: nat)

  predicate InOrder(flows: seq<FlowInput>) {
    forall i :: 0 < i < |flows| ==> flows[i - 1].start <= flows[i].start
  }

  /** How many of the first n flows go from src to dst. */
  function PairCount(flows: seq<FlowInput>, n: nat, src: nat, dst: nat): nat
    requires n <= |flows|
  {
    if n == 0 then 0
    else PairCount(flows, n - 1, src, dst) + if flows[n - 1].src == src && flows[n - 1].dst == dst then 1 else 0
  }

  /** The next port of a host pair after n flows: counted from 10000, in 16 bits. */
  function NextPort(flows: seq<FlowInput>, n: nat, src: nat, dst: nat): nat
    requires n <= |flows|
  {
    (FIRST_PORT + PairCount(flows, n, src, dst)) % PORTS
  }

  function PortOf(flows: seq<FlowInput>, i: nat): nat
    requires i < |flows|
  {
    NextPort(flows, i, flows[i].src, flows[i].dst)
  }

  lemma NextPortStep(flows: seq<FlowInput>, n: nat, src: nat, dst: nat)
    requires n < |flows|
    ensures NextPort(flows, n + 1, src, dst)
            == if flows[n].src == src && flows[n].dst == dst then (NextPort(flows, n, src, dst) + 1) % PORTS
               else NextPort(flows, n, src, dst)
  {
  }

  /** Every flow of the first n was started once, in order, at its time and with its port. */
  predicate StartedExactly(flows: seq<FlowInput>, n: nat, log: seq<Started>) {
    && |log| == n <= |flows|
    && forall i :: 0 <= i < n ==> log[i] == Started(flows[i], PortOf(flows, i), flows[i].start)
  }

  lemma {:induction false} PairCountGrows(flows: seq<FlowInput>, i: nat, j: nat, src: nat, dst: nat)
    requires i <= j <= |flows|
    ensures PairCount(flows, i, src, dst) <= PairCount(flows, j, src, dst)
    decreases j - i
  {
    if i < j { PairCountGrows(flows, i, j - 1, src, dst); }
  }

  /** Two flows of a host pair share a port exactly when their numbers within the pair differ by a
      multiple of 2^16; so the first 65536 flows of a pair have distinct ports. */
  lemma PortsRepeatEvery65536(flows: seq<FlowInput>, i: nat, j: nat)
    requires i < j < |flows| && flows[i].src == flows[j].src && flows[i].dst == flows[j].dst
    ensures var a := PairCount(flows, i, flows[i].src, flows[i].dst);
            var b := PairCount(flows, j, flows[i].src, flows[i].dst);
            && a < b && PortOf(flows, i) == (10000 + a) % 65536 && PortOf(flows, j) == (10000 + b) % 65536
            && (PortOf(flows, i) == PortOf(flows, j) <==> (b - a) % 65536 == 0)
            && (b < a + 65536 ==> PortOf(flows, i) != PortOf(flows, j))
  {
    hide PairCount;
    var src, dst := flows[i].src, flows[i].dst;
    PairCountGrows(flows, i + 1, j, src, dst);
    CountStep(flows, i);
    SameResidue(PairCount(flows, i, src, dst), PairCount(flows, j, src, dst));
  }

  lemma CountStep(flows: seq<FlowInput>, i: nat)
    requires i < |flows|
    ensures PairCount(flows, i + 1, flows[i].src, flows[i].dst) == PairCount(flows, i, flows[i].src, flows[i].dst) + 1
  {
  }

  lemma SameResidue(a: nat, b: nat)
    requires a <= b
    ensures (FIRST_PORT + a) % PORTS == (FIRST_PORT + b) % PORTS <==> (b - a) % PORTS == 0
    ensures a < b < a + PORTS ==> (b - a) % PORTS != 0
  {
  }

  /** The counters after n flows. */
  predicate PortsRight(flows: seq<FlowInput>, n: nat, ports: map<(nat, nat), nat>)
    requires n <= |flows|
  {
    forall p :: p in ports ==> ports[p] == NextPort(flows, n, p.0, p.1)
  }

  lemma PortsAdvance(flows: seq<FlowInput>, n: nat, ports: map<(nat, nat), nat>)
    requires n < |flows| && PortsRight(flows, n, ports) && (flows[n].src, flows[n].dst) in ports
    ensures var pair := (flows[n].src, flows[n].dst);
            ports[pair] == PortOf(flows, n) && PortsRight(flows, n + 1, ports[pair := (ports[pair] + 1) % PORTS])
  {
    hide NextPort;
    forall p | p in ports ensures NextPort(flows, n + 1, p.0, p.1)
        == if flows[n].src == p.0 && flows[n].dst == p.1 then (NextPort(flows, n, p.0, p.1) + 1) % PORTS
           else NextPort(flows, n, p.0, p.1)
    {
      NextPortStep(flows, n, p.0, p.1);
    }
  }

  lemma OneMoreStarted(flows: seq<FlowInput>, n: nat, log: seq<Started>)
    requires n < |flows| && StartedExactly(flows, n, log)
    ensures StartedExactly(flows, n + 1, log + [Started(flows[n], PortOf(flows, n), flows[n].start)])
  {
    hide PortOf;
  }

  class Scheduler {
    const flows: seq<FlowInput>
    var idx: nat
    var current: FlowInput
    var now: nat
    var portNumber: map<(nat, nat), nat>
    var log: seq<Started>

    /** The flows before idx are started, their ports are used up, and the current flow is the next. */
    ghost predicate Valid()
      reads this
    {
      && idx <= |flows| && |log| == idx
      && (idx < |flows| ==> current == flows[idx])
      && (forall i :: 0 <= i < |flows| ==> (flows[i].src, flows[i].dst) in portNumber)
      && PortsRight(flows, idx, portNumber)
    }

    /** Every pair of hosts counts its ports from 10000. The endpoints of flows are hosts. */
    constructor (flows: seq<FlowInput>, hosts: set<nat>)
      requires forall i :: 0 <= i < |flows| ==> flows[i].src in hosts && flows[i].dst in hosts
      ensures Valid() && this.flows == flows && idx == 0 && now == 0 && log == []
    {
      this.flows, idx, now, log := flows, 0, 0, [];
      var pairs := set s, d | s in hosts && d in hosts :: (s, d);
      portNumber := map p | p in pairs :: FIRST_PORT;
      current := if |flows| > 0 then flows[0] else FlowInput(0, 0, 0, 0, 0, 0);
    }

    method ReadFlowInput()
      requires idx <= |flows|
      modifies this`current
      ensures current == if idx < |flows| then flows[idx] else old(current)
    {
      if idx < |flows| {
        current := flows[idx];
      }
    }

    /** Starts all flows due now and returns the delay to the next call, if any flow is left. */
    method ScheduleFlowInputs() returns (delay: Option<int>)
      requires Valid() && StartedExactly(flows, idx, log)
      modifies this`idx, this`current, this`portNumber, this`log
      ensures Valid() && StartedExactly(flows, idx, log)
      ensures old(idx) <= idx && (old(idx) < |flows| && flows[old(idx)].start == now ==> old(idx) < idx)
      ensures forall i :: old(idx) <= i < idx ==> flows[i].start == now
      ensures delay == if idx < |flows| then Some(flows[idx].start - now) else None
      ensures idx < |flows| ==> flows[idx].start != now
    {
      hide NextPort, PortOf, InOrder, StartedExactly, PortsRight;
      while idx < |flows| && current.start == now
        invariant Valid() && StartedExactly(flows, idx, log) && old(idx) <= idx
        invariant old(idx) == idx || flows[old(idx)].start == now
        invariant forall i :: old(idx) <= i < idx ==> flows[i].start == now
        decreases |flows| - idx
      {
        var pair := (current.src, current.dst);
        var port := portNumber[pair];
        PortsAdvance(flows, idx, portNumber);
        OneMoreStarted(flows, idx, log);
        portNumber := portNumber[pair := (port + 1) % PORTS];
        log := log + [Started(current, port, now)];
        idx := idx + 1;
        ReadFlowInput();
      }
      if idx < |flows| {
        delay := Some(current.start - now);
      } else {
        delay := None;
      }
    }

    /** Runs the scheduler's events. It fails, as scheduling into the past does, exactly when the flows are
        not in order of their start times; otherwise every flow is started once, at its time. */
    method Run() returns (ok: bool)
      requires Valid() && idx == 0 && now == 0 && log == []
      modifies this
      ensures ok <==> InOrder(flows)
      ensures ok ==> StartedExactly(flows, |flows|, log)
    {
      hide NextPort, PortOf;
      var delay := if idx < |flows| then Some(current.start - now) else None;
      while delay.Some?
        invariant Valid() && StartedExactly(flows, idx, log)
        invariant delay == if idx < |flows| then Some(flows[idx].start - now) else None
        invariant idx > 0 ==> now == flows[idx - 1].start
        invariant idx == 0 ==> now == 0
        invariant forall i :: 0 < i < idx ==> flows[i - 1].start <= flows[i].start
        decreases |flows| - idx
      {
        if delay.value < 0 {
          return false;
        }
        now := now + delay.value;
        delay := ScheduleFlowInputs();
      }
      return true;
    }
  }
}
