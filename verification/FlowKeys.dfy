/** Flow keys of trace records, and how they relate to the flow shorthands of the filter. */
module FlowKeys {
  import opened Options
  import opened FilterText
  import opened TraceFilters
  import opened FilterMeaning
  import Addressing

  /** The middle bytes of an address: the node id of a server address. */
  function NodeBits(ip: nat): (r: nat)
    ensures r < 0x10000
  {
    Addressing.IpToNodeId(ip)
  }

  /** Source and destination bits and the two ports, packed into 64 bits. */
  function Key(t: FourTuple): nat {
    ((NodeBits(t.sip) * 0x10000 + NodeBits(t.dip)) * 0x10000 + t.sport) * 0x10000 + t.dport
  }

  /** The tuple of a record, by kind: data (0x6, 0x11), ACK and NACK (0xFC, 0xFD), QP (0); others have no ports. */
  function TupleOf(tr: Record): FourTuple {
    match tr.l3Prot
    case 0x6 => FourTuple(tr.sip, tr.dip, tr.dataSport, tr.dataDport)
    case 0x11 => FourTuple(tr.sip, tr.dip, tr.dataSport, tr.dataDport)
    case 0xFC => FourTuple(tr.sip, tr.dip, tr.ackSport, tr.ackDport)
    case 0xFD => FourTuple(tr.sip, tr.dip, tr.ackSport, tr.ackDport)
    case 0x0 => FourTuple(tr.sip, tr.dip, tr.qpSport, tr.qpDport)
    case _ => FourTuple(tr.sip, tr.dip, 0, 0)
  }

  function GetFlowInt(tr: Record): nat {
    Key(TupleOf(tr))
  }

  function GetReverseFlowInt(tr: Record): nat {
    Key(Reversed(TupleOf(tr)))
  }

  /** Forward key of data, reverse key of acknowledgements: one key for both directions of a flow. */
  function GetStandardFlowInt(tr: Record): nat {
    if tr.l3Prot == 0xFC || tr.l3Prot == 0xFD then GetReverseFlowInt(tr) else GetFlowInt(tr)
  }

  /** The kinds of records that the flow shorthands know; TCP (0x6) has a key but no shorthand. */
  predicate HasFlow(tr: Record) {
    tr.l3Prot in {0x11, 0xFC, 0xFD, 0x0}
  }

  /** A record is in the flow t when it is of such a kind and its own tuple is t. */
  lemma FlowFilterAccepts(t: FourTuple, tr: Record)
    ensures Test(FlowFilter(t), tr) <==> HasFlow(tr) && TupleOf(tr) == t
  {
    hide PortsFilter;
    AnyPortsAccept(t, tr);
    var ports := FlowFilter(t).right.right;
    hide Test;
    AndAccepts(Is(Dip, t.dip), ports, tr);
    AndAccepts(Is(Sip, t.sip), FlowFilter(t).right, tr);
    IsAccepts(Sip, t.sip, tr);
    IsAccepts(Dip, t.dip, tr);
  }

  lemma AndAccepts(a: Filter, b: Filter, tr: Record)
    ensures Test(And(a, b), tr) <==> Test(a, tr) && Test(b, tr)
    ensures Test(Or(a, b), tr) <==> Test(a, tr) || Test(b, tr)
  {
  }

  lemma IsAccepts(f: Field, n: nat, tr: Record)
    ensures Test(Is(f, n), tr) <==> ValueOf(tr, f) == n
  {
  }

  lemma AnyPortsAccept(t: FourTuple, tr: Record)
    ensures Test(FlowFilter(t).right.right, tr)
            <==> HasFlow(tr) && TupleOf(tr).sport == t.sport && TupleOf(tr).dport == t.dport
  {
    hide Test, PortsFilter;
    var Or(data, Or(ack, qp)) := FlowFilter(t).right.right;
    var fc, fd := Is(L3Prot, 252), Is(L3Prot, 253);
    AndAccepts(ack, qp, tr);
    AndAccepts(data, Or(ack, qp), tr);
    AndAccepts(fc, fd, tr);
    IsAccepts(L3Prot, 17, tr);
    IsAccepts(L3Prot, 252, tr);
    IsAccepts(L3Prot, 253, tr);
    IsAccepts(L3Prot, 0, tr);
    PortsAccept(Is(L3Prot, 17), DataSport, DataDport, t, tr);
    PortsAccept(Or(fc, fd), AckSport, AckDport, t, tr);
    PortsAccept(Is(L3Prot, 0), QpSport, QpDport, t, tr);
  }

  lemma PortsAccept(proto: Filter, s: Field, d: Field, t: FourTuple, tr: Record)
    ensures Test(PortsFilter(proto, s, d, t), tr)
            <==> Test(proto, tr) && ValueOf(tr, s) == t.sport && ValueOf(tr, d) == t.dport
  {
    assert Test(And(Is(s, t.sport), Is(d, t.dport)), tr) <==> ValueOf(tr, s) == t.sport && ValueOf(tr, d) == t.dport;
  }

  /** flow accepts the records of the tuple, rflow those of the reversed tuple, biflow those of either;
      all with the keys that the analysis computes for them. */
  lemma ShorthandsAccept(junk: string -> nat, value: string, tr: Record)
    requires ReadFourTuple(value).Some?
    ensures var t := ReadFourTuple(value).value;
            var flow, rflow := ParseBase(junk, "flow", Eq, value), ParseBase(junk, "rflow", Eq, value);
            var biflow := ParseBase(junk, "biflow", Eq, value);
            && flow.Some? && rflow.Some? && biflow.Some?
            && (Test(flow.value, tr) <==> HasFlow(tr) && TupleOf(tr) == t)
            && (Test(rflow.value, tr) <==>
                  && HasFlow(tr) && tr.sip == t.dip && tr.dip == t.sip
                  && TupleOf(tr).sport == t.dport && TupleOf(tr).dport == t.sport)
            && (Test(biflow.value, tr) <==> Test(flow.value, tr) || Test(rflow.value, tr))
            && (Test(flow.value, tr) ==> GetFlowInt(tr) == Key(t))
            && (Test(rflow.value, tr) ==> GetReverseFlowInt(tr) == Key(t))
  {
    hide ParseBase, ReadFourTuple, FlowFilter, Key, HasFlow;
    var t := ReadFourTuple(value).value;
    FlowShorthands(junk, Eq, value);
    FlowFilterAccepts(t, tr);
    FlowFilterAccepts(Reversed(t), tr);
  }

  /** Data and QP records of the flow, and acknowledgements coming back, share its standard key. */
  lemma StandardKeyJoinsDirections(t: FourTuple, tr: Record)
    requires Test(Or(FlowFilter(t), FlowFilter(Reversed(t))), tr)
    requires (tr.l3Prot == 0xFC || tr.l3Prot == 0xFD) <==> Test(FlowFilter(Reversed(t)), tr)
    ensures GetStandardFlowInt(tr) == Key(t)
  {
    hide Key;
    FlowFilterAccepts(t, tr);
    FlowFilterAccepts(Reversed(t), tr);
  }

  /** The key is 64 bits: source, destination, source port, destination port, 16 bits each. */
  lemma KeyFields(t: FourTuple)
    requires t.sport < WORD && t.dport < WORD
    ensures Key(t) < QWORD
    ensures Key(t) % WORD == t.dport && Key(t) / WORD % WORD == t.sport
    ensures Key(t) / DWORD % WORD == NodeBits(t.dip) && Key(t) / DWORD / WORD == NodeBits(t.sip)
  {
    hide NodeBits;
    var a := NodeBits(t.sip) * 0x10000 + NodeBits(t.dip);
    Unpack(a * 0x10000 + t.sport, t.dport);
    Unpack(a, t.sport);
    Unpack(NodeBits(t.sip), NodeBits(t.dip));
    assert Key(t) / WORD / WORD == Key(t) / DWORD;
  }

  lemma Unpack(x: nat, d: nat)
    requires d < WORD
    ensures (x * 0x10000 + d) / WORD == x && (x * 0x10000 + d) % WORD == d
  {
  }

  /** The ports of a record, by kind, written out. */
  function PortsOf(tr: Record): (nat, nat) {
    if tr.l3Prot == 6 || tr.l3Prot == 17 then (tr.dataSport, tr.dataDport)
    else if tr.l3Prot == 252 || tr.l3Prot == 253 then (tr.ackSport, tr.ackDport)
    else if tr.l3Prot == 0 then (tr.qpSport, tr.qpDport)
    else (0, 0)
  }

  /** The forward key of a record holds source, destination, source port, destination port; the reverse key
      holds destination, source, destination port, source port. */
  lemma RecordKeys(tr: Record)
    requires PortsOf(tr).0 < 0x10000 && PortsOf(tr).1 < 0x10000
    ensures TupleOf(tr) == FourTuple(tr.sip, tr.dip, PortsOf(tr).0, PortsOf(tr).1)
    ensures var k := GetFlowInt(tr);
            && k % 0x10000 == PortsOf(tr).1 && k / 0x10000 % 0x10000 == PortsOf(tr).0
            && k / 0x1_0000_0000 % 0x10000 == NodeBits(tr.dip) && k / 0x1_0000_0000 / 0x10000 == NodeBits(tr.sip)
    ensures var k := GetReverseFlowInt(tr);
            && k % 0x10000 == PortsOf(tr).0 && k / 0x10000 % 0x10000 == PortsOf(tr).1
            && k / 0x1_0000_0000 % 0x10000 == NodeBits(tr.sip) && k / 0x1_0000_0000 / 0x10000 == NodeBits(tr.dip)
  {
    hide Key, NodeBits;
    KeyFields(TupleOf(tr));
    KeyFields(Reversed(TupleOf(tr)));
  }

  /** Keys are equal exactly when ports and node bits are. */
  lemma KeyInjective(t: FourTuple, u: FourTuple)
    requires t.sport < WORD && t.dport < WORD && u.sport < WORD && u.dport < WORD
    ensures Key(t) == Key(u) <==>
              NodeBits(t.sip) == NodeBits(u.sip) && NodeBits(t.dip) == NodeBits(u.dip)
              && t.sport == u.sport && t.dport == u.dport
  {
    hide NodeBits;
    var a, b := NodeBits(t.sip) * 0x10000 + NodeBits(t.dip), NodeBits(u.sip) * 0x10000 + NodeBits(u.dip);
    PackedEqual(NodeBits(t.sip), NodeBits(t.dip), NodeBits(u.sip), NodeBits(u.dip));
    PackedEqual(a, t.sport, b, u.sport);
    PackedEqual(a * 0x10000 + t.sport, t.dport, b * 0x10000 + u.sport, u.dport);
  }

  lemma PackedEqual(x: nat, d: nat, y: nat, e: nat)
    requires d < 0x10000 && e < 0x10000
    ensures x * 0x10000 + d == y * 0x10000 + e <==> x == y && d == e
  {
  }

  predicate IsServer(ip: nat) {
    exists id: nat :: id < 0x10000 && ip == Addressing.NodeIdToIp(id)
  }

  lemma ServersKnownByNodeBits(a: nat, b: nat)
    requires IsServer(a) && IsServer(b)
    ensures NodeBits(a) == NodeBits(b) <==> a == b
  {
    var i: nat :| i < 0x10000 && a == Addressing.NodeIdToIp(i);
    var j: nat :| j < 0x10000 && b == Addressing.NodeIdToIp(j);
    Addressing.AddressRoundTrip(i);
    Addressing.AddressRoundTrip(j);
  }

  /** Between servers the key identifies the flow: flow accepts exactly the records with its key. */
  lemma KeyIdentifiesFlow(t: FourTuple, tr: Record)
    requires IsServer(t.sip) && IsServer(t.dip) && IsServer(tr.sip) && IsServer(tr.dip)
    requires t.sport < WORD && t.dport < WORD && TupleOf(tr).sport < WORD && TupleOf(tr).dport < WORD
    requires HasFlow(tr)
    ensures Test(FlowFilter(t), tr) <==> GetFlowInt(tr) == Key(t)
  {
    hide Key, NodeBits, IsServer;
    FlowFilterAccepts(t, tr);
    KeyInjective(t, TupleOf(tr));
    ServersKnownByNodeBits(t.sip, tr.sip);
    ServersKnownByNodeBits(t.dip, tr.dip);
  }
}
