/** Which records the texts of the filter language accept, in terms of the components of a record. */
module FilterRecords {
  import opened Options
  import opened FilterText
  import opened TraceFilters
  import opened FilterGrammar
  import opened FilterMeaning

  /** The component of a record that a name stands for, and one more than its largest value. */
  function Component(tr: Record, name: string): Option<(nat, nat)> {
    if name == "time" then Some((tr.time, 0x1_0000_0000_0000_0000))
    else if name == "node" then Some((tr.node, 0x10000))
    else if name == "nodeType" then Some((tr.nodeType, 0x100))
    else if name == "intf" then Some((tr.intf, 0x100))
    else if name == "qidx" then Some((tr.qidx, 0x100))
    else if name == "qlen" then Some((tr.qlen, 0x1_0000_0000))
    else if name == "sip" then Some((tr.sip, 0x1_0000_0000))
    else if name == "dip" then Some((tr.dip, 0x1_0000_0000))
    else if name == "size" then Some((tr.size, 0x10000))
    else if name == "l3Prot" then Some((tr.l3Prot, 0x100))
    else if name == "event" then Some((tr.event, 0x100))
    else if name == "ecn" then Some((tr.ecn, 0x100))
    else if name == "data.sport" then Some((tr.dataSport, 0x10000))
    else if name == "data.dport" then Some((tr.dataDport, 0x10000))
    else if name == "data.seq" then Some((tr.dataSeq, 0x1_0000_0000))
    else if name == "ack.sport" then Some((tr.ackSport, 0x10000))
    else if name == "ack.dport" then Some((tr.ackDport, 0x10000))
    else if name == "ack.flags" then Some((tr.ackFlags, 0x100))
    else if name == "qp.sport" then Some((tr.qpSport, 0x10000))
    else if name == "qp.dport" then Some((tr.qpDport, 0x10000))
    else None
  }

  predicate IsOperator(op: string) {
    op in {"=", ">", ">=", "<", "<=", "!="}
  }

  predicate Relates(op: string, x: nat, y: nat)
    requires IsOperator(op)
  {
    if op == "=" then x == y
    else if op == ">" then x > y
    else if op == ">=" then x >= y
    else if op == "<" then x < y
    else if op == "<=" then x <= y
    else x != y
  }

  lemma OperatorNamed(text: string, x: nat, y: nat) returns (op: Op)
    requires IsOperator(text)
    ensures OpText(op) == text && (Compare(op, x, y) <==> Relates(text, x, y))
  {
    op := if text == "=" then Eq else if text == ">" then Gt else if text == ">=" then Ge
          else if text == "<" then Lt else if text == "<=" then Le else Ne;
  }

  lemma ComponentNamed(tr: Record, name: string)
    ensures FieldNamed(name).Some? <==> Component(tr, name).Some?
    ensures FieldNamed(name).Some? ==>
              var f := FieldNamed(name).value; Component(tr, name) == Some((ValueOf(tr, f), Capacity(f)))
  {
  }

  lemma NameOfField(name: string)
    requires FieldNamed(name).Some?
    ensures FieldText(FieldNamed(name).value) == name
  {
  }

  /** Name, operator and decimal number: the record's component is compared with the number, cut to a signed
      long and then to the width of the component. */
  lemma ComparisonAccepts(junk: string -> nat, name: string, op: string, n: nat, tr: Record)
    requires Component(tr, name).Some? && IsOperator(op)
    ensures var (x, width) := Component(tr, name).value;
            var filter := Parse(junk, name + op + Dec(n));
            && width > 0 && filter.Some?
            && (Test(filter.value, tr) <==>
                  Relates(op, x, (if n < 0x8000_0000_0000_0000 then n else 0x7fff_ffff_ffff_ffff) % width))
  {
    hide Parse, Component, FieldNamed, FieldText, Dec, Relates, Compare, OpText, Capacity, ValueOf;
    ComponentNamed(tr, name);
    NameOfField(name);
    var f := FieldNamed(name).value;
    CapacityPositive(f);
    var v := (if n < 0x8000_0000_0000_0000 then n else 0x7fff_ffff_ffff_ffff) % Capacity(f);
    var o := OperatorNamed(op, ValueOf(tr, f), v);
    FieldTextClass(f);
    DecIsValue(n);
    PlainText(name, o, Dec(n));
    ParseBaseAlone(junk, Plain(name, o, Dec(n)));
    LeafMeaning(junk, f, o, n);
  }

  lemma CapacityPositive(f: Field)
    ensures Capacity(f) > 0
  {
  }

  /** A name that stands for no component and for no shorthand makes a comparison fail. */
  lemma UnknownNameFails(junk: string -> nat, name: string, op: Op, value: string, tr: Record)
    requires Component(tr, name).None? && name !in {"flow", "rflow", "biflow", "queue"}
    ensures ParseBase(junk, name, op, value) == None
  {
    hide Parse, Component, FieldNamed;
    ComponentNamed(tr, name);
  }

  // ----- shorthands with decimal numbers

  /** A number cut to 32 bits by way of a signed long, and one cut to `width` by way of an unsigned long. */
  function Address(n: nat): nat {
    if n < 0x8000_0000_0000_0000 then n % 0x1_0000_0000 else 0xffff_ffff
  }

  function Small(n: nat, width: nat): nat
    requires width > 0
  {
    if n < 0x1_0000_0000_0000_0000 then n % width else width - 1
  }

  lemma FourTupleReadsBack(a: nat, b: nat, c: nat, d: nat)
    ensures ReadFourTuple(Dec(a) + "," + Dec(b) + "," + Dec(c) + "," + Dec(d))
            == Some(FourTuple(Address(a), Address(b), Small(c, 0x10000), Small(d, 0x10000)))
  {
    hide Dec, ReadAnyBase, ReadDecimal;
    var s := Dec(a) + "," + Dec(b) + "," + Dec(c) + "," + Dec(d);
    ReadDecAt("", a, "," + (Dec(b) + ("," + (Dec(c) + ("," + Dec(d))))));
    ReadDecAt(Dec(a) + ",", b, "," + (Dec(c) + ("," + Dec(d))));
    ReadDecAt(Dec(a) + "," + Dec(b) + ",", c, "," + Dec(d));
    ReadDecAt(Dec(a) + "," + Dec(b) + "," + Dec(c) + ",", d, "");
    FourParts(Dec(a), Dec(b), Dec(c), Dec(d));
  }

  lemma FourParts(a: string, b: string, c: string, d: string)
    ensures var s := a + "," + b + "," + c + "," + d;
            && s == "" + a + ("," + (b + ("," + (c + ("," + d))))) && |"" + a| == |a|
            && s == (a + ",") + b + ("," + (c + ("," + d)))
            && s == (a + "," + b + ",") + c + ("," + d)
            && s == (a + "," + b + "," + c + ",") + d + ""
            && Comma(s, |a|) && Comma(s, |a + "," + b|) && Comma(s, |a + "," + b + "," + c|)
  {
  }

  lemma QueueTupleReadsBack(a: nat, b: nat, c: nat)
    ensures ReadQueueTuple(Dec(a) + "," + Dec(b) + "," + Dec(c))
            == Some(QueueTuple(Small(a, 0x10000), Small(b, 0x100), Small(c, 0x100)))
  {
    hide Dec, ReadDecimal;
    ReadDecAt("", a, "," + (Dec(b) + ("," + Dec(c))));
    ReadDecAt(Dec(a) + ",", b, "," + Dec(c));
    ReadDecAt(Dec(a) + "," + Dec(b) + ",", c, "");
    ThreeParts(Dec(a), Dec(b), Dec(c));
  }

  lemma ThreeParts(a: string, b: string, c: string)
    ensures var s := a + "," + b + "," + c;
            && s == "" + a + ("," + (b + ("," + c))) && |"" + a| == |a|
            && s == (a + ",") + b + ("," + c)
            && s == (a + "," + b + ",") + c + ""
            && Comma(s, |a|) && Comma(s, |a + "," + b|)
  {
  }

  /** The shorthand queue accepts exactly the records of its node, interface and queue. */
  lemma QueueAccepts(junk: string -> nat, node: nat, intf: nat, qidx: nat, tr: Record)
    ensures var filter := ParseBase(junk, "queue", Eq, Dec(node) + "," + Dec(intf) + "," + Dec(qidx));
            && filter.Some?
            && (Test(filter.value, tr) <==>
                  tr.node == Small(node, 0x10000) && tr.intf == Small(intf, 0x100) && tr.qidx == Small(qidx, 0x100))
  {
    hide ParseBase, ReadQueueTuple, Dec, Small;
    QueueTupleReadsBack(node, intf, qidx);
    QueueShorthand(junk, Eq, Dec(node) + "," + Dec(intf) + "," + Dec(qidx));
    var q := QueueTuple(Small(node, 0x10000), Small(intf, 0x100), Small(qidx, 0x100));
    QueueFilterAccepts(q, tr);
  }

  lemma QueueFilterAccepts(q: QueueTuple, tr: Record)
    ensures Test(QueueFilter(q), tr) <==> tr.node == q.node && tr.intf == q.intf && tr.qidx == q.qidx
  {
    assert Test(And(Is(Intf, q.intf), Is(Qidx, q.qidx)), tr) <==> tr.intf == q.intf && tr.qidx == q.qidx;
  }
}
