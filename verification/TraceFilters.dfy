/** The trace filter: fields, filter trees, their evaluation, and the parser. */
module TraceFilters {
  import opened Options
  import opened FilterText

  datatype Field =
    | Time | NodeId | NodeType | Intf | Qidx | Qlen | Sip | Dip | Size | L3Prot | EventCode | Ecn
    | DataSport | DataDport | DataSeq | AckSport | AckDport | AckFlags | QpSport | QpDport

  function FieldText(f: Field): string {
    match f
    case Time => "time" case NodeId => "node" case NodeType => "nodeType" case Intf => "intf"
    case Qidx => "qidx" case Qlen => "qlen" case Sip => "sip" case Dip => "dip" case Size => "size"
    case L3Prot => "l3Prot" case EventCode => "event" case Ecn => "ecn"
    case DataSport => "data.sport" case DataDport => "data.dport" case DataSeq => "data.seq"
    case AckSport => "ack.sport" case AckDport => "ack.dport" case AckFlags => "ack.flags"
    case QpSport => "qp.sport" case QpDport => "qp.dport"
  }

  /** The field with the given name. */
  function FieldNamed(text: string): Option<Field> {
    if text == "time" then Some(Time)
    else if text == "node" then Some(NodeId)
    else if text == "nodeType" then Some(NodeType)
    else if text == "intf" then Some(Intf)
    else if text == "qidx" then Some(Qidx)
    else if text == "qlen" then Some(Qlen)
    else if text == "sip" then Some(Sip)
    else if text == "dip" then Some(Dip)
    else if text == "size" then Some(Size)
    else if text == "l3Prot" then Some(L3Prot)
    else if text == "event" then Some(EventCode)
    else if text == "ecn" then Some(Ecn)
    else if text == "data.sport" then Some(DataSport)
    else if text == "data.dport" then Some(DataDport)
    else if text == "data.seq" then Some(DataSeq)
    else if text == "ack.sport" then Some(AckSport)
    else if text == "ack.dport" then Some(AckDport)
    else if text == "ack.flags" then Some(AckFlags)
    else if text == "qp.sport" then Some(QpSport)
    else if text == "qp.dport" then Some(QpDport)
    else None
  }

  const BYTE := 0x100
  const WORD := 0x1_0000
  const DWORD := 0x1_0000_0000
  const QWORD := 0x1_0000_0000_0000_0000

  /** One more than the largest value of the field. */
  function Capacity(f: Field): nat {
    match f
    case Time => QWORD
    case Qlen => DWORD case Sip => DWORD case Dip => DWORD case DataSeq => DWORD
    case NodeType => BYTE case Intf => BYTE case Qidx => BYTE case L3Prot => BYTE case EventCode => BYTE
    case Ecn => BYTE case AckFlags => BYTE
    case _ => WORD
  }

  /** A trace record. The port fields of the three packet kinds are kept apart; a layout in which
      they overlap is a record in which they are related. */
  datatype Record = Record(
    time: nat, node: nat, nodeType: nat, intf: nat, qidx: nat, qlen: nat, sip: nat, dip: nat, size: nat,
    l3Prot: nat, event: nat, ecn: nat, dataSport: nat, dataDport: nat, dataSeq: nat,
    ackSport: nat, ackDport: nat, ackFlags: nat, qpSport: nat, qpDport: nat)

  function ValueOf(tr: Record, f: Field): nat {
    match f
    case Time => tr.time case NodeId => tr.node case NodeType => tr.nodeType case Intf => tr.intf
    case Qidx => tr.qidx case Qlen => tr.qlen case Sip => tr.sip case Dip => tr.dip case Size => tr.size
    case L3Prot => tr.l3Prot case EventCode => tr.event case Ecn => tr.ecn
    case DataSport => tr.dataSport case DataDport => tr.dataDport case DataSeq => tr.dataSeq
    case AckSport => tr.ackSport case AckDport => tr.ackDport case AckFlags => tr.ackFlags
    case QpSport => tr.qpSport case QpDport => tr.qpDport
  }

  datatype Op = Eq | Gt | Ge | Lt | Le | Ne

  function OpText(op: Op): string {
    match op
    case Eq => "=" case Gt => ">" case Ge => ">=" case Lt => "<" case Le => "<=" case Ne => "!="
  }

  predicate Compare(op: Op, x: nat, y: nat) {
    match op
    case Eq => x == y case Gt => x > y case Ge => x >= y case Lt => x < y case Le => x <= y case Ne => x != y
  }

  /** The six comparisons fit together as those of numbers do. */
  lemma ComparisonsAgree(x: nat, y: nat)
    ensures Compare(Ne, x, y) <==> !Compare(Eq, x, y)
    ensures Compare(Le, x, y) <==> !Compare(Gt, x, y)
    ensures Compare(Ge, x, y) <==> !Compare(Lt, x, y)
    ensures Compare(Eq, x, y) <==> Compare(Le, x, y) && Compare(Ge, x, y)
    ensures Compare(Lt, x, y) <==> Compare(Gt, y, x)
    ensures Compare(Lt, x, y + 1) <==> Compare(Le, x, y)
  {
  }

  datatype Filter =
    | Leaf(field: Field, op: Op, value: nat)
    | And(left: Filter, right: Filter)
    | Or(left: Filter, right: Filter)

  predicate Test(n: Filter, tr: Record) {
    match n
    case Leaf(f, op, value) => Compare(op, ValueOf(tr, f), value)
    case And(l, r) => Test(l, tr) && Test(r, tr)
    case Or(l, r) => Test(l, tr) || Test(r, tr)
  }

  // ----- lexical patterns

  datatype BaseMatch = BaseMatch(field: string, op: Op, value: string, rest: nat)

  /** The longest operator at position i, and the position after it. */
  function OpAt(s: string, i: nat): (r: Option<(Op, nat)>)
    ensures r.Some? ==> i < r.value.1 <= |s| && s[i..r.value.1] == OpText(r.value.0)
  {
    if i < |s| && s[i] == '=' then Some((Eq, i + 1))
    else if i + 1 < |s| && s[i] == '>' && s[i + 1] == '=' then Some((Ge, i + 2))
    else if i + 1 < |s| && s[i] == '<' && s[i + 1] == '=' then Some((Le, i + 2))
    else if i + 1 < |s| && s[i] == '!' && s[i + 1] == '=' then Some((Ne, i + 2))
    else if i < |s| && s[i] == '>' then Some((Gt, i + 1))
    else if i < |s| && s[i] == '<' then Some((Lt, i + 1))
    else None
  }

  /** Matches spaces, field, spaces, operator, spaces, value, spaces from the start of s. */
  function MatchBase(s: string): (r: Option<BaseMatch>)
    ensures r.Some? ==> r.value.rest <= |s| && forall k :: 0 <= k < |r.value.field| ==> r.value.field[k] in s
  {
    var a := Span(s, 0, IsSpace);
    var b := Span(s, a, IsFieldChar);
    var c := Span(s, b, IsSpace);
    var op := OpAt(s, c);
    if a == b || op.None? then None
    else
      var d := Span(s, op.value.1, IsSpace);
      var e := Span(s, d, IsValueChar);
      if d == e then None else Some(BaseMatch(s[a..b], op.value.0, s[d..e], Span(s, e, IsSpace)))
  }

  predicate NotNewline(c: char) {
    !IsNewline(c)
  }

  /** Matches spaces, a connective, a right part up to a line end, spaces, to the end of s. */
  function SplitConnective(s: string): (r: Option<(char, string)>)
    ensures r.Some? ==> |r.value.1| < |s| && IsConnective(r.value.0)
    ensures r.Some? ==> forall k :: 0 <= k < |r.value.1| ==> r.value.1[k] in s
  {
    var i := Span(s, 0, IsSpace);
    if i >= |s| || !IsConnective(s[i]) then None
    else
      var j := Span(s, i + 1, NotNewline);
      if Span(s, j, IsSpace) < |s| then None else Some((s[i], s[i + 1..j]))
  }

  /** Removes brackets that enclose the whole text, with spaces outside them, as often as possible. */
  function StripOuterBracket(s: string): (r: string)
    ensures |r| <= |s| && forall k :: 0 <= k < |r| ==> r[k] in s
    decreases |s|
  {
    var i := Span(s, 0, IsSpace);
    if i < |s| && s[i] == '(' then
      var j := CloseIndex(s, i + 1, 1);
      if j < |s| && Span(s, j + 1, IsSpace) >= |s| then StripOuterBracket(s[i + 1..j]) else s
    else s
  }

  // ----- shorthands

  datatype FourTuple = FourTuple(sip: nat, dip: nat, sport: nat, dport: nat)

  function Comma(s: string, i: nat): bool {
    i < |s| && s[i] == ','
  }

  /** The C conversion %i,%i,%hu,%hu into two 32-bit and two 16-bit unsigned integers. */
  function ReadFourTuple(s: string): Option<FourTuple> {
    var a := ReadAnyBase(s, 0);
    if a.None? || !Comma(s, a.value.next) then None else
    var b := ReadAnyBase(s, a.value.next + 1);
    if b.None? || !Comma(s, b.value.next) then None else
    var c := ReadDecimal(s, b.value.next + 1);
    if c.None? || !Comma(s, c.value.next) then None else
    var d := ReadDecimal(s, c.value.next + 1);
    if d.None? then None else
    Some(FourTuple(Clamp(a.value.value, LONG_MAX) % DWORD, Clamp(b.value.value, LONG_MAX) % DWORD,
                   Clamp(c.value.value, ULONG_MAX) % WORD, Clamp(d.value.value, ULONG_MAX) % WORD))
  }

  datatype QueueTuple = QueueTuple(node: nat, intf: nat, qidx: nat)

  /** The C conversion %hu,%hhu,%hhu into one 16-bit and two 8-bit unsigned integers. */
  function ReadQueueTuple(s: string): Option<QueueTuple> {
    var a := ReadDecimal(s, 0);
    if a.None? || !Comma(s, a.value.next) then None else
    var b := ReadDecimal(s, a.value.next + 1);
    if b.None? || !Comma(s, b.value.next) then None else
    var c := ReadDecimal(s, b.value.next + 1);
    if c.None? then None else
    Some(QueueTuple(Clamp(a.value.value, ULONG_MAX) % WORD, Clamp(b.value.value, ULONG_MAX) % BYTE,
                    Clamp(c.value.value, ULONG_MAX) % BYTE))
  }

  /** Contains a letter that every shorthand name has and no expansion has. */
  predicate MayExpand(s: string) {
    'w' in s || 'u' in s
  }

  function Infix(a: string, c: char, b: string): (r: string)
    ensures MayExpand(r) <==> MayExpand(a) || MayExpand([c]) || MayExpand(b)
  {
    a + [c] + b
  }

  function Wrapped(a: string): (r: string)
    ensures MayExpand(r) <==> MayExpand(a)
  {
    "(" + a + ")"
  }

  function Equals(name: string, n: nat): (r: string)
    ensures MayExpand(r) <==> MayExpand(name)
  {
    Infix(name, '=', Dec(n))
  }

  /** (proto&sportName=sport&dportName=dport) */
  function PortsText(proto: string, sportName: string, dportName: string, sport: nat, dport: nat): (r: string)
    ensures MayExpand(r) <==> MayExpand(proto) || MayExpand(sportName) || MayExpand(dportName)
  {
    Wrapped(Infix(proto, '&', Infix(Equals(sportName, sport), '&', Equals(dportName, dport))))
  }

  /** ((l3Prot=17&data...)|((l3Prot=0xFC|l3Prot=0xFD)&ack...)|(l3Prot=0x0&qp...)) */
  function AnyPortsText(sport: nat, dport: nat): string {
    Wrapped(Infix(PortsText("l3Prot=17", "data.sport", "data.dport", sport, dport), '|',
                  Infix(PortsText(Wrapped(Infix("l3Prot=0xFC", '|', "l3Prot=0xFD")), "ack.sport", "ack.dport",
                                  sport, dport), '|',
                        PortsText("l3Prot=0x0", "qp.sport", "qp.dport", sport, dport))))
  }

  /** sip=...&dip=...&(...) */
  function FlowText(t: FourTuple): string {
    Infix(Equals("sip", t.sip), '&', Infix(Equals("dip", t.dip), '&', AnyPortsText(t.sport, t.dport)))
  }

  function Reversed(t: FourTuple): FourTuple {
    FourTuple(t.dip, t.sip, t.dport, t.sport)
  }

  function BiflowText(t: FourTuple): string {
    Infix(Wrapped(FlowText(t)), '|', Wrapped(FlowText(Reversed(t))))
  }

  function QueueText(q: QueueTuple): string {
    Infix(Equals("node", q.node), '&', Infix(Equals("intf", q.intf), '&', Equals("qidx", q.qidx)))
  }

  lemma ExpansionsAreFlat(t: FourTuple, q: QueueTuple)
    ensures !MayExpand(FlowText(t)) && !MayExpand(BiflowText(t)) && !MayExpand(QueueText(q))
  {
    hide Infix, Wrapped, Equals, PortsText, AnyPortsText, MayExpand;
    ShortTextIsFlat();
    var r := Reversed(t);
    AnyPortsAreFlat(t.sport, t.dport);
    AnyPortsAreFlat(r.sport, r.dport);
  }

  lemma AnyPortsAreFlat(sport: nat, dport: nat)
    ensures !MayExpand(AnyPortsText(sport, dport))
  {
    hide Infix, Wrapped, PortsText, MayExpand;
    ShortTextIsFlat();
    ProtocolTextIsFlat();
    PortTextIsFlat();
  }

  lemma ShortTextIsFlat()
    ensures !MayExpand("&") && !MayExpand("|") && !MayExpand("=") && !MayExpand("sip") && !MayExpand("dip")
    ensures !MayExpand("node") && !MayExpand("intf") && !MayExpand("qidx")
  {
  }

  lemma ProtocolTextIsFlat()
    ensures !MayExpand("l3Prot=17") && !MayExpand("l3Prot=0xFC") && !MayExpand("l3Prot=0xFD")
    ensures !MayExpand("l3Prot=0x0")
  {
  }

  lemma PortTextIsFlat()
    ensures !MayExpand("data.sport") && !MayExpand("data.dport") && !MayExpand("ack.sport") && !MayExpand("ack.dport")
    ensures !MayExpand("qp.sport") && !MayExpand("qp.dport")
  {
  }

  /** The text a shorthand stands for; shorthands take the operator = only. */
  function Expansion(name: string, op: Op, value: string): (r: Option<string>)
    ensures r.Some? ==> MayExpand(name) && !MayExpand(r.value)
  {
    if name == "flow" || name == "biflow" || name == "rflow" then
      assert "flow"[3] == 'w' && "biflow"[5] == 'w' && "rflow"[4] == 'w';
      if op != Eq then None else
      match ReadFourTuple(value)
      case None => None
      case Some(t) =>
        ExpansionsAreFlat(t, QueueTuple(0, 0, 0));
        ExpansionsAreFlat(Reversed(t), QueueTuple(0, 0, 0));
        Some(if name == "flow" then FlowText(t) else if name == "biflow" then BiflowText(t) else FlowText(Reversed(t)))
    else if name == "queue" then
      assert "queue"[1] == 'u';
      if op != Eq then None else
      match ReadQueueTuple(value)
      case None => None
      case Some(q) =>
        ExpansionsAreFlat(FourTuple(0, 0, 0, 0), q);
        Some(QueueText(q))
    else None
  }

  // ----- parser

  /** The value of a base expression: the C conversion %li. Text that it cannot convert leaves the
      variable unset; junk stands for what is then found in it. */
  function ReadValue(junk: string -> nat, text: string): nat {
    match ReadAnyBase(text, 0)
    case None => junk(text) % QWORD
    case Some(n) => Clamp(n.value, LONG_MAX)
  }

  function GetField(junk: string -> nat, field: string, op: Op, value: string): Option<Filter> {
    match FieldNamed(field)
    case None => None
    case Some(f) => Some(Leaf(f, op, ReadValue(junk, value) % Capacity(f)))
  }

  function Join(connective: char, left: Filter, right: Filter): Filter {
    if connective == '&' then And(left, right) else Or(left, right)
  }

  /** A base expression: a field, or a shorthand, which is parsed again. Shorthand text never leads
      to another shorthand, so this ends although the text grows. */
  function ParseBase(junk: string -> nat, field: string, op: Op, value: string): Option<Filter>
    decreases if MayExpand(field) then 1 else 0, 0, 1
  {
    match GetField(junk, field, op, value)
    case Some(leaf) => Some(leaf)
    case None =>
      match Expansion(field, op, value)
      case None => None
      case Some(text) => Parse(junk, text)
  }

  function Parse(junk: string -> nat, expr: string): Option<Filter>
    decreases if MayExpand(expr) then 1 else 0, |expr| + 1, 1
  {
    ParseStripped(junk, StripOuterBracket(expr))
  }

  function ParseStripped(junk: string -> nat, s: string): Option<Filter>
    decreases if MayExpand(s) then 1 else 0, |s| + 1, 0
  {
    var m := MatchBase(s);
    if m.Some? && m.value.rest == |s| then
      ParseBase(junk, m.value.field, m.value.op, m.value.value)
    else if m.Some? && IsConnective(s[m.value.rest]) && OneLine(s[m.value.rest + 1..]) then
      match ParseBase(junk, m.value.field, m.value.op, m.value.value)
      case None => None
      case Some(left) =>
        match Parse(junk, s[m.value.rest + 1..])
        case None => None
        case Some(right) => Some(Join(s[m.value.rest], left, right))
    else
      ParseBracketed(junk, s)
  }

  function ParseBracketed(junk: string -> nat, s: string): Option<Filter>
    decreases if MayExpand(s) then 1 else 0, |s|, 2
  {
    var i := Span(s, 0, IsSpace);
    if i >= |s| || s[i] != '(' then None
    else
      var j := CloseIndex(s, i + 1, 1);
      if j >= |s| then None
      else
        match Parse(junk, s[i + 1..j])
        case None => None
        case Some(left) =>
          match SplitConnective(s[j + 1..])
          case None => None // the right part stays empty, and parsing empty text fails
          case Some(split) =>
            match Parse(junk, split.1)
            case None => None
            case Some(right) => Some(Join(split.0, left, right))
  }
}
