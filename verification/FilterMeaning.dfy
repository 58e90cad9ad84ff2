/** Printing and parsing filters, and what the shorthands accept. */
module FilterMeaning {
  import opened Options
  import opened FilterText
  import opened TraceFilters
  import opened FilterGrammar

  // ----- printing

  /** A filter as text: leaves as name, operator, decimal; inner nodes as (left)&(right) or (left)|(right). */
  function TextOf(name: Field -> string, n: Filter): string {
    match n
    case Leaf(f, op, value) => name(f) + OpText(op) + Dec(value)
    case And(l, r) => Infix(Wrapped(TextOf(name, l)), '&', Wrapped(TextOf(name, r)))
    case Or(l, r) => Infix(Wrapped(TextOf(name, l)), '|', Wrapped(TextOf(name, r)))
  }

  function Print(n: Filter): string {
    TextOf(FieldText, n)
  }

  /** What the original prints instead: the byte offset of a field, in square brackets, for its name. */
  function Str(offset: Field -> nat, n: Filter): string {
    TextOf(f => "[" + Dec(offset(f)) + "]", n)
  }

  /** Values fit their fields and the range of the number reader. */
  predicate Fits(n: Filter) {
    match n
    case Leaf(f, _, value) => value < Capacity(f) && value <= LONG_MAX
    case And(l, r) => Fits(l) && Fits(r)
    case Or(l, r) => Fits(l) && Fits(r)
  }

  /** A base expression without spaces. */
  function Plain(field: string, op: Op, value: string): Atom {
    Base("", field, "", op, "", value, "")
  }

  function Single(a: Atom): Expr {
    Chain(a, End)
  }

  function Linked(a: Atom, c: char, x: Expr): Expr {
    Chain(a, Then(c, x, ""))
  }

  function InBrackets(x: Expr): Atom {
    Bracketed("", x, "")
  }

  function Pair(x: Expr, c: char, y: Expr): Expr {
    Linked(InBrackets(x), c, Single(InBrackets(y)))
  }

  function SyntaxOf(n: Filter): Expr {
    match n
    case Leaf(f, op, value) => Single(Plain(FieldText(f), op, Dec(value)))
    case And(l, r) => Pair(SyntaxOf(l), '&', SyntaxOf(r))
    case Or(l, r) => Pair(SyntaxOf(l), '|', SyntaxOf(r))
  }

  lemma PlainText(field: string, op: Op, value: string)
    requires field != "" && All(field, IsFieldChar) && value != "" && All(value, IsValueChar)
    ensures ValidAtom(Plain(field, op, value)) && RenderAtom(Plain(field, op, value)) == field + OpText(op) + value
    ensures OneLine(field + OpText(op) + value)
  {
    assert "" + field + "" + OpText(op) + "" + value + "" == field + OpText(op) + value;
  }

  lemma LinkedText(a: Atom, c: char, x: Expr)
    requires ValidAtom(a) && OneLine(RenderAtom(a)) && IsConnective(c) && Valid(x) && OneLine(Render(x))
    ensures Valid(Linked(a, c, x)) && Render(Linked(a, c, x)) == Infix(RenderAtom(a), c, Render(x))
    ensures OneLine(Infix(RenderAtom(a), c, Render(x)))
  {
    var t := Infix(RenderAtom(a), c, Render(x));
    assert t + "" == t;
  }

  lemma BracketsText(x: Expr)
    requires Valid(x) && OneLine(Render(x))
    ensures ValidAtom(InBrackets(x)) && RenderAtom(InBrackets(x)) == Wrapped(Render(x)) && OneLine(Wrapped(Render(x)))
  {
    var t := Wrapped(Render(x));
    assert "" + t + "" == t;
  }

  lemma FieldTextOk(f: Field)
    ensures FieldNamed(FieldText(f)) == Some(f) && FieldText(f) != "" && All(FieldText(f), IsFieldChar)
  {
    hide FieldText, FieldNamed, IsFieldChar;
    FieldNameFound(f);
    FieldTextClass(f);
  }

  lemma FieldNameFound(f: Field)
    ensures FieldNamed(FieldText(f)) == Some(f)
  {
    match f
    case Time => case NodeId => case NodeType => case Intf => case Qidx => case Qlen => case Sip => case Dip =>
    case Size => case L3Prot => case EventCode => case Ecn =>
    case DataSport => case DataDport => case DataSeq => case AckSport => case AckDport => case AckFlags =>
    case QpSport => case QpDport =>
  }

  lemma FieldTextClass(f: Field)
    ensures FieldText(f) != "" && All(FieldText(f), IsFieldChar)
  {
  }

  lemma DecIsValue(n: nat)
    ensures All(Dec(n), IsValueChar)
  {
  }

  lemma {:induction false} PrintIsSyntax(n: Filter)
    ensures Valid(SyntaxOf(n)) && Render(SyntaxOf(n)) == Print(n) && OneLine(Print(n))
  {
    hide Valid, ValidAtom, Render, RenderAtom, Infix, Wrapped, FieldText, OpText, Dec;
    match n
    case Leaf(f, op, value) =>
      FieldTextOk(f);
      DecIsValue(value);
      PlainText(FieldText(f), op, Dec(value));
      SingleText(Plain(FieldText(f), op, Dec(value)));
    case And(l, r) =>
      PrintIsSyntax(l);
      PrintIsSyntax(r);
      PairText(SyntaxOf(l), '&', SyntaxOf(r));
    case Or(l, r) =>
      PrintIsSyntax(l);
      PrintIsSyntax(r);
      PairText(SyntaxOf(l), '|', SyntaxOf(r));
  }

  lemma SingleText(a: Atom)
    requires ValidAtom(a)
    ensures Valid(Single(a)) && Render(Single(a)) == RenderAtom(a)
  {
  }

  lemma PairText(x: Expr, c: char, y: Expr)
    requires IsConnective(c) && Valid(x) && Valid(y) && OneLine(Render(x)) && OneLine(Render(y))
    ensures var t := Infix(Wrapped(Render(x)), c, Wrapped(Render(y)));
            Valid(Pair(x, c, y)) && Render(Pair(x, c, y)) == t && OneLine(t)
  {
    hide Valid, ValidAtom, Render, RenderAtom, Infix, Wrapped;
    BracketsText(x);
    BracketsText(y);
    SingleText(InBrackets(y));
    LinkedText(InBrackets(x), c, Single(InBrackets(y)));
  }

  lemma PairMeaning(junk: string -> nat, x: Expr, c: char, y: Expr)
    ensures Denote(Parsed(junk), Pair(x, c, y)) ==
              var l, r := Denote(Parsed(junk), x), Denote(Parsed(junk), y);
              if l.None? || r.None? then None else Some(Join(c, l.value, r.value))
  {
    assert Denote(Parsed(junk), Single(InBrackets(y))) == Denote(Parsed(junk), y);
  }

  lemma LeafMeaning(junk: string -> nat, f: Field, op: Op, n: nat)
    ensures ParseBase(junk, FieldText(f), op, Dec(n)) == Some(Leaf(f, op, Clamp(n, LONG_MAX) % Capacity(f)))
  {
    FieldTextOk(f);
    ReadDec(n);
  }

  lemma ResidueFits(n: nat, m: nat)
    requires m > 0
    ensures Clamp(n, LONG_MAX) % m == n <==> n < m && n <= LONG_MAX
  {
  }

  lemma {:induction false} SyntaxMeaning(junk: string -> nat, n: Filter)
    ensures Denote(Parsed(junk), SyntaxOf(n)).Some?
    ensures Denote(Parsed(junk), SyntaxOf(n)) == Some(n) <==> Fits(n)
  {
    match n
    case Leaf(f, op, value) =>
      LeafMeaning(junk, f, op, value);
      ResidueFits(value, Capacity(f));
    case And(l, r) =>
      SyntaxMeaning(junk, l);
      SyntaxMeaning(junk, r);
      PairMeaning(junk, SyntaxOf(l), '&', SyntaxOf(r));
    case Or(l, r) =>
      SyntaxMeaning(junk, l);
      SyntaxMeaning(junk, r);
      PairMeaning(junk, SyntaxOf(l), '|', SyntaxOf(r));
  }

  /** Parsing undoes printing exactly for the filters whose values fit. */
  lemma PrintParseRoundTrip(junk: string -> nat, n: Filter)
    ensures Parse(junk, Print(n)) == Some(n) <==> Fits(n)
  {
    hide Parse;
    PrintIsSyntax(n);
    ParseRender(junk, SyntaxOf(n));
    SyntaxMeaning(junk, n);
  }

  // ----- accepted filters print to a stable form

  /** Everything the parser returns fits, if unset variables hold no more than a signed long. */
  lemma {:induction false} ParsedFits(junk: string -> nat, expr: string)
    requires forall t :: junk(t) <= LONG_MAX
    requires Parse(junk, expr).Some?
    ensures Fits(Parse(junk, expr).value)
    decreases if MayExpand(expr) then 1 else 0, |expr| + 1, 1
  {
    hide StripOuterBracket, Fits, ParseStripped;
    var s := StripOuterBracket(expr);
    StrippedFits(junk, s);
  }

  lemma {:induction false} StrippedFits(junk: string -> nat, s: string)
    requires forall t :: junk(t) <= LONG_MAX
    requires ParseStripped(junk, s).Some?
    ensures Fits(ParseStripped(junk, s).value)
    decreases if MayExpand(s) then 1 else 0, |s| + 1, 0
  {
    hide MatchBase, Parse, ParseBase, ParseBracketed, Fits, MayExpand, IsConnective;
    var m := MatchBase(s);
    SubtextExpands(s);
    if m.Some? && m.value.rest == |s| {
      BaseFits(junk, m.value.field, m.value.op, m.value.value);
    } else if m.Some? && IsConnective(s[m.value.rest]) && OneLine(s[m.value.rest + 1..]) {
      BaseFits(junk, m.value.field, m.value.op, m.value.value);
      ParsedFits(junk, s[m.value.rest + 1..]);
    } else {
      var i := Span(s, 0, IsSpace);
      var j := BracketFound(junk, s);
      BracketParts(junk, s, i, j);
      SubtextExpands(s[j + 1..]);
      ParsedFits(junk, s[i + 1..j]);
      ParsedFits(junk, SplitConnective(s[j + 1..]).value.1);
    }
    forall c, l, r | Fits(l) && Fits(r) ensures Fits(Join(c, l, r)) { JoinFits(c, l, r); }
  }

  lemma JoinFits(c: char, l: Filter, r: Filter)
    requires Fits(l) && Fits(r)
    ensures Fits(Join(c, l, r))
  {
  }

  /** Parts of a text contain no letters that the text does not. */
  lemma SubtextExpands(s: string)
    ensures forall i, j :: 0 <= i <= j <= |s| && MayExpand(s[i..j]) ==> MayExpand(s)
    ensures forall i :: 0 <= i <= |s| && MayExpand(s[i..]) ==> MayExpand(s)
    ensures MatchBase(s).Some? && MayExpand(MatchBase(s).value.field) ==> MayExpand(s)
    ensures SplitConnective(s).Some? && MayExpand(SplitConnective(s).value.1) ==> MayExpand(s)
  {
    hide MatchBase, SplitConnective;
  }

  lemma {:induction false} BaseFits(junk: string -> nat, field: string, op: Op, value: string)
    requires forall t :: junk(t) <= LONG_MAX
    requires ParseBase(junk, field, op, value).Some?
    ensures Fits(ParseBase(junk, field, op, value).value)
    decreases if MayExpand(field) then 1 else 0, 0, 1
  {
    hide ReadAnyBase, Parse, FieldNamed;
    if GetField(junk, field, op, value).Some? {
      Residue(ReadValue(junk, value), Capacity(FieldNamed(field).value));
    } else {
      ParsedFits(junk, Expansion(field, op, value).value);
    }
  }

  lemma Residue(n: nat, m: nat)
    requires m > 0
    ensures n % m < m && n % m <= n
  {
  }

  /** The printed form of an accepted filter means the same filter. */
  lemma PrintedFormIsStable(junk: string -> nat, expr: string)
    requires forall t :: junk(t) <= LONG_MAX
    requires Parse(junk, expr).Some?
    ensures Parse(junk, Print(Parse(junk, expr).value)) == Parse(junk, expr)
  {
    hide Parse;
    ParsedFits(junk, expr);
    PrintParseRoundTrip(junk, Parse(junk, expr).value);
  }

  // ----- the original's own output is not filter text

  predicate Mentions(s: string, c: char) {
    c in s
  }

  lemma {:induction false} NoSquareBrackets(x: Expr)
    requires Valid(x)
    ensures !Mentions(Render(x), '[')
  {
    hide Mentions, Infix, Wrapped, Valid, ValidAtom, IsConnective;
    PartsValid(x);
    match x.first {
      case Base(_, _, _, _, _, _, _) => BaseMentions(x.first);
      case Bracketed(w1, inner, w4) =>
        NoSquareBrackets(inner);
        BracketMentions(w1, Render(inner), w4);
    }
    match x.rest {
      case End =>
      case Then(c, tail, trail) =>
        NoSquareBrackets(tail);
        ChainMentions(RenderAtom(x.first), c, Render(tail), trail);
    }
  }

  lemma PartsValid(x: Expr)
    requires Valid(x)
    ensures ValidAtom(x.first)
    ensures x.first.Bracketed? ==> Valid(x.first.inner) && !Mentions(x.first.w1, '[') && !Mentions(x.first.w4, '[')
    ensures x.rest.Then? ==> Valid(x.rest.tail) && IsConnective(x.rest.connective) && !Mentions(x.rest.trail, '[')
  {
  }

  lemma BaseMentions(a: Atom)
    requires a.Base? && ValidAtom(a)
    ensures !Mentions(RenderAtom(a), '[')
  {
  }

  lemma BracketMentions(w1: string, e: string, w4: string)
    requires !Mentions(w1, '[') && !Mentions(e, '[') && !Mentions(w4, '[')
    ensures !Mentions(w1 + Wrapped(e) + w4, '[')
  {
  }

  lemma ChainMentions(a: string, c: char, e: string, trail: string)
    requires !Mentions(a, '[') && IsConnective(c) && !Mentions(e, '[') && !Mentions(trail, '[')
    ensures !Mentions(Infix(a, c, e) + trail, '[')
  {
  }

  lemma {:induction false} StrHasSquareBracket(offset: Field -> nat, n: Filter)
    ensures Mentions(Str(offset, n), '[')
  {
    match n
    case Leaf(f, op, value) => assert Str(offset, n)[0] == '[';
    case And(l, r) =>
      StrHasSquareBracket(offset, l);
      assert Str(offset, n) == Infix(Wrapped(Str(offset, l)), '&', Wrapped(Str(offset, r)));
    case Or(l, r) =>
      StrHasSquareBracket(offset, l);
      assert Str(offset, n) == Infix(Wrapped(Str(offset, l)), '|', Wrapped(Str(offset, r)));
  }

  /** The text of the whole object; an object without a tree prints nothing. */
  function StrOf(offset: Field -> nat, root: Option<Filter>): string {
    if root.None? then "" else Str(offset, root.value)
  }

  /** Nothing the object prints parses to a tree: only an object without one survives its own output. */
  lemma StrNeverParses(junk: string -> nat, offset: Field -> nat, root: Option<Filter>)
    ensures Parse(junk, StrOf(offset, root)) == None
    ensures Parse(junk, StrOf(offset, root)) == root <==> root == None
  {
    hide Parse, Valid, Render, Str, Mentions;
    if Parse(junk, StrOf(offset, root)).Some? {
      var x := ParseSound(junk, StrOf(offset, root));
      NoSquareBrackets(x);
      if root.Some? {
        StrHasSquareBracket(offset, root.value);
      } else {
        RenderNotEmpty(x);
      }
      assert false;
    }
  }

  lemma RenderNotEmpty(x: Expr)
    requires Valid(x)
    ensures Render(x) != ""
  {
    hide Render;
    assert RenderAtom(x.first) != "" && |Render(x)| >= |RenderAtom(x.first)| by { AtomNotEmpty(x); }
  }

  lemma AtomNotEmpty(x: Expr)
    requires Valid(x)
    ensures RenderAtom(x.first) != "" && |Render(x)| >= |RenderAtom(x.first)|
  {
    hide OpText;
  }

  // ----- the flow shorthands

  predicate FitsTuple(t: FourTuple) {
    t.sip < DWORD && t.dip < DWORD && t.sport < WORD && t.dport < WORD
  }

  function Is(f: Field, n: nat): Filter {
    Leaf(f, Eq, n)
  }

  function PortsFilter(proto: Filter, s: Field, d: Field, t: FourTuple): Filter {
    And(proto, And(Is(s, t.sport), Is(d, t.dport)))
  }

  function QueueFilter(q: QueueTuple): Filter {
    And(Is(NodeId, q.node), And(Is(Intf, q.intf), Is(Qidx, q.qidx)))
  }

  function FlowFilter(t: FourTuple): Filter {
    And(Is(Sip, t.sip), And(Is(Dip, t.dip),
      Or(PortsFilter(Is(L3Prot, 17), DataSport, DataDport, t),
      Or(PortsFilter(Or(Is(L3Prot, 252), Is(L3Prot, 253)), AckSport, AckDport, t),
         PortsFilter(Is(L3Prot, 0), QpSport, QpDport, t)))))
  }

  /** A text of the grammar, its rendering and its meaning, on one line. */
  ghost predicate Means(junk: string -> nat, x: Expr, text: string, n: Filter) {
    Valid(x) && Render(x) == text && OneLine(text) && Denote(Parsed(junk), x) == Some(n)
  }

  ghost predicate AtomMeans(junk: string -> nat, a: Atom, text: string, n: Filter) {
    ValidAtom(a) && RenderAtom(a) == text && OneLine(text) && DenoteAtom(Parsed(junk), a) == Some(n)
  }

  lemma MeansParse(junk: string -> nat, x: Expr, text: string, n: Filter)
    requires Means(junk, x, text, n)
    ensures Parse(junk, text) == Some(n)
  {
    hide Parse;
    ParseRender(junk, x);
  }

  lemma SingleMeans(junk: string -> nat, a: Atom, text: string, n: Filter)
    requires AtomMeans(junk, a, text, n)
    ensures Means(junk, Single(a), text, n)
  {
    SingleText(a);
  }

  lemma LinkedMeans(junk: string -> nat, a: Atom, at: string, an: Filter, c: char, x: Expr, xt: string, xn: Filter)
    requires AtomMeans(junk, a, at, an) && Means(junk, x, xt, xn) && IsConnective(c)
    ensures Means(junk, Linked(a, c, x), Infix(at, c, xt), Join(c, an, xn))
  {
    hide Infix;
    LinkedText(a, c, x);
  }

  lemma BracketsMean(junk: string -> nat, x: Expr, text: string, n: Filter)
    requires Means(junk, x, text, n)
    ensures AtomMeans(junk, InBrackets(x), Wrapped(text), n)
  {
    hide Wrapped;
    BracketsText(x);
  }

  lemma EqualsMeans(junk: string -> nat, f: Field, n: nat)
    requires n < Capacity(f) && n <= LONG_MAX
    ensures AtomMeans(junk, Plain(FieldText(f), Eq, Dec(n)), Equals(FieldText(f), n), Is(f, n))
  {
    hide ParseBase, Dec, FieldText, Capacity, Clamp, IsFieldChar, IsValueChar;
    FieldTextOk(f);
    DecIsValue(n);
    ResidueFits(n, Capacity(f));
    PlainText(FieldText(f), Eq, Dec(n));
    LeafMeaning(junk, f, Eq, n);
  }

  /** The protocol constants in the expansions. */
  lemma ProtocolMeans(junk: string -> nat, value: string, text: string, n: nat)
    requires value in {"17", "0xFC", "0xFD", "0x0"} && text == Infix("l3Prot", '=', value)
    requires n == if value == "17" then 17 else if value == "0xFC" then 252 else if value == "0xFD" then 253 else 0
    ensures AtomMeans(junk, Plain("l3Prot", Eq, value), text, Is(L3Prot, n))
  {
    ProtocolParses(junk, value, n);
    ProtocolText(value);
    hide ParseBase, ValidAtom, RenderAtom, OneLine;
  }

  lemma ProtocolParses(junk: string -> nat, value: string, n: nat)
    requires value in {"17", "0xFC", "0xFD", "0x0"}
    requires n == if value == "17" then 17 else if value == "0xFC" then 252 else if value == "0xFD" then 253 else 0
    ensures ParseBase(junk, "l3Prot", Eq, value) == Some(Is(L3Prot, n))
  {
    hide ReadAnyBase, FieldNamed;
    ReadProtocol(value, n);
    assert FieldNamed("l3Prot") == Some(L3Prot) by { FieldNameFound(L3Prot); }
  }

  lemma ProtocolText(value: string)
    requires value in {"17", "0xFC", "0xFD", "0x0"}
    ensures var a, text := Plain("l3Prot", Eq, value), Infix("l3Prot", '=', value);
            ValidAtom(a) && RenderAtom(a) == text && OneLine(text)
  {
    assert All("l3Prot", IsFieldChar) by { FieldTextClass(L3Prot); }
    assert value != "" && All(value, IsValueChar);
    hide All;
    PlainText("l3Prot", Eq, value);
  }

  lemma ReadProtocol(value: string, n: nat)
    requires value in {"17", "0xFC", "0xFD", "0x0"}
    requires n == if value == "17" then 17 else if value == "0xFC" then 252 else if value == "0xFD" then 253 else 0
    ensures ReadAnyBase(value, 0) == Some(Number(n, |value|))
  {
    if value == "17" {
      SpanIs(value, 0, 2, IsDigit);
      TwoDigits('1', '7', 10);
      assert value[0..2] == ['1', '7'];
    } else {
      SpanIs(value, 2, |value|, IsHexDigit);
      if value == "0x0" {
        assert value[2..3] == "0" && "0"[..0] == "";
      } else {
        TwoDigits(value[2], value[3], 16);
        assert value[2..4] == [value[2], value[3]];
      }
    }
  }

  lemma TwoDigits(a: char, b: char, base: nat)
    ensures Digits([a, b], base) == DigitValue(a) * base + DigitValue(b)
  {
    assert [a, b][..1] == [a] && [a][..0] == "";
    assert Digits([a], base) == DigitValue(a);
  }

  lemma PortsMean(junk: string -> nat, proto: Atom, pt: string, pn: Filter, s: Field, d: Field, t: FourTuple)
    returns (a: Atom)
    requires AtomMeans(junk, proto, pt, pn) && Capacity(s) == Capacity(d) == WORD && FitsTuple(t)
    ensures AtomMeans(junk, a, PortsText(pt, FieldText(s), FieldText(d), t.sport, t.dport), PortsFilter(pn, s, d, t))
  {
    hide AtomMeans, Means, Infix, Wrapped, Equals, FieldText;
    var sa, da := Plain(FieldText(s), Eq, Dec(t.sport)), Plain(FieldText(d), Eq, Dec(t.dport));
    var st, dt := Equals(FieldText(s), t.sport), Equals(FieldText(d), t.dport);
    EqualsMeans(junk, s, t.sport);
    EqualsMeans(junk, d, t.dport);
    SingleMeans(junk, da, dt, Is(d, t.dport));
    LinkedMeans(junk, sa, st, Is(s, t.sport), '&', Single(da), dt, Is(d, t.dport));
    var ports := Linked(sa, '&', Single(da));
    LinkedMeans(junk, proto, pt, pn, '&', ports, Infix(st, '&', dt), And(Is(s, t.sport), Is(d, t.dport)));
    var x := Linked(proto, '&', ports);
    BracketsMean(junk, x, Infix(pt, '&', Infix(st, '&', dt)), PortsFilter(pn, s, d, t));
    a := InBrackets(x);
  }

  lemma ConstantTexts()
    ensures Infix("l3Prot", '=', "17") == "l3Prot=17" && Infix("l3Prot", '=', "0x0") == "l3Prot=0x0"
    ensures Infix("l3Prot", '=', "0xFC") == "l3Prot=0xFC" && Infix("l3Prot", '=', "0xFD") == "l3Prot=0xFD"
    ensures FieldText(DataSport) == "data.sport" && FieldText(DataDport) == "data.dport"
    ensures FieldText(AckSport) == "ack.sport" && FieldText(AckDport) == "ack.dport"
    ensures FieldText(QpSport) == "qp.sport" && FieldText(QpDport) == "qp.dport"
    ensures FieldText(Sip) == "sip" && FieldText(Dip) == "dip"
    ensures Capacity(DataSport) == Capacity(DataDport) == Capacity(AckSport) == Capacity(AckDport)
            == Capacity(QpSport) == Capacity(QpDport) == WORD
  {
  }

  lemma AckProtocolMeans(junk: string -> nat) returns (a: Atom)
    ensures AtomMeans(junk, a, Wrapped(Infix("l3Prot=0xFC", '|', "l3Prot=0xFD")), Or(Is(L3Prot, 252), Is(L3Prot, 253)))
  {
    hide AtomMeans, Means, Infix, Wrapped;
    ConstantTexts();
    var fc, fd := Plain("l3Prot", Eq, "0xFC"), Plain("l3Prot", Eq, "0xFD");
    ProtocolMeans(junk, "0xFC", "l3Prot=0xFC", 252);
    ProtocolMeans(junk, "0xFD", "l3Prot=0xFD", 253);
    SingleMeans(junk, fd, "l3Prot=0xFD", Is(L3Prot, 253));
    LinkedMeans(junk, fc, "l3Prot=0xFC", Is(L3Prot, 252), '|', Single(fd), "l3Prot=0xFD", Is(L3Prot, 253));
    BracketsMean(junk, Linked(fc, '|', Single(fd)), Infix("l3Prot=0xFC", '|', "l3Prot=0xFD"),
                 Or(Is(L3Prot, 252), Is(L3Prot, 253)));
    a := InBrackets(Linked(fc, '|', Single(fd)));
  }

  lemma AnyPortsMean(junk: string -> nat, t: FourTuple) returns (a: Atom)
    requires FitsTuple(t)
    ensures AtomMeans(junk, a, AnyPortsText(t.sport, t.dport), FlowFilter(t).right.right)
  {
    hide AtomMeans, Means, Infix, Wrapped, PortsText, FieldText, PortsFilter, Capacity, FitsTuple;
    ConstantTexts();
    ProtocolMeans(junk, "17", "l3Prot=17", 17);
    ProtocolMeans(junk, "0x0", "l3Prot=0x0", 0);
    var ackProto := AckProtocolMeans(junk);
    var ackText, ackFilter := Wrapped(Infix("l3Prot=0xFC", '|', "l3Prot=0xFD")), Or(Is(L3Prot, 252), Is(L3Prot, 253));
    var data := PortsMean(junk, Plain("l3Prot", Eq, "17"), "l3Prot=17", Is(L3Prot, 17), DataSport, DataDport, t);
    var ack := PortsMean(junk, ackProto, ackText, ackFilter, AckSport, AckDport, t);
    var qp := PortsMean(junk, Plain("l3Prot", Eq, "0x0"), "l3Prot=0x0", Is(L3Prot, 0), QpSport, QpDport, t);
    a := EitherMeans(junk,
                     data, PortsText("l3Prot=17", "data.sport", "data.dport", t.sport, t.dport),
                     PortsFilter(Is(L3Prot, 17), DataSport, DataDport, t),
                     ack, PortsText(ackText, "ack.sport", "ack.dport", t.sport, t.dport),
                     PortsFilter(ackFilter, AckSport, AckDport, t),
                     qp, PortsText("l3Prot=0x0", "qp.sport", "qp.dport", t.sport, t.dport),
                     PortsFilter(Is(L3Prot, 0), QpSport, QpDport, t));
  }

  lemma EitherMeans(junk: string -> nat, a: Atom, at: string, an: Filter, b: Atom, bt: string, bn: Filter,
                    c: Atom, ct: string, cn: Filter) returns (r: Atom)
    requires AtomMeans(junk, a, at, an) && AtomMeans(junk, b, bt, bn) && AtomMeans(junk, c, ct, cn)
    ensures AtomMeans(junk, r, Wrapped(Infix(at, '|', Infix(bt, '|', ct))), Or(an, Or(bn, cn)))
  {
    hide AtomMeans, Means, Infix, Wrapped;
    SingleMeans(junk, c, ct, cn);
    LinkedMeans(junk, b, bt, bn, '|', Single(c), ct, cn);
    LinkedMeans(junk, a, at, an, '|', Linked(b, '|', Single(c)), Infix(bt, '|', ct), Or(bn, cn));
    r := InBrackets(Linked(a, '|', Linked(b, '|', Single(c))));
    BracketsMean(junk, Linked(a, '|', Linked(b, '|', Single(c))), Infix(at, '|', Infix(bt, '|', ct)),
                 Or(an, Or(bn, cn)));
  }

  lemma FlowMeans(junk: string -> nat, t: FourTuple) returns (x: Expr)
    requires FitsTuple(t)
    ensures Means(junk, x, FlowText(t), FlowFilter(t))
  {
    hide AtomMeans, Means, Infix, Wrapped, AnyPortsText, Equals;
    ConstantTexts();
    var ports := AnyPortsMean(junk, t);
    var pt, pn := AnyPortsText(t.sport, t.dport), FlowFilter(t).right.right;
    var sip, dip := Plain("sip", Eq, Dec(t.sip)), Plain("dip", Eq, Dec(t.dip));
    EqualsMeans(junk, Sip, t.sip);
    EqualsMeans(junk, Dip, t.dip);
    SingleMeans(junk, ports, pt, pn);
    LinkedMeans(junk, dip, Equals("dip", t.dip), Is(Dip, t.dip), '&', Single(ports), pt, pn);
    LinkedMeans(junk, sip, Equals("sip", t.sip), Is(Sip, t.sip), '&', Linked(dip, '&', Single(ports)),
                Infix(Equals("dip", t.dip), '&', pt), And(Is(Dip, t.dip), pn));
    x := Linked(sip, '&', Linked(dip, '&', Single(ports)));
  }

  lemma BiflowMeans(junk: string -> nat, t: FourTuple) returns (x: Expr)
    requires FitsTuple(t)
    ensures Means(junk, x, BiflowText(t), Or(FlowFilter(t), FlowFilter(Reversed(t))))
  {
    hide AtomMeans, Means, Infix, Wrapped, FlowText, FlowFilter;
    var r := Reversed(t);
    var fwd := FlowMeans(junk, t);
    var rev := FlowMeans(junk, r);
    BracketsMean(junk, fwd, FlowText(t), FlowFilter(t));
    BracketsMean(junk, rev, FlowText(r), FlowFilter(r));
    SingleMeans(junk, InBrackets(rev), Wrapped(FlowText(r)), FlowFilter(r));
    LinkedMeans(junk, InBrackets(fwd), Wrapped(FlowText(t)), FlowFilter(t), '|',
                Single(InBrackets(rev)), Wrapped(FlowText(r)), FlowFilter(r));
    x := Linked(InBrackets(fwd), '|', Single(InBrackets(rev)));
  }

  lemma QueueMeans(junk: string -> nat, q: QueueTuple) returns (x: Expr)
    requires q.node < WORD && q.intf < BYTE && q.qidx < BYTE
    ensures Means(junk, x, QueueText(q), QueueFilter(q))
  {
    hide AtomMeans, Means, Infix, Equals;
    assert FieldText(NodeId) == "node" && FieldText(Intf) == "intf" && FieldText(Qidx) == "qidx";
    var n, i, d := Plain("node", Eq, Dec(q.node)), Plain("intf", Eq, Dec(q.intf)), Plain("qidx", Eq, Dec(q.qidx));
    EqualsMeans(junk, NodeId, q.node);
    EqualsMeans(junk, Intf, q.intf);
    EqualsMeans(junk, Qidx, q.qidx);
    SingleMeans(junk, d, Equals("qidx", q.qidx), Is(Qidx, q.qidx));
    LinkedMeans(junk, i, Equals("intf", q.intf), Is(Intf, q.intf), '&', Single(d), Equals("qidx", q.qidx),
                Is(Qidx, q.qidx));
    LinkedMeans(junk, n, Equals("node", q.node), Is(NodeId, q.node), '&', Linked(i, '&', Single(d)),
                Infix(Equals("intf", q.intf), '&', Equals("qidx", q.qidx)), And(Is(Intf, q.intf), Is(Qidx, q.qidx)));
    x := Linked(n, '&', Linked(i, '&', Single(d)));
  }

  lemma ReadTuplesFit(value: string)
    ensures ReadFourTuple(value).Some? ==> FitsTuple(ReadFourTuple(value).value)
    ensures ReadQueueTuple(value).Some? ==>
              var q := ReadQueueTuple(value).value; q.node < WORD && q.intf < BYTE && q.qidx < BYTE
  {
    hide ReadAnyBase, ReadDecimal;
  }

  lemma FlowTextsParse(junk: string -> nat, t: FourTuple)
    requires FitsTuple(t)
    ensures Parse(junk, FlowText(t)) == Some(FlowFilter(t))
    ensures Parse(junk, FlowText(Reversed(t))) == Some(FlowFilter(Reversed(t)))
    ensures Parse(junk, BiflowText(t)) == Some(Or(FlowFilter(t), FlowFilter(Reversed(t))))
  {
    hide Parse, FlowText, BiflowText, FlowFilter, Means;
    var x := FlowMeans(junk, t);
    MeansParse(junk, x, FlowText(t), FlowFilter(t));
    x := FlowMeans(junk, Reversed(t));
    MeansParse(junk, x, FlowText(Reversed(t)), FlowFilter(Reversed(t)));
    x := BiflowMeans(junk, t);
    MeansParse(junk, x, BiflowText(t), Or(FlowFilter(t), FlowFilter(Reversed(t))));
  }

  lemma ShorthandNamesNoField()
    ensures FieldNamed("flow").None? && FieldNamed("rflow").None? && FieldNamed("biflow").None?
    ensures FieldNamed("queue").None?
  {
  }

  /** Flow shorthands, wherever they stand, mean the filter of their tuple; a tuple that cannot be read, or
      an operator other than =, makes them fail. */
  lemma FlowShorthands(junk: string -> nat, op: Op, value: string)
    ensures var t := if op == Eq then ReadFourTuple(value) else None;
            if t.None? then
              ParseBase(junk, "flow", op, value) == ParseBase(junk, "rflow", op, value)
              == ParseBase(junk, "biflow", op, value) == None
            else
              && ParseBase(junk, "flow", op, value) == Some(FlowFilter(t.value))
              && ParseBase(junk, "rflow", op, value) == Some(FlowFilter(Reversed(t.value)))
              && ParseBase(junk, "biflow", op, value) == Some(Or(FlowFilter(t.value), FlowFilter(Reversed(t.value))))
  {
    hide Parse, ReadFourTuple, FlowText, BiflowText, FlowFilter, FieldNamed;
    ReadTuplesFit(value);
    ShorthandNamesNoField();
    if op == Eq && ReadFourTuple(value).Some? {
      FlowTextsParse(junk, ReadFourTuple(value).value);
    }
  }

  /** So does queue. */
  lemma QueueShorthand(junk: string -> nat, op: Op, value: string)
    ensures var q := if op == Eq then ReadQueueTuple(value) else None;
            ParseBase(junk, "queue", op, value) == if q.None? then None else Some(QueueFilter(q.value))
  {
    hide Parse, ReadQueueTuple, QueueText, QueueFilter, FieldNamed, Means;
    ReadTuplesFit(value);
    ShorthandNamesNoField();
    if op == Eq && ReadQueueTuple(value).Some? {
      var q := ReadQueueTuple(value).value;
      var x := QueueMeans(junk, q);
      MeansParse(junk, x, QueueText(q), QueueFilter(q));
    }
  }

  // ----- the language as a whole

  /** What a base expression means: a comparison with the value cut to its field, or, after = only, the
      filter of a flow or a queue. */
  function BaseMeaning(junk: string -> nat, field: string, op: Op, value: string): Option<Filter> {
    match FieldNamed(field)
    case Some(f) => Some(Leaf(f, op, ReadValue(junk, value) % Capacity(f)))
    case None =>
      if op != Eq then None
      else if field in {"flow", "rflow", "biflow"} then
        match ReadFourTuple(value)
        case None => None
        case Some(t) =>
          Some(if field == "flow" then FlowFilter(t) else if field == "rflow" then FlowFilter(Reversed(t))
               else Or(FlowFilter(t), FlowFilter(Reversed(t))))
      else if field == "queue" then
        match ReadQueueTuple(value)
        case None => None
        case Some(q) => Some(QueueFilter(q))
      else None
  }

  function Meaning(junk: string -> nat): Reading {
    (field, op, value) => BaseMeaning(junk, field, op, value)
  }

  /** The parser reads base expressions, shorthands included, as they are meant. */
  lemma ParsesBaseMeaning(junk: string -> nat, field: string, op: Op, value: string)
    ensures ParseBase(junk, field, op, value) == BaseMeaning(junk, field, op, value)
  {
    hide Parse, ReadFourTuple, ReadQueueTuple, FlowFilter, QueueFilter, FlowText, BiflowText, QueueText, ReadValue;
    hide FieldNamed;
    ShorthandNamesNoField();
    if FieldNamed(field).None? {
      FlowShorthands(junk, op, value);
      QueueShorthand(junk, op, value);
    }
  }

  /** The parser accepts exactly the texts of the grammar that mean something, each with that meaning. */
  lemma ParsesExactlyMeaning(junk: string -> nat, e: string, n: Filter)
    ensures Parse(junk, e) == Some(n) <==> exists x :: Valid(x) && Render(x) == e && Denote(Meaning(junk), x) == Some(n)
  {
    hide Parse, Valid, Render, Denote, ParseBase, BaseMeaning;
    forall field: string, op: Op, value: string
      ensures Parsed(junk)(field, op, value) == Meaning(junk)(field, op, value)
    {
      ParsesBaseMeaning(junk, field, op, value);
    }
    forall x ensures Denote(Parsed(junk), x) == Denote(Meaning(junk), x) {
      SameReading(Parsed(junk), Meaning(junk), x);
    }
    ParsesExactlyGrammar(junk, e, n);
  }

  // ----- the expansion buffer

  lemma {:induction false} DecLength(n: nat, k: nat)
    requires k > 0 && n < Pow10(k)
    ensures |Dec(n)| <= k
  {
    if n >= 10 {
      DecLength(n / 10, k - 1);
    }
  }

  lemma EqualsLength(name: string, n: nat, k: nat)
    requires k > 0 && n < Pow10(k)
    ensures |Equals(name, n)| <= |name| + 1 + k
  {
    DecLength(n, k);
  }

  lemma PortsLength(proto: string, s: string, d: string, t: FourTuple)
    requires FitsTuple(t)
    ensures |PortsText(proto, s, d, t.sport, t.dport)| <= |proto| + |s| + |d| + 16
  {
    hide Equals;
    assert Pow10(5) == 100000 by { assert Pow10(3) == 1000; }
    EqualsLength(s, t.sport, 5);
    EqualsLength(d, t.dport, 5);
  }

  lemma FlowLength(t: FourTuple)
    requires FitsTuple(t)
    ensures |FlowText(t)| <= 180
  {
    hide Equals, PortsText;
    assert Pow10(10) == 10000000000 by { assert Pow10(3) == 1000 && Pow10(6) == 1000000; }
    EqualsLength("sip", t.sip, 10);
    EqualsLength("dip", t.dip, 10);
    PortsLength("l3Prot=17", "data.sport", "data.dport", t);
    PortsLength(Wrapped(Infix("l3Prot=0xFC", '|', "l3Prot=0xFD")), "ack.sport", "ack.dport", t);
    PortsLength("l3Prot=0x0", "qp.sport", "qp.dport", t);
  }

  /** Every expansion, with its terminator, fits the 512-byte buffer it is printed to. */
  lemma ExpansionsFitBuffer(name: string, op: Op, value: string)
    requires Expansion(name, op, value).Some?
    ensures |Expansion(name, op, value).value| + 1 <= 512
  {
    hide FlowText, ReadFourTuple, ReadQueueTuple, Equals;
    ReadTuplesFit(value);
    if name == "queue" {
      var q := ReadQueueTuple(value).value;
      assert Pow10(5) == 100000 by { assert Pow10(3) == 1000; }
      EqualsLength("node", q.node, 5);
      EqualsLength("intf", q.intf, 5);
      EqualsLength("qidx", q.qidx, 5);
    } else {
      var t := ReadFourTuple(value).value;
      FlowLength(t);
      FlowLength(Reversed(t));
    }
  }
}
