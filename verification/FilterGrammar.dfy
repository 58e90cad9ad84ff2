/** The concrete grammar of trace filters, with all spacing, and the proof that the parser accepts
    exactly the texts of that grammar and gives them their meaning. */
module FilterGrammar {
  import opened Options
  import opened FilterText
  import opened TraceFilters

  /** A chain of atoms joined by connectives. A chain after a bracket may be followed by a line end
      and spaces, which are dropped. */
  datatype Expr = Chain(first: Atom, rest: Rest)
  datatype Rest = End | Then(connective: char, tail: Expr, trail: string)
  datatype Atom =
    | Base(w1: string, field: string, w2: string, op: Op, w3: string, value: string, w4: string)
    | Bracketed(w1: string, inner: Expr, w4: string)

  function RenderAtom(a: Atom): string {
    match a
    case Base(w1, field, w2, op, w3, value, w4) => w1 + field + w2 + OpText(op) + w3 + value + w4
    case Bracketed(w1, inner, w4) => w1 + Wrapped(Render(inner)) + w4
  }

  function Render(x: Expr): string {
    match x.rest
    case End => RenderAtom(x.first)
    case Then(c, tail, trail) => Infix(RenderAtom(x.first), c, Render(tail)) + trail
  }

  predicate ValidAtom(a: Atom) {
    match a
    case Base(w1, field, w2, op, w3, value, w4) =>
      && All(w1, IsSpace) && All(w2, IsSpace) && All(w3, IsSpace) && All(w4, IsSpace)
      && field != "" && All(field, IsFieldChar) && value != "" && All(value, IsValueChar)
    case Bracketed(w1, inner, w4) => All(w1, IsSpace) && All(w4, IsSpace) && Valid(inner)
  }

  predicate Valid(x: Expr) {
    ValidAtom(x.first) &&
    match x.rest
    case End => true
    case Then(c, tail, trail) =>
      && IsConnective(c) && Valid(tail) && OneLine(Render(tail)) && All(trail, IsSpace)
      && (trail == "" || (x.first.Bracketed? && IsNewline(trail[0])))
  }

  /** What a base expression, given by field, operator and value, stands for. */
  type Reading = (string, Op, string) -> Option<Filter>

  /** The meaning of a text of the grammar: chains group to the right, whatever the connectives. */
  function DenoteAtom(read: Reading, a: Atom): Option<Filter> {
    match a
    case Base(_, field, _, op, _, value, _) => read(field, op, value)
    case Bracketed(_, inner, _) => Denote(read, inner)
  }

  function Denote(read: Reading, x: Expr): Option<Filter> {
    match x.rest
    case End => DenoteAtom(read, x.first)
    case Then(c, tail, _) =>
      var left := DenoteAtom(read, x.first);
      var right := Denote(read, tail);
      if left.None? || right.None? then None else Some(Join(c, left.value, right.value))
  }

  /** The reading that the parser gives. */
  function Parsed(junk: string -> nat): Reading {
    (field, op, value) => ParseBase(junk, field, op, value)
  }

  /** Readings that agree on all base expressions agree on all texts. */
  lemma {:induction false} SameReading(a: Reading, b: Reading, x: Expr)
    requires forall field: string, op: Op, value: string :: a(field, op, value) == b(field, op, value)
    ensures Denote(a, x) == Denote(b, x)
  {
    if x.first.Bracketed? {
      SameReading(a, b, x.first.inner);
    }
    if x.rest.Then? {
      SameReading(a, b, x.rest.tail);
    }
  }

  // ----- the lexical patterns against their decompositions

  lemma SpanOver(s: string, pre: string, run: string, post: string, p: char -> bool)
    requires s == pre + run + post && All(run, p) && (post == "" || !p(post[0]))
    ensures Span(s, |pre|, p) == |pre| + |run|
    ensures s[|pre|..|pre| + |run|] == run
  {
    SpanIs(s, |pre|, |pre| + |run|, p);
  }

  lemma OpOver(s: string, pre: string, op: Op, post: string)
    requires s == pre + OpText(op) + post && post != "" && post[0] != '='
    ensures OpAt(s, |pre|) == Some((op, |pre| + |OpText(op)|))
  {
    assert forall k :: 0 <= k < |OpText(op)| ==> s[|pre| + k] == OpText(op)[k];
    assert s[|pre| + |OpText(op)|] == post[0];
  }

  lemma MatchBaseBy(s: string, i: nat, j: nat, k: nat, op: Op, l: nat, m: nat, n: nat, o: nat)
    requires i < j <= k < l <= m < n <= |s|
    requires Span(s, 0, IsSpace) == i && Span(s, i, IsFieldChar) == j && Span(s, j, IsSpace) == k
    requires OpAt(s, k) == Some((op, l))
    requires Span(s, l, IsSpace) == m && Span(s, m, IsValueChar) == n && Span(s, n, IsSpace) == o
    ensures MatchBase(s) == Some(BaseMatch(s[i..j], op, s[m..n], o))
  {
    hide Span, OpAt;
  }

  /** A text that splits into spaces, field, spaces, operator, spaces, value, spaces and then ends or
      goes on with a connective is matched with just these parts. */
  lemma MatchBaseComplete(a: Atom, r: string)
    requires a.Base? && ValidAtom(a) && (r == "" || IsConnective(r[0]))
    ensures MatchBase(RenderAtom(a) + r) == Some(BaseMatch(a.field, a.op, a.value, |RenderAtom(a)|))
  {
    hide OpAt, OpText, IsFieldChar, IsValueChar, IsSpace, IsConnective, MatchBase;
    ClassesDisjoint();
    var Base(w1, f, w2, op, w3, v, w4) := a;
    var s := RenderAtom(a) + r;
    var p4 := w1 + f + w2 + OpText(op);
    BackOver(s, p4, w3, v, w4, r);
    FrontOver(s, w1, f, w2, op, w3 + (v + (w4 + r)));
    MatchBaseBy(s, |w1|, |w1 + f|, |w1 + f + w2|, op, |p4|, |p4 + w3|, |p4 + w3 + v|, |p4 + w3 + v + w4|);
  }

  lemma BackOver(s: string, p: string, w3: string, v: string, w4: string, r: string)
    requires s == p + w3 + v + w4 + r && (r == "" || IsConnective(r[0]))
    requires All(w3, IsSpace) && All(w4, IsSpace) && v != "" && All(v, IsValueChar)
    ensures s == p + (w3 + (v + (w4 + r)))
    ensures Span(s, |p|, IsSpace) == |p + w3| && Span(s, |p + w3|, IsValueChar) == |p + w3 + v|
    ensures s[|p + w3|..|p + w3 + v|] == v && Span(s, |p + w3 + v|, IsSpace) == |p + w3 + v + w4|
  {
    hide IsValueChar, IsSpace, IsConnective;
    ClassesDisjoint();
    Regroup(p + w3 + v, w4, r);
    Regroup(p + w3, v, w4 + r);
    Regroup(p, w3, v + (w4 + r));
    SpanOver(s, p, w3, v + (w4 + r), IsSpace);
    SpanOver(s, p + w3, v, w4 + r, IsValueChar);
    SpanOver(s, p + w3 + v, w4, r, IsSpace);
  }

  lemma FrontOver(s: string, w1: string, f: string, w2: string, op: Op, r: string)
    requires s == w1 + f + w2 + OpText(op) + r && r != "" && r[0] != '='
    requires All(w1, IsSpace) && All(w2, IsSpace) && f != "" && All(f, IsFieldChar)
    ensures Span(s, 0, IsSpace) == |w1| && Span(s, |w1|, IsFieldChar) == |w1 + f| && s[|w1|..|w1 + f|] == f
    ensures Span(s, |w1 + f|, IsSpace) == |w1 + f + w2|
    ensures OpAt(s, |w1 + f + w2|) == Some((op, |w1 + f + w2 + OpText(op)|))
  {
    hide OpAt, OpText, IsFieldChar, IsSpace;
    ClassesDisjoint();
    var o := OpText(op);
    BaseGroups(w1, f, w2, o, r);
    SpanOver(s, "", w1, f + (w2 + (o + r)), IsSpace);
    SpanOver(s, w1, f, w2 + (o + r), IsFieldChar);
    SpanOver(s, w1 + f, w2, o + r, IsSpace);
    OpOver(s, w1 + f + w2, op, r);
  }

  lemma BaseGroups(w1: string, f: string, w2: string, o: string, r: string)
    ensures var s := w1 + f + w2 + o + r;
            s == "" + w1 + (f + (w2 + (o + r))) && s == w1 + f + (w2 + (o + r)) && s == w1 + f + w2 + (o + r)
  {
    Regroup(w1 + f + w2, o, r);
    Regroup(w1 + f, w2, o + r);
    Regroup(w1, f, w2 + (o + r));
    assert "" + w1 == w1;
  }

  lemma Regroup(a: string, b: string, c: string)
    ensures a + (b + c) == a + b + c
  {
  }

  lemma ClassesDisjoint()
    ensures forall c :: IsFieldChar(c) || IsValueChar(c) || IsConnective(c) ==> !IsSpace(c)
    ensures forall c :: IsConnective(c) ==> !IsValueChar(c)
    ensures forall c :: IsSpace(c) || IsValueChar(c) ==> c != '='
    ensures forall op :: OpText(op) != "" && !IsSpace(OpText(op)[0]) && !IsFieldChar(OpText(op)[0])
    ensures forall c :: IsFieldChar(c) || IsSpace(c) ==> c != '('
  {
  }

  /** Whatever is matched splits in that way. */
  lemma MatchBaseSound(s: string) returns (a: Atom)
    requires MatchBase(s).Some?
    ensures a.Base? && ValidAtom(a) && s == RenderAtom(a) + s[MatchBase(s).value.rest..]
    ensures a.field == MatchBase(s).value.field && a.op == MatchBase(s).value.op && a.value == MatchBase(s).value.value
  {
    hide RenderAtom, OpText, IsSpace, IsFieldChar, IsValueChar, ValidAtom;
    var i := Span(s, 0, IsSpace);
    var j := Span(s, i, IsFieldChar);
    var k := Span(s, j, IsSpace);
    var op := OpAt(s, k).value;
    var l := Span(s, op.1, IsSpace);
    var m := Span(s, l, IsValueChar);
    var n := Span(s, m, IsSpace);
    a := Base(s[..i], s[i..j], s[j..k], op.0, s[op.1..l], s[l..m], s[m..n]);
    AtomText(s, i, j, k, op.0, op.1, l, m, n);
    PartsAreBase(s, i, j, k, op.0, op.1, l, m, n);
  }

  lemma PartsAreBase(s: string, i: nat, j: nat, k: nat, op: Op, o: nat, l: nat, m: nat, n: nat)
    requires i < j <= k <= o <= l < m <= n <= |s|
    requires Span(s, 0, IsSpace) == i && Span(s, i, IsFieldChar) == j && Span(s, j, IsSpace) == k
    requires Span(s, o, IsSpace) == l && Span(s, l, IsValueChar) == m && Span(s, m, IsSpace) == n
    ensures ValidAtom(Base(s[..i], s[i..j], s[j..k], op, s[o..l], s[l..m], s[m..n]))
  {
    hide IsSpace, IsFieldChar, IsValueChar, All;
    SpanAll(s, 0, IsSpace);
    assert s[..i] == s[0..i];
    SpanAll(s, i, IsFieldChar);
    SpanAll(s, j, IsSpace);
    SpanAll(s, o, IsSpace);
    SpanAll(s, l, IsValueChar);
    SpanAll(s, m, IsSpace);
  }

  lemma SpanAll(s: string, i: nat, p: char -> bool)
    requires i <= |s|
    ensures All(s[i..Span(s, i, p)], p)
  {
  }

  lemma AtomText(s: string, i: nat, j: nat, k: nat, op: Op, o: nat, l: nat, m: nat, n: nat)
    requires i <= j <= k <= o <= l <= m <= n <= |s| && s[k..o] == OpText(op)
    ensures s == RenderAtom(Base(s[..i], s[i..j], s[j..k], op, s[o..l], s[l..m], s[m..n])) + s[n..]
  {
    hide OpText;
    Slices(s, i, j);
    Slices(s, j, k);
    Slices(s, k, o);
    Slices(s, o, l);
    Slices(s, l, m);
    Slices(s, m, n);
    Slices(s, n, |s|);
  }

  lemma Slices(s: string, i: nat, j: nat)
    requires i <= j <= |s|
    ensures s[..i] + s[i..j] == s[..j] && s[..|s|] == s && s[i..|s|] == s[i..]
  {
  }

  lemma SplitComplete(w: string, c: char, right: string, trail: string)
    requires All(w, IsSpace) && IsConnective(c) && OneLine(right)
    requires All(trail, IsSpace) && (trail == "" || IsNewline(trail[0]))
    ensures SplitConnective(w + ([c] + right + trail)) == Some((c, right))
  {
    hide IsSpace, IsConnective, NotNewline;
    ClassesDisjoint();
    var s := w + ([c] + right + trail);
    SplitGroups(w, [c], right, trail);
    SpanOver(s, "", w, [c] + right + trail, IsSpace);
    OneLineIsAll(right);
    SpanOver(s, w + [c], right, trail, NotNewline);
    SpanOver(s, w + [c] + right, trail, "", IsSpace);
    SplitBy(s, |w|, |w| + 1 + |right|);
  }

  lemma SplitGroups(w: string, c: string, right: string, trail: string)
    ensures var s := w + (c + right + trail);
            s == "" + w + (c + right + trail) && s == w + c + right + trail && s == w + c + right + trail + ""
  {
    Regroup(w, c + right, trail);
    Regroup(w, c, right);
    assert "" + w == w && w + c + right + trail + "" == w + c + right + trail;
  }

  lemma OneLineIsAll(s: string)
    ensures OneLine(s) <==> All(s, NotNewline)
    ensures forall c :: IsNewline(c) <==> !NotNewline(c)
  {
  }

  lemma SplitBy(s: string, i: nat, j: nat)
    requires i < j <= |s| && Span(s, 0, IsSpace) == i && IsConnective(s[i])
    requires Span(s, i + 1, NotNewline) == j && Span(s, j, IsSpace) == |s|
    ensures SplitConnective(s) == Some((s[i], s[i + 1..j]))
  {
    hide Span;
  }

  lemma SplitParts(s: string) returns (i: nat, j: nat)
    requires SplitConnective(s).Some?
    ensures i < j <= |s| && SplitConnective(s).value == (s[i], s[i + 1..j])
    ensures All(s[..i], IsSpace) && IsConnective(s[i]) && OneLine(s[i + 1..j])
    ensures All(s[j..], IsSpace) && (j < |s| ==> IsNewline(s[j]))
  {
    i := Span(s, 0, IsSpace);
    j := Span(s, i + 1, NotNewline);
  }

  lemma SplitSound(s: string) returns (w: string, trail: string)
    requires SplitConnective(s).Some?
    ensures var (c, right) := SplitConnective(s).value;
            && s == w + ([c] + right + trail) && All(w, IsSpace) && IsConnective(c) && OneLine(right)
            && All(trail, IsSpace) && (trail == "" || IsNewline(trail[0]))
  {
    hide SplitConnective, IsSpace, IsConnective, IsNewline;
    var i, j := SplitParts(s);
    w, trail := s[..i], s[j..];
    SplitText(s, i, j);
  }

  lemma SplitText(s: string, i: nat, j: nat)
    requires i < j <= |s|
    ensures s == s[..i] + ([s[i]] + s[i + 1..j] + s[j..])
  {
  }

  // ----- brackets

  lemma {:induction false} RenderBalanced(x: Expr)
    requires Valid(x)
    ensures Balanced(Render(x))
  {
    match x.first {
      case Base(w1, field, w2, op, w3, value, w4) =>
        NoBracketsBalanced(RenderAtom(x.first));
      case Bracketed(w1, inner, w4) =>
        RenderBalanced(inner);
        NoBracketsBalanced(w1);
        NoBracketsBalanced(w4);
        BalancedWrap(Render(inner));
        BalancedAppend(w1, Wrapped(Render(inner)));
        BalancedAppend(w1 + Wrapped(Render(inner)), w4);
    }
    match x.rest {
      case End =>
      case Then(c, tail, trail) =>
        RenderBalanced(tail);
        NoBracketsBalanced([c]);
        NoBracketsBalanced(trail);
        BalancedAppend(RenderAtom(x.first), [c]);
        BalancedAppend(RenderAtom(x.first) + [c], Render(tail));
        BalancedAppend(Infix(RenderAtom(x.first), c, Render(tail)), trail);
    }
  }

  /** Where the scans land in a text that starts with a bracket. */
  lemma BracketScan(w1: string, e: string, post: string)
    requires All(w1, IsSpace) && Balanced(e)
    ensures var s := w1 + Wrapped(e) + post;
            && |w1| < |s| && Span(s, 0, IsSpace) == |w1| && s[|w1|] == '('
            && CloseIndex(s, |w1| + 1, 1) == |w1| + 1 + |e| < |s|
            && s[|w1| + 1..|w1| + 1 + |e|] == e
            && s[|w1| + 2 + |e|..] == post
  {
    var s := w1 + Wrapped(e) + post;
    assert s == "" + w1 + (Wrapped(e) + post);
    SpanOver(s, "", w1, Wrapped(e) + post, IsSpace);
    assert s[|w1| + 1..|w1| + 1 + |e|] == e;
    ClosesAfter(s, |w1| + 1, e);
  }

  /** Enclosing brackets and outer spaces disappear in stripping. */
  lemma StripWrapped(w1: string, e: string, w2: string)
    requires All(w1, IsSpace) && Balanced(e) && All(w2, IsSpace)
    ensures StripOuterBracket(w1 + Wrapped(e) + w2) == StripOuterBracket(e)
  {
    hide StripOuterBracket, Wrapped, CloseIndex, Span, Balanced, IsSpace;
    BracketScan(w1, e, w2);
    var s := w1 + Wrapped(e) + w2;
    assert s == (w1 + Wrapped(e)) + w2 + "";
    SpanOver(s, w1 + Wrapped(e), w2, "", IsSpace);
    StripStep(s, |w1|, |w1| + 1 + |e|);
  }

  lemma StripStep(s: string, i: nat, j: nat)
    requires i < j < |s| && Span(s, 0, IsSpace) == i && s[i] == '(' && CloseIndex(s, i + 1, 1) == j
    requires Span(s, j + 1, IsSpace) == |s|
    ensures StripOuterBracket(s) == StripOuterBracket(s[i + 1..j])
  {
    hide Span, CloseIndex;
  }

  /** Stripping twice is stripping once. */
  lemma {:induction false} StripIdempotent(s: string)
    ensures StripOuterBracket(StripOuterBracket(s)) == StripOuterBracket(s)
    decreases |s|
  {
    hide IsSpace;
    var i := Span(s, 0, IsSpace);
    if i < |s| && s[i] == '(' {
      var j := CloseIndex(s, i + 1, 1);
      if j < |s| && Span(s, j + 1, IsSpace) >= |s| {
        StripStep(s, i, j);
        hide StripOuterBracket;
        StripIdempotent(s[i + 1..j]);
      }
    }
  }

  lemma SameStripSameParse(junk: string -> nat, a: string, b: string)
    requires StripOuterBracket(a) == StripOuterBracket(b)
    ensures Parse(junk, a) == Parse(junk, b)
  {
    hide StripOuterBracket, ParseStripped;
  }

  /** Brackets around a balanced text, and spaces around them, never change its meaning ... */
  lemma WrappingKeepsMeaning(junk: string -> nat, w1: string, e: string, w2: string)
    requires All(w1, IsSpace) && Balanced(e) && All(w2, IsSpace)
    ensures Parse(junk, w1 + Wrapped(e) + w2) == Parse(junk, e)
  {
    StripWrapped(w1, e, w2);
    SameStripSameParse(junk, w1 + Wrapped(e) + w2, e);
  }

  /** The text inside any number of bracket pairs, each with text around it. */
  function Enclosed(around: seq<(string, string)>, e: string): string {
    if around == [] then e else around[0].0 + Wrapped(Enclosed(around[1..], e)) + around[0].1
  }

  /** ... and so do any number of bracket pairs. */
  lemma {:induction false} EnclosingKeepsMeaning(junk: string -> nat, around: seq<(string, string)>, e: string)
    requires Balanced(e) && forall k :: 0 <= k < |around| ==> All(around[k].0, IsSpace) && All(around[k].1, IsSpace)
    ensures Balanced(Enclosed(around, e)) && Parse(junk, Enclosed(around, e)) == Parse(junk, e)
  {
    hide Parse, Balanced, IsSpace, Wrapped;
    if around != [] {
      var inner := Enclosed(around[1..], e);
      EnclosingKeepsMeaning(junk, around[1..], e);
      WrappingKeepsMeaning(junk, around[0].0, inner, around[0].1);
      SpacesKeepBalance(around[0].0, inner, around[0].1);
    }
  }

  lemma SpacesKeepBalance(w1: string, e: string, w2: string)
    requires All(w1, IsSpace) && Balanced(e) && All(w2, IsSpace)
    ensures Balanced(w1 + Wrapped(e) + w2)
  {
    hide Balanced;
    NoBracketsBalanced(w1);
    NoBracketsBalanced(w2);
    BalancedWrap(e);
    BalancedAppend(w1, Wrapped(e));
    BalancedAppend(w1 + Wrapped(e), w2);
  }

  // ----- the parser gives every text of the grammar its meaning

  lemma BaseNotStripped(a: Atom, r: string)
    requires a.Base? && ValidAtom(a)
    ensures StripOuterBracket(RenderAtom(a) + r) == RenderAtom(a) + r
  {
    hide IsSpace, IsFieldChar, OpText, StripOuterBracket;
    ClassesDisjoint();
    var Base(w1, f, w2, op, w3, v, w4) := a;
    var s := RenderAtom(a) + r;
    var o := OpText(op);
    var rest := w2 + (o + (w3 + (v + (w4 + r))));
    Regroup(w1 + f + w2 + o + w3 + v, w4, r);
    Regroup(w1 + f + w2 + o + w3, v, w4 + r);
    Regroup(w1 + f + w2 + o, w3, v + (w4 + r));
    Regroup(w1 + f + w2, o, w3 + (v + (w4 + r)));
    Regroup(w1 + f, w2, o + (w3 + (v + (w4 + r))));
    NotStripped(s, w1, f, rest);
  }

  lemma NotStripped(s: string, w: string, f: string, rest: string)
    requires s == w + f + rest && All(w, IsSpace) && f != "" && All(f, IsFieldChar)
    ensures StripOuterBracket(s) == s
  {
    ClassesDisjoint();
    assert s == "" + w + (f + rest);
    SpanOver(s, "", w, f + rest, IsSpace);
    assert s[|w|] == f[0];
  }

  lemma ParseBaseAlone(junk: string -> nat, a: Atom)
    requires a.Base? && ValidAtom(a)
    ensures Parse(junk, RenderAtom(a)) == ParseBase(junk, a.field, a.op, a.value)
  {
    assert RenderAtom(a) + "" == RenderAtom(a);
    BaseNotStripped(a, "");
    MatchBaseComplete(a, "");
  }

  lemma ParseBaseChain(junk: string -> nat, a: Atom, c: char, e: string)
    requires a.Base? && ValidAtom(a) && IsConnective(c) && OneLine(e)
    ensures Parse(junk, Infix(RenderAtom(a), c, e)) ==
              var left := ParseBase(junk, a.field, a.op, a.value);
              var right := Parse(junk, e);
              if left.None? || right.None? then None else Some(Join(c, left.value, right.value))
  {
    hide MatchBase, StripOuterBracket, RenderAtom;
    var s := Infix(RenderAtom(a), c, e);
    assert s == RenderAtom(a) + ([c] + e);
    BaseNotStripped(a, [c] + e);
    MatchBaseComplete(a, [c] + e);
    assert s[|RenderAtom(a)| + 1..] == e && s[|RenderAtom(a)|] == c;
  }

  lemma ParseBracketChain(junk: string -> nat, w1: string, i: string, w2: string, c: char, e: string, trail: string)
    requires All(w1, IsSpace) && Balanced(i) && All(w2, IsSpace) && IsConnective(c) && OneLine(e)
    requires All(trail, IsSpace) && (trail == "" || IsNewline(trail[0]))
    ensures Parse(junk, Infix(w1 + Wrapped(i) + w2, c, e) + trail) ==
              var left := Parse(junk, i);
              var right := Parse(junk, e);
              if left.None? || right.None? then None else Some(Join(c, left.value, right.value))
  {
    hide Span, SplitConnective, Wrapped, StripOuterBracket, MatchBase, CloseIndex, Parse, Infix, Balanced,
        IsConnective, IsSpace, IsNewline;
    ClassesDisjoint();
    var r := [c] + e + trail;
    var post := w2 + r;
    var s := w1 + Wrapped(i) + post;
    BracketChainText(w1 + Wrapped(i), w2, c, e, trail);
    BracketScan(w1, i, post);
    BracketChainShape(w1, i, w2, r);
    SplitComplete(w2, c, e, trail);
    ParseBracketShape(junk, s, |w1|, |w1| + 1 + |i|, i, post, c, e);
  }

  lemma ParseBracketShape(junk: string -> nat, s: string, i: nat, j: nat, inner: string, post: string, c: char,
                          e: string)
    requires StripOuterBracket(s) == s && MatchBase(s) == None
    requires i < j < |s| && Span(s, 0, IsSpace) == i && s[i] == '(' && CloseIndex(s, i + 1, 1) == j
    requires s[i + 1..j] == inner && s[j + 1..] == post && SplitConnective(post) == Some((c, e))
    ensures Parse(junk, s) ==
              var left := Parse(junk, inner);
              var right := Parse(junk, e);
              if left.None? || right.None? then None else Some(Join(c, left.value, right.value))
  {
    ParsesAsBracket(junk, s);
    hide Parse, ParseBracketed, SplitConnective, Span, CloseIndex, StripOuterBracket, MatchBase;
    BracketParts(junk, s, i, j);
  }

  lemma ParsesAsBracket(junk: string -> nat, s: string)
    requires StripOuterBracket(s) == s && MatchBase(s) == None
    ensures Parse(junk, s) == ParseBracketed(junk, s)
  {
    hide StripOuterBracket, MatchBase, ParseBracketed;
  }

  lemma BracketParts(junk: string -> nat, s: string, i: nat, j: nat)
    requires i < |s| && Span(s, 0, IsSpace) == i && s[i] == '(' && CloseIndex(s, i + 1, 1) == j < |s|
    ensures ParseBracketed(junk, s) ==
              var left := Parse(junk, s[i + 1..j]);
              var split := SplitConnective(s[j + 1..]);
              if left.None? || split.None? then None
              else
                var right := Parse(junk, split.value.1);
                if right.None? then None else Some(Join(split.value.0, left.value, right.value))
  {
    hide Span, SplitConnective, CloseIndex, Parse;
  }

  lemma BracketChainShape(w1: string, i: string, w2: string, r: string)
    requires All(w1, IsSpace) && Balanced(i) && All(w2, IsSpace) && r != "" && !IsSpace(r[0])
    ensures var s := w1 + Wrapped(i) + (w2 + r);
            StripOuterBracket(s) == s && MatchBase(s) == None
  {
    var s := w1 + Wrapped(i) + (w2 + r);
    BracketScan(w1, i, w2 + r);
    assert s == (w1 + Wrapped(i)) + w2 + r;
    SpanOver(s, w1 + Wrapped(i), w2, r, IsSpace);
    SpanIs(s, |w1|, |w1|, IsFieldChar);
  }

  /** Parsing undoes rendering: every text of the grammar parses to its meaning. */
  lemma {:induction false} ParseRender(junk: string -> nat, x: Expr)
    requires Valid(x)
    ensures Parse(junk, Render(x)) == Denote(Parsed(junk), x)
    decreases x
  {
    hide Parse;
    match x.first {
      case Base(_, _, _, _, _, _, _) =>
        match x.rest {
          case End => ParseBaseAlone(junk, x.first);
          case Then(c, tail, trail) =>
            ParseRender(junk, tail);
            ParseBaseChain(junk, x.first, c, Render(tail));
            assert Infix(RenderAtom(x.first), c, Render(tail)) + trail == Infix(RenderAtom(x.first), c, Render(tail));
        }
      case Bracketed(w1, inner, w4) =>
        ParseRender(junk, inner);
        RenderBalanced(inner);
        match x.rest {
          case End => WrappingKeepsMeaning(junk, w1, Render(inner), w4);
          case Then(c, tail, trail) =>
            ParseRender(junk, tail);
            ParseBracketChain(junk, w1, Render(inner), w4, c, Render(tail), trail);
        }
    }
  }

  // ----- and accepts nothing else

  lemma {:induction false} Unstrip(junk: string -> nat, s: string, x: Expr) returns (y: Expr)
    requires Valid(x) && Render(x) == StripOuterBracket(s)
    ensures Valid(y) && Render(y) == s && Denote(Parsed(junk), y) == Denote(Parsed(junk), x)
    decreases |s|
  {
    hide Valid, Render, Denote;
    var i := Span(s, 0, IsSpace);
    y := x;
    if i < |s| && s[i] == '(' {
      var j := CloseIndex(s, i + 1, 1);
      if j < |s| && Span(s, j + 1, IsSpace) >= |s| {
        var inner := Unstrip(junk, s[i + 1..j], x);
        ClosingBracket(s, i + 1, 1);
        y := WrapExpr(junk, s, i, j, inner);
      }
    }
  }

  lemma WrapExpr(junk: string -> nat, s: string, i: nat, j: nat, inner: Expr) returns (y: Expr)
    requires i < j < |s| && s[i] == '(' && s[j] == ')' && All(s[..i], IsSpace) && All(s[j + 1..], IsSpace)
    requires Valid(inner) && Render(inner) == s[i + 1..j]
    ensures Valid(y) && Render(y) == s && Denote(Parsed(junk), y) == Denote(Parsed(junk), inner)
  {
    y := Chain(Bracketed(s[..i], inner, s[j + 1..]), End);
    BracketText(s, i, j);
  }

  lemma BracketText(s: string, i: nat, j: nat)
    requires i < j < |s| && s[i] == '(' && s[j] == ')'
    ensures s == s[..i] + Wrapped(s[i + 1..j]) + s[j + 1..]
  {
  }

  lemma {:induction false} ClosingBracket(s: string, i: nat, c: nat)
    requires i <= |s|
    ensures CloseIndex(s, i, c) < |s| ==> s[CloseIndex(s, i, c)] == ')'
    decreases |s| - i
  {
    if i < |s| && (s[i] != ')' || c > 1) {
      ClosingBracket(s, i + 1, if s[i] == '(' then c + 1 else if s[i] == ')' then c - 1 else c);
    }
  }

  /** Every accepted text is a text of the grammar, with that meaning. */
  lemma {:induction false} ParseSound(junk: string -> nat, e: string) returns (x: Expr)
    requires Parse(junk, e).Some?
    ensures Valid(x) && Render(x) == e && Denote(Parsed(junk), x) == Parse(junk, e)
    decreases |e|, 1
  {
    hide StripOuterBracket, ParseStripped, Valid, Render, Denote;
    var s := StripOuterBracket(e);
    x := StrippedSound(junk, s);
    x := Unstrip(junk, e, x);
  }

  lemma {:induction false} StrippedSound(junk: string -> nat, s: string) returns (x: Expr)
    requires ParseStripped(junk, s).Some?
    ensures Valid(x) && Render(x) == s && Denote(Parsed(junk), x) == ParseStripped(junk, s)
    decreases |s|, 0
  {
    hide MatchBase, Parse, ParseBracketed, ParseBase, Valid, Render, Denote, RenderAtom;
    var m := MatchBase(s);
    if m.Some? && m.value.rest == |s| {
      var a := MatchBaseSound(s);
      x := BaseExpr(junk, s, a);
    } else if m.Some? && IsConnective(s[m.value.rest]) && OneLine(s[m.value.rest + 1..]) {
      var a := MatchBaseSound(s);
      var tail := ParseSound(junk, s[m.value.rest + 1..]);
      x := BaseChainExpr(junk, s, a, m.value.rest, tail);
    } else {
      var i := Span(s, 0, IsSpace);
      var j := BracketFound(junk, s);
      BracketParts(junk, s, i, j);
      var inner := ParseSound(junk, s[i + 1..j]);
      var tail := ParseSound(junk, SplitConnective(s[j + 1..]).value.1);
      x := BracketChainExpr(junk, s, i, j, inner, tail);
    }
  }

  lemma BaseExpr(junk: string -> nat, s: string, a: Atom) returns (x: Expr)
    requires a.Base? && ValidAtom(a) && s == RenderAtom(a) + s[|s|..]
    ensures Valid(x) && Render(x) == s && Denote(Parsed(junk), x) == ParseBase(junk, a.field, a.op, a.value)
  {
    hide ParseBase;
    x := Chain(a, End);
    assert s == RenderAtom(a);
  }

  lemma BaseChainExpr(junk: string -> nat, s: string, a: Atom, n: nat, tail: Expr) returns (x: Expr)
    requires a.Base? && ValidAtom(a) && n < |s| && s == RenderAtom(a) + s[n..] && IsConnective(s[n])
    requires Valid(tail) && Render(tail) == s[n + 1..] && OneLine(s[n + 1..])
    ensures Valid(x) && Render(x) == s
    ensures Denote(Parsed(junk), x) == var left := ParseBase(junk, a.field, a.op, a.value);
                               var right := Denote(Parsed(junk), tail);
                               if left.None? || right.None? then None else Some(Join(s[n], left.value, right.value))
  {
    hide ParseBase, RenderAtom, Infix;
    x := Chain(a, Then(s[n], tail, ""));
    ChainText(RenderAtom(a), s, n);
  }

  lemma BracketChainExpr(junk: string -> nat, s: string, i: nat, j: nat, inner: Expr, tail: Expr) returns (x: Expr)
    requires i < j < |s| && s[i] == '(' && s[j] == ')' && All(s[..i], IsSpace)
    requires Valid(inner) && Render(inner) == s[i + 1..j] && SplitConnective(s[j + 1..]).Some?
    requires Valid(tail) && Render(tail) == SplitConnective(s[j + 1..]).value.1
    ensures Valid(x) && Render(x) == s
    ensures Denote(Parsed(junk), x) == var left := Denote(Parsed(junk), inner);
                               var right := Denote(Parsed(junk), tail);
                               if left.None? || right.None? then None
                               else Some(Join(SplitConnective(s[j + 1..]).value.0, left.value, right.value))
  {
    var (c, right) := SplitConnective(s[j + 1..]).value;
    var w, trail := SplitSound(s[j + 1..]);
    hide SplitConnective, Wrapped, Infix;
    x := Chain(Bracketed(s[..i], inner, w), Then(c, tail, trail));
    BracketText(s, i, j);
    BracketChainText(s[..i] + Wrapped(s[i + 1..j]), w, c, right, trail);
  }

  lemma ChainText(a: string, s: string, n: nat)
    requires n < |s| && s == a + s[n..] && n == |a|
    ensures s == Infix(a, s[n], s[n + 1..]) + ""
  {
    assert s[n..] == [s[n]] + s[n + 1..];
  }

  lemma BracketChainText(a: string, w: string, c: char, right: string, trail: string)
    ensures a + (w + ([c] + right + trail)) == Infix(a + w, c, right) + trail
  {
  }

  /** A text parsed by the bracket case has its brackets where the scan finds them. */
  lemma BracketFound(junk: string -> nat, s: string) returns (j: nat)
    requires ParseBracketed(junk, s).Some?
    ensures var i := Span(s, 0, IsSpace);
            && i < j < |s| && s[i] == '(' && s[j] == ')' && CloseIndex(s, i + 1, 1) == j
            && Parse(junk, s[i + 1..j]).Some? && SplitConnective(s[j + 1..]).Some?
            && Parse(junk, SplitConnective(s[j + 1..]).value.1).Some?
  {
    hide Parse, SplitConnective;
    var i := Span(s, 0, IsSpace);
    j := CloseIndex(s, i + 1, 1);
    ClosingBracket(s, i + 1, 1);
  }

  /** The parser accepts exactly the texts of the grammar that mean something, each with its meaning. */
  lemma ParsesExactlyGrammar(junk: string -> nat, e: string, n: Filter)
    ensures Parse(junk, e) == Some(n) <==> exists x :: Valid(x) && Render(x) == e && Denote(Parsed(junk), x) == Some(n)
  {
    hide Parse, Valid, Render, Denote;
    if Parse(junk, e) == Some(n) {
      var x := ParseSound(junk, e);
    }
    if x :| Valid(x) && Render(x) == e && Denote(Parsed(junk), x) == Some(n) {
      ParseRender(junk, x);
    }
  }
}
