/** The filter object and its parser as the original runs them: scanning loops and recursive calls, each
    proved to compute the function that specifies it. */
module FilterObject {
  import opened Options
  import opened FilterText
  import opened TraceFilters

  /** The first position from i that is not a space. */
  method SkipSpace(s: string, i: nat) returns (j: nat)
    requires i <= |s|
    ensures j == Span(s, i, IsSpace)
  {
    j := i;
    while j < |s| && IsSpace(s[j])
      invariant i <= j <= |s|
      invariant forall k :: i <= k < j ==> IsSpace(s[k])
    {
      j := j + 1;
    }
    SpanIs(s, i, j, IsSpace);
  }

  /** Finds the bracket that closes the one before i: the first position where as many have been closed
      as opened. */
  method FindClosing(s: string, start: nat) returns (i: nat)
    requires start <= |s|
    ensures i == CloseIndex(s, start, 1) && ClosesFirstAt(s, start, 1, i)
  {
    i := start;
    var c := 1;
    while i < |s| && (s[i] != ')' || c > 1)
      invariant start <= i <= |s| && c > 0
      invariant CloseIndex(s, start, 1) == CloseIndex(s, i, c)
    {
      if s[i] == '(' {
        c := c + 1;
      } else if s[i] == ')' {
        c := c - 1;
      }
      i := i + 1;
    }
    CloseIndexIsFirst(s, start, 1);
  }

  method StripBracket(expr: string) returns (r: string)
    ensures r == StripOuterBracket(expr)
    decreases |expr|
  {
    var i := SkipSpace(expr, 0);
    if i < |expr| && expr[i] == '(' {
      var start := i + 1;
      i := FindClosing(expr, start);
      if i >= |expr| {
        return expr;
      }
      var end := i;
      i := SkipSpace(expr, i + 1);
      if i >= |expr| {
        r := StripBracket(expr[start..end]);
        return;
      }
    }
    return expr;
  }

  method ParseBaseText(junk: string -> nat, field: string, op: Op, value: string) returns (res: Option<Filter>)
    ensures res == ParseBase(junk, field, op, value)
    decreases if MayExpand(field) then 1 else 0, 0, 1
  {
    res := GetField(junk, field, op, value);
    if res.None? {
      var expansion := Expansion(field, op, value);
      if expansion.Some? {
        res := ParseText(junk, expansion.value);
      }
    }
  }

  method ParseText(junk: string -> nat, expr: string) returns (res: Option<Filter>)
    ensures res == Parse(junk, expr)
    decreases if MayExpand(expr) then 1 else 0, |expr| + 1, 0
  {
    hide MatchBase, StripOuterBracket, ParseBase, SplitConnective, CloseIndex, ClosesFirstAt, Span, OneLine;
    var s := StripBracket(expr);
    var m := MatchBase(s);
    assert Parse(junk, expr) == ParseStripped(junk, s);
    if m.Some? && m.value.rest == |s| {
      res := ParseBaseText(junk, m.value.field, m.value.op, m.value.value);
      return;
    }
    var left: Option<Filter>;
    var op, rightText;
    if m.Some? && IsConnective(s[m.value.rest]) && OneLine(s[m.value.rest + 1..]) {
      left := ParseBaseText(junk, m.value.field, m.value.op, m.value.value);
      if left.None? {
        return None;
      }
      op, rightText := s[m.value.rest], s[m.value.rest + 1..];
    } else {
      assert ParseStripped(junk, s) == ParseBracketed(junk, s);
      var i := SkipSpace(s, 0);
      if i >= |s| || s[i] != '(' {
        return None;
      }
      var start := i;
      i := FindClosing(s, i + 1);
      if i >= |s| {
        return None;
      }
      left := ParseText(junk, s[start + 1..i]);
      if left.None? {
        return None;
      }
      var split := SplitConnective(s[i + 1..]);
      if split.None? {
        return None;
      }
      op, rightText := split.value.0, split.value.1;
    }
    var right := ParseText(junk, rightText);
    if right.None? {
      return None;
    }
    res := Some(Join(op, left.value, right.value));
  }

  /** The filter object: without a tree it passes every record. */
  class TraceFilter {
    var root: Option<Filter>

    constructor ()
      ensures root == None
    {
      root := None;
    }

    /** An expression that does not parse leaves the object without a tree: it filters nothing out. */
    method SetExpression(junk: string -> nat, expr: string)
      modifies this
      ensures root == Parse(junk, expr)
      ensures Parse(junk, expr) == None ==> forall tr: Record :: Passes(tr)
      ensures Parse(junk, expr) != None ==> forall tr: Record :: Passes(tr) <==> Test(Parse(junk, expr).value, tr)
    {
      hide Test, Parse;
      root := ParseText(junk, expr);
    }

    predicate Passes(tr: Record)
      reads this
    {
      root.Some? ==> Test(root.value, tr)
    }
  }
}
