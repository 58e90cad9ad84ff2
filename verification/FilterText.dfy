/** Characters, numbers and brackets of the trace-filter language. */
module FilterText {
  import opened Options

  // ----- characters

  predicate IsSpace(c: char) {
    c == ' ' || 9 <= c as int <= 13
  }

  predicate IsNewline(c: char) {
    c == '\n' || c == '\r'
  }

  predicate IsDigit(c: char) {
    '0' <= c <= '9'
  }

  predicate IsHexDigit(c: char) {
    IsDigit(c) || 'a' <= c <= 'f' || 'A' <= c <= 'F'
  }

  predicate IsFieldChar(c: char) {
    'a' <= c <= 'z' || 'A' <= c <= 'Z' || IsDigit(c) || c == '.'
  }

  predicate IsValueChar(c: char) {
    c == 'x' || c == ',' || IsHexDigit(c)
  }

  predicate IsConnective(c: char) {
    c == '&' || c == '|'
  }

  predicate All(s: string, p: char -> bool) {
    forall k :: 0 <= k < |s| ==> p(s[k])
  }

  predicate OneLine(s: string) {
    forall k :: 0 <= k < |s| ==> !IsNewline(s[k])
  }

  /** The character classes, by ASCII code. */
  lemma CharacterClasses(c: char)
    ensures var n := c as int;
            && (IsSpace(c) <==> 9 <= n <= 13 || n == 32)
            && (IsNewline(c) <==> n == 10 || n == 13)
            && (IsConnective(c) <==> n == 38 || n == 124)
            && (IsDigit(c) <==> 48 <= n <= 57)
            && (IsOctalDigit(c) <==> 48 <= n <= 55)
            && (IsHexDigit(c) <==> 48 <= n <= 57 || 65 <= n <= 70 || 97 <= n <= 102)
            && (IsValueChar(c) <==> 48 <= n <= 57 || 65 <= n <= 70 || 97 <= n <= 102 || n == 44 || n == 120)
            && (IsFieldChar(c) <==> 48 <= n <= 57 || 65 <= n <= 90 || 97 <= n <= 122 || n == 46)
  {
  }

  /** The end of the longest run of p-characters from i. */
  function Span(s: string, i: nat, p: char -> bool): (j: nat)
    requires i <= |s|
    ensures i <= j <= |s|
    ensures forall k :: i <= k < j ==> p(s[k])
    ensures j < |s| ==> !p(s[j])
    decreases |s| - i
  {
    if i < |s| && p(s[i]) then Span(s, i + 1, p) else i
  }

  /** The run ends at j exactly when it is the first place without a p-character. */
  lemma SpanIs(s: string, i: nat, j: nat, p: char -> bool)
    requires i <= j <= |s| && (forall k :: i <= k < j ==> p(s[k])) && (j < |s| ==> !p(s[j]))
    ensures Span(s, i, p) == j
  {
  }

  // ----- numbers

  function DigitOf(d: nat): char
    requires d < 16
  {
    if d < 10 then '0' + d as char else 'a' + (d - 10) as char
  }

  function DigitValue(c: char): nat {
    if IsDigit(c) then (c - '0') as nat
    else if 'a' <= c <= 'f' then (c - 'a') as nat + 10
    else if 'A' <= c <= 'F' then (c - 'A') as nat + 10
    else 0
  }

  lemma SplitDigit(n: nat, base: nat)
    requires base in {8, 10, 16}
    ensures n % base < base && n / base * base + n % base == n && (n >= base ==> 0 < n / base < n)
  {
    if base == 8 {
      assert n / 8 * 8 + n % 8 == n;
    } else if base == 10 {
      assert n / 10 * 10 + n % 10 == n;
    } else {
      assert n / 16 * 16 + n % 16 == n;
    }
  }

  /** Text of a number in octal, decimal or hexadecimal. */
  function InBase(n: nat, base: nat): (s: string)
    requires base in {8, 10, 16}
    ensures s != [] && All(s, IsHexDigit) && (s[0] == '0' <==> n == 0) && (n == 0 ==> s == "0")
    ensures base <= 10 ==> All(s, IsDigit)
    ensures base <= 8 ==> All(s, IsOctalDigit)
  {
    SplitDigit(n, base);
    if n < base then [DigitOf(n)] else InBase(n / base, base) + [DigitOf(n % base)]
  }

  /** Decimal text of a number. */
  function Dec(n: nat): (s: string)
    ensures s != [] && All(s, IsDigit) && (s[0] == '0' <==> n == 0) && (n == 0 ==> s == "0")
  {
    InBase(n, 10)
  }

  function Pow10(k: nat): nat {
    if k == 0 then 1 else 10 * Pow10(k - 1)
  }

  function Digits(s: string, base: nat): nat {
    if s == [] then 0 else Digits(s[..|s| - 1], base) * base + DigitValue(s[|s| - 1])
  }

  lemma DigitBack(d: nat)
    requires d < 16
    ensures DigitValue(DigitOf(d)) == d
  {
  }

  /** The text of a number has its value, in every base. */
  lemma {:induction false} InBaseDigits(n: nat, base: nat)
    requires base in {8, 10, 16}
    ensures Digits(InBase(n, base), base) == n
  {
    hide DigitOf, DigitValue;
    SplitDigit(n, base);
    DigitBack(n % base);
    if n < base {
      assert [DigitOf(n)][..0] == [];
    } else {
      InBaseDigits(n / base, base);
      assert InBase(n, base)[..|InBase(n, base)| - 1] == InBase(n / base, base);
    }
  }

  lemma DecDigits(n: nat)
    ensures Digits(Dec(n), 10) == n
  {
    InBaseDigits(n, 10);
  }

  datatype Number = Number(value: nat, next: nat)

  predicate IsOctalDigit(c: char) {
    '0' <= c <= '7'
  }

  /** The C conversion %i at position i: hexadecimal after 0x, octal after 0, otherwise decimal. */
  function ReadAnyBase(s: string, i: nat): (r: Option<Number>)
    ensures r.Some? ==> i < r.value.next <= |s|
  {
    if i >= |s| || !IsDigit(s[i]) then None
    else if s[i] == '0' && i + 1 < |s| && s[i + 1] == 'x' then
      var j := Span(s, i + 2, IsHexDigit);
      if j == i + 2 then None else Some(Number(Digits(s[i + 2..j], 16), j))
    else if s[i] == '0' then
      var j := Span(s, i, IsOctalDigit);
      Some(Number(Digits(s[i..j], 8), j))
    else
      ReadDecimal(s, i)
  }

  /** The C conversion %u at position i. */
  function ReadDecimal(s: string, i: nat): (r: Option<Number>)
    ensures r.Some? ==> i < r.value.next <= |s|
  {
    if i >= |s| || !IsDigit(s[i]) then None
    else
      var j := Span(s, i, IsDigit);
      Some(Number(Digits(s[i..j], 10), j))
  }

  const LONG_MAX := 0x7fff_ffff_ffff_ffff
  const ULONG_MAX := 0xffff_ffff_ffff_ffff

  /** The values of digits, by ASCII code. */
  lemma DigitValues(c: char)
    ensures var n := c as int;
            DigitValue(c) == if 48 <= n <= 57 then n - 48 else if 97 <= n <= 102 then n - 87
                             else if 65 <= n <= 70 then n - 55 else 0
  {
  }

  /** A prefix 0x without a hexadecimal digit after it cannot be read. */
  lemma BarePrefixUnreadable(pre: string, post: string)
    requires post == "" || !IsHexDigit(post[0])
    ensures ReadAnyBase(pre + "0x" + post, |pre|) == None
  {
    var s := pre + "0x" + post;
    assert s[|pre|] == '0' && s[|pre| + 1] == 'x' && (post != "" ==> s[|pre| + 2] == post[0]);
    SpanIs(s, |pre| + 2, |pre| + 2, IsHexDigit);
  }

  function Clamp(n: nat, max: nat): nat {
    if n < max then n else max
  }

  /** Decimal text reads back as the number, with both conversions. */
  lemma ReadDec(n: nat)
    ensures ReadAnyBase(Dec(n), 0) == Some(Number(n, |Dec(n)|))
    ensures ReadDecimal(Dec(n), 0) == Some(Number(n, |Dec(n)|))
  {
    var s := Dec(n);
    DecDigits(n);
    SpanIs(s, 0, |s|, IsDigit);
    assert s[0..|s|] == s && IsDigit(s[0]);
    if n == 0 {
      assert s == "0";
      SpanIs(s, 0, 1, IsOctalDigit);
      assert Digits("0", 8) == 0 by { assert "0"[..0] == ""; }
    }
  }

  /** Decimal text reads back as the number wherever it stands, up to a comma or the end. */
  lemma ReadDecAt(pre: string, n: nat, post: string)
    requires post == "" || post[0] == ','
    ensures var s, r := pre + Dec(n) + post, Some(Number(n, |pre + Dec(n)|));
            ReadDecimal(s, |pre|) == r && ReadAnyBase(s, |pre|) == r
  {
    hide Dec, Digits;
    var s, d := pre + Dec(n) + post, Dec(n);
    DecDigits(n);
    SpanIs(s, |pre|, |pre| + |d|, IsDigit);
    assert s[|pre|..|pre| + |d|] == d && s[|pre|] == d[0];
    if n == 0 {
      assert d == "0";
      SpanIs(s, |pre|, |pre| + 1, IsOctalDigit);
      assert Digits("0", 8) == 0 by { LeadingZero("", 8); NoDigits(8); }
    }
  }

  lemma NoDigits(base: nat)
    ensures Digits("", base) == 0 && "0" + "" == "0"
  {
  }

  /** Hexadecimal text after 0x and octal text after 0 read back as well. */
  lemma ReadPrefixed(n: nat)
    ensures ReadAnyBase("0x" + InBase(n, 16), 0) == Some(Number(n, 2 + |InBase(n, 16)|))
    ensures ReadAnyBase("0" + InBase(n, 8), 0) == Some(Number(n, 1 + |InBase(n, 8)|))
  {
    hide InBase, Digits;
    var hex, octal := "0x" + InBase(n, 16), "0" + InBase(n, 8);
    InBaseDigits(n, 16);
    InBaseDigits(n, 8);
    SpanIs(hex, 2, |hex|, IsHexDigit);
    assert hex[2..|hex|] == InBase(n, 16);
    SpanIs(octal, 0, |octal|, IsOctalDigit);
    assert octal[0..|octal|] == octal;
    LeadingZero(InBase(n, 8), 8);
  }

  lemma {:induction false} LeadingZero(s: string, base: nat)
    ensures Digits("0" + s, base) == Digits(s, base)
  {
    if s == [] {
      assert ("0" + s)[..0] == [];
    } else {
      assert ("0" + s)[..|s|] == "0" + s[..|s| - 1];
      LeadingZero(s[..|s| - 1], base);
    }
  }

  // ----- brackets

  function Bracket(c: char): int {
    if c == '(' then 1 else if c == ')' then -1 else 0
  }

  /** Opening minus closing brackets. */
  function Depth(s: string): int {
    if s == [] then 0 else Depth(s[..|s| - 1]) + Bracket(s[|s| - 1])
  }

  predicate Balanced(s: string) {
    Depth(s) == 0 && forall k :: 0 <= k <= |s| ==> Depth(s[..k]) >= 0
  }

  /** The scan for a closing bracket from position i with c brackets open. */
  function CloseIndex(s: string, i: nat, c: nat): (j: nat)
    requires i <= |s|
    ensures i <= j <= |s|
    decreases |s| - i
  {
    if i < |s| && (s[i] != ')' || c > 1) then
      CloseIndex(s, i + 1, if s[i] == '(' then c + 1 else if s[i] == ')' then c - 1 else c)
    else
      i
  }

  /** j is the first position from i where c open brackets are all closed; |s| if there is none. */
  predicate ClosesFirstAt(s: string, i: nat, c: nat, j: nat) {
    && i <= j <= |s|
    && (forall k :: i <= k <= j ==> c + Depth(s[i..k]) > 0)
    && (j < |s| ==> c + Depth(s[i..j + 1]) == 0)
  }

  lemma DepthStep(s: string, i: nat, k: nat)
    requires i <= k < |s|
    ensures Depth(s[i..k + 1]) == Depth(s[i..k]) + Bracket(s[k])
  {
    assert s[i..k + 1][..k - i] == s[i..k];
  }

  lemma {:induction false} DepthAppend(a: string, b: string)
    ensures Depth(a + b) == Depth(a) + Depth(b)
  {
    if b == [] {
      assert a + b == a;
    } else {
      assert (a + b)[..|a + b| - 1] == a + b[..|b| - 1];
      DepthAppend(a, b[..|b| - 1]);
    }
  }

  /** The scan stops at the first position where the depth returns to zero. */
  lemma {:induction false} CloseIndexIsFirst(s: string, i: nat, c: nat)
    requires i <= |s| && c > 0
    ensures ClosesFirstAt(s, i, c, CloseIndex(s, i, c))
    decreases |s| - i
  {
    var j := CloseIndex(s, i, c);
    assert s[i..i] == "";
    if j > i {
      DepthStep(s, i, i);
      CloseIndexIsFirst(s, i + 1, c + Bracket(s[i]));
      forall k | i < k <= |s| ensures Depth(s[i..k]) == Bracket(s[i]) + Depth(s[i + 1..k]) {
        assert s[i..k] == [s[i]] + s[i + 1..k];
        assert Depth([s[i]]) == Bracket(s[i]) by { assert [s[i]][..0] == ""; }
        DepthAppend([s[i]], s[i + 1..k]);
      }
    } else if i < |s| {
      DepthStep(s, i, i);
    }
  }

  /** There is only one such position. */
  lemma ClosesFirstUnique(s: string, i: nat, c: nat, j: nat, j': nat)
    requires ClosesFirstAt(s, i, c, j) && ClosesFirstAt(s, i, c, j')
    ensures j == j'
  {
  }

  lemma {:induction false} NoBracketsBalanced(s: string)
    requires forall k :: 0 <= k < |s| ==> Bracket(s[k]) == 0
    ensures Balanced(s)
  {
    if s != [] {
      var t := s[..|s| - 1];
      NoBracketsBalanced(t);
      forall k | 0 <= k <= |s| ensures Depth(s[..k]) >= 0 {
        if k < |s| { assert s[..k] == t[..k]; } else { assert s[..k] == s; }
      }
    }
  }

  lemma BalancedAppend(a: string, b: string)
    requires Balanced(a) && Balanced(b)
    ensures Balanced(a + b)
  {
    DepthAppend(a, b);
    forall k | 0 <= k <= |a + b| ensures Depth((a + b)[..k]) >= 0 {
      if k <= |a| {
        assert (a + b)[..k] == a[..k];
      } else {
        assert (a + b)[..k] == a + b[..k - |a|];
        DepthAppend(a, b[..k - |a|]);
      }
    }
  }

  lemma BalancedWrap(e: string)
    requires Balanced(e)
    ensures Balanced("(" + e + ")")
  {
    var w := "(" + e + ")";
    assert Depth("(") == 1 by { assert "("[..0] == ""; }
    assert w[..|w| - 1] == "(" + e && e[..|e|] == e;
    DepthAppend("(", e);
    forall k | 0 <= k <= |w| ensures Depth(w[..k]) >= 0 {
      if k == 0 {
        assert w[..k] == "";
      } else if k <= 1 + |e| {
        assert w[..k] == "(" + e[..k - 1];
        DepthAppend("(", e[..k - 1]);
      } else {
        assert w[..k] == w;
      }
    }
  }

  /** A bracket opened just before e, with a closing one just after it, closes there exactly when e is
      balanced. */
  lemma ClosesAfter(s: string, i: nat, e: string)
    requires i + |e| < |s| && s[i..i + |e|] == e && s[i + |e|] == ')'
    ensures CloseIndex(s, i, 1) == i + |e| <==> Balanced(e)
  {
    CloseIndexIsFirst(s, i, 1);
    forall k | 0 <= k <= |e| ensures s[i..i + k] == e[..k] {
      assert s[i..i + |e|][..k] == e[..k];
    }
    assert e[..|e|] == e;
    DepthStep(s, i, i + |e|);
    if Balanced(e) {
      forall k | i <= k <= i + |e| ensures 1 + Depth(s[i..k]) > 0 {
        assert s[i..i + (k - i)] == e[..k - i];
      }
      assert ClosesFirstAt(s, i, 1, i + |e|);
      ClosesFirstUnique(s, i, 1, CloseIndex(s, i, 1), i + |e|);
    }
    if CloseIndex(s, i, 1) == i + |e| {
      forall k | 0 <= k <= |e| ensures Depth(e[..k]) >= 0 {
        assert s[i..i + k] == e[..k];
      }
    }
  }
}
