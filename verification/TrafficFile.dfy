/** The header of the traffic file: written with an estimate, overwritten at the end with the true
    number of flows, and read back by the simulation. */
module TrafficFile {
  import opened Options
  import opened FilterText

  /** Writing s over the start of a file leaves the rest of the file as it was. */
  function Overwrite(file: string, s: string): string {
    if |s| <= |file| then s + file[|s|..] else s
  }

  /** The file after generation: header line with the estimate, flow lines, then the count written over
      the start. */
  function FinalFile(estimate: nat, count: nat, body: string): string {
    Overwrite(Dec(estimate) + " \n" + body, Dec(count))
  }

  /** The simulation reads the count as count, and the flows from the start of the body. */
  predicate ReadsBack(file: string, count: nat, body: string) {
    var r := ReadDecimal(file, 0);
    r.Some? && r.value.value == count && file[Span(file, r.value.next, IsSpace)..] == body
  }

  /** Flow lines begin with a digit; there are none exactly when there are no flows. */
  predicate IsBody(count: nat, body: string) {
    (body == "" <==> count == 0) && (body != "" ==> IsDigit(body[0]))
  }

  // ----- lemmas

  lemma {:induction false} DigitsAppend(a: string, b: string)
    ensures Digits(a + b, 10) == Digits(a, 10) * Pow10(|b|) + Digits(b, 10)
  {
    if b == [] {
      assert a + b == a;
    } else {
      var b' := b[..|b| - 1];
      assert (a + b)[..|a + b| - 1] == a + b';
      DigitsAppend(a, b');
      Shift(Digits(a, 10), Pow10(|b'|), Digits(b', 10));
    }
  }

  lemma Shift(x: nat, p: nat, y: nat)
    ensures (x * p + y) * 10 == x * (10 * p) + y * 10
  {
  }

  lemma {:induction false} PowAtLeast(k: nat)
    ensures Pow10(k) >= 1 && (k > 0 ==> Pow10(k) >= 10)
  {
    if k > 0 { PowAtLeast(k - 1); }
  }

  /** More digits after the count change it, unless it is zero and they are zeros. */
  lemma LongerNumber(count: nat, more: string)
    requires more != "" && All(more, IsDigit)
    ensures Digits(Dec(count) + more, 10) == count <==> count == 0 && Digits(more, 10) == 0
  {
    DigitsAppend(Dec(count), more);
    DecDigits(count);
    PowAtLeast(|more|);
    if count > 0 {
      Grows(count, Pow10(|more|));
    }
  }

  lemma Grows(n: nat, p: nat)
    requires n > 0 && p >= 10
    ensures n * p > n
  {
  }

  lemma ReadFront(digits: string, rest: string)
    requires digits != "" && All(digits, IsDigit) && (rest == "" || !IsDigit(rest[0]))
    ensures ReadDecimal(digits + rest, 0) == Some(Number(Digits(digits, 10), |digits|))
  {
    SpanIs(digits + rest, 0, |digits|, IsDigit);
    assert (digits + rest)[0..|digits|] == digits;
  }

  lemma DigitRun(s: string) returns (n: nat)
    ensures n <= |s| && All(s[..n], IsDigit) && (n < |s| ==> !IsDigit(s[n])) && (s != "" && IsDigit(s[0]) ==> n > 0)
  {
    n := Span(s, 0, IsDigit);
  }

  lemma SkipBlanks(file: string, n: nat, blanks: string, body: string)
    requires n <= |file| && file[n..] == blanks + body && All(blanks, IsSpace) && (body == "" || !IsSpace(body[0]))
    ensures file[Span(file, n, IsSpace)..] == body
  {
    var k := n + |blanks|;
    forall i | n <= i < k ensures IsSpace(file[i]) {
      assert file[i] == file[n..][i - n];
    }
    assert k < |file| ==> file[k] == file[n..][|blanks|];
    SpanIs(file, n, k, IsSpace);
    assert file[k..] == file[n..][|blanks|..];
  }

  /** When the rest of the file is blanks and the body, the header is right if the number is. */
  lemma CleanHeader(digits: string, blanks: string, count: nat, body: string)
    requires digits != "" && All(digits, IsDigit) && blanks != "" && All(blanks, IsSpace)
    requires body == "" || IsDigit(body[0])
    ensures ReadsBack(digits + (blanks + body), count, body) <==> Digits(digits, 10) == count
  {
    var file := digits + (blanks + body);
    assert IsSpace(blanks[0]);
    ReadFront(digits, blanks + body);
    assert file[|digits|..] == blanks + body;
    SkipBlanks(file, |digits|, blanks, body);
  }

  /** When the count runs into the flow lines, the count or the first flow is lost. */
  lemma BrokenHeader(count: nat, body: string, rest: string)
    requires count > 0 && body != "" && IsDigit(body[0]) && (rest == body || |rest| < |body|)
    ensures !ReadsBack(Dec(count) + rest, count, body)
  {
    var file := Dec(count) + rest;
    if rest != "" && IsDigit(rest[0]) {
      var n := DigitRun(rest);
      var digits := Dec(count) + rest[..n];
      assert file == digits + rest[n..];
      ReadFront(digits, rest[n..]);
      LongerNumber(count, rest[..n]);
    } else {
      ReadFront(Dec(count), rest);
      var k := Span(file, |Dec(count)|, IsSpace);
      assert |file[k..]| <= |rest| < |body|;
    }
  }

  lemma DecAtLeastTwo(n: nat)
    requires |Dec(n)| >= 2
    ensures n >= 10
  {
  }

  /** The header and the flows read back right exactly when the count has as many digits as the estimate
      or one more, or when it is zero and zeros are left over. */
  lemma HeaderReadsBackIff(estimate: nat, count: nat, body: string)
    requires IsBody(count, body)
    ensures var e, c := Dec(estimate), Dec(count);
            ReadsBack(FinalFile(estimate, count, body), count, body) <==>
              |c| == |e| || |c| == |e| + 1 || (count == 0 && Digits(e[|c|..], 10) == 0)
  {
    hide Dec, Digits, ReadsBack, IsDigit, IsSpace;
    var e, c := Dec(estimate), Dec(count);
    DecDigits(count);
    OverwriteCases(e, c, body);
    BlanksAreSpaces();
    if |c| < |e| {
      LongerNumber(count, e[|c|..]);
      CleanHeader(c + e[|c|..], " \n", count, body);
    } else if |c| == |e| {
      CleanHeader(c, " \n", count, body);
    } else if |c| == |e| + 1 {
      CleanHeader(c, "\n", count, body);
    } else {
      DecAtLeastTwo(count);
      BrokenHeader(count, body, if |c| - |e| - 2 <= |body| then body[|c| - |e| - 2..] else "");
    }
  }

  /** Estimated 100 flows, generated 99: the simulation does not read 99. */
  lemma StaleDigitIsRead(body: string)
    requires IsBody(99, body)
    ensures !ReadsBack(FinalFile(100, 99, body), 99, body)
  {
    hide ReadsBack, FinalFile, Digits;
    HeaderReadsBackIff(100, 99, body);
  }

  lemma BlanksAreSpaces()
    ensures All(" \n", IsSpace) && All("\n", IsSpace)
  {
  }

  /** What is left behind the count, by the difference in length. */
  lemma OverwriteCases(e: string, c: string, body: string)
    ensures var file := Overwrite(e + " \n" + body, c);
            && (|c| < |e| ==> file == (c + e[|c|..]) + (" \n" + body))
            && (|c| == |e| ==> file == c + (" \n" + body))
            && (|c| == |e| + 1 ==> file == c + ("\n" + body))
            && (|c| > |e| + 1 ==> file == c + if |c| - |e| - 2 <= |body| then body[|c| - |e| - 2..] else "")
  {
    var written := e + " \n" + body;
    if |c| < |e| {
      assert written[|c|..] == e[|c|..] + (" \n" + body);
    } else if |c| == |e| {
      assert written[|c|..] == " \n" + body;
    } else if |c| == |e| + 1 {
      assert written[|c|..] == "\n" + body;
    } else if |c| <= |written| {
      assert written[|c|..] == body[|c| - |e| - 2..];
    } else {
      assert c + "" == c;
    }
  }
}
