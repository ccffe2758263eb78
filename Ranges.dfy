/** The `path:start-end` line ranges given on the command line, and their
    parser `LineRange::parse`. */
module Ranges {
  import opened Results
  import opened Text
  import opened Numbers

  /** A line range of one file: 1-indexed, inclusive line numbers. */
  datatype LineRange = LineRange(path: string, start: nat, end: nat)

  /** The distinct ways `LineRange::parse` fails. */
  datatype ParseError =
    | MissingColon    // "Expected path:start-end"
    | BadRangeFormat  // "Expected start-end"
    | BadStart        // "Failed to parse start line number"
    | BadEnd          // "Failed to parse end line number"
    | ZeroLine        // "Line numbers must be >= 1"
    | Inverted        // "Start line must be <= end line"

  /** What every parsed range satisfies. */
  predicate Valid(r: LineRange)
  {
    1 <= r.start <= r.end
  }

  /** The index of the last occurrence of `c` in `s`, if any. */
  function LastIndexOf(s: string, c: char): (r: Option<nat>)
    ensures r.None? <==> c !in s
    ensures r.Some? ==> r.value < |s| && s[r.value] == c && c !in s[r.value + 1..]
  {
    if s == [] then None
    else if s[|s| - 1] == c then Some(|s| - 1)
    else
      var r := LastIndexOf(s[..|s| - 1], c);
      assert r.Some? ==> s[r.value + 1..] == s[..|s| - 1][r.value + 1..] + [s[|s| - 1]];
      assert r.None? ==> s == s[..|s| - 1] + [s[|s| - 1]];
      r
  }

  /** `s` is `path`, a colon, and a colon-free rest: `path` is what is left of
      the last colon. */
  predicate SplitsAtLastColon(s: string, path: string)
  {
    |path| < |s| && s[..|path|] == path && s[|path|] == ':' && ':' !in s[|path| + 1..]
  }

  /** `LineRange::parse`: split at the last colon, split the rest on '-' into
      exactly two tokens, parse both as usize, then demand both are at least 1
      and the start is not after the end. */
  function Parse(s: string): (r: Result<LineRange, ParseError>)
    ensures r == Err(MissingColon) <==> ':' !in s
    ensures r.Ok? ==> Valid(r.value) && r.value.end <= UsizeMax
    ensures r.Ok? ==> SplitsAtLastColon(s, r.value.path)
  {
    match LastIndexOf(s, ':')
    case None => Err(MissingColon)
    case Some(i) =>
      var pathStr, rangeStr := s[..i], s[i + 1..];
      var rangeParts := Split(rangeStr, '-');
      if |rangeParts| != 2 then Err(BadRangeFormat)
      else
        match ParseUsize(rangeParts[0])
        case None => Err(BadStart)
        case Some(start) =>
          match ParseUsize(rangeParts[1])
          case None => Err(BadEnd)
          case Some(end) =>
            if start < 1 || end < 1 then Err(ZeroLine)
            else if start > end then Err(Inverted)
            else Ok(LineRange(pathStr, start, end))
  }

  /** The last colon of `p:q` is the one before `q` when `q` holds none. */
  lemma {:induction false} LastColonBefore(p: string, q: string)
    requires ':' !in q
    ensures LastIndexOf(p + ":" + q, ':') == Some(|p|)
  {
    var s := p + ":" + q;
    if q != [] {
      var q' := q[..|q| - 1];
      LastColonBefore(p, q');
      assert s[..|s| - 1] == p + ":" + q';
    }
  }

  /** `p:q` splits at its last colon into `p` and `q` when `q` holds none. */
  lemma ColonFields(p: string, q: string)
    requires ':' !in q
    ensures var s := p + ":" + q;
      LastIndexOf(s, ':') == Some(|p|) && s[..|p|] == p && s[|p| + 1..] == q
  {
    LastColonBefore(p, q);
  }

  /** `a-b` splits on '-' into `a` and `b` when neither holds a '-'. */
  lemma DashFields(a: string, b: string)
    requires '-' !in a && '-' !in b
    ensures Split(a + "-" + b, '-') == [a, b]
  {
    assert Join([a, b], '-') == a + "-" + b;
    SplitJoin([a, b], '-');
  }

  /** How `p:a-b` falls apart when `a` and `b` hold neither ':' nor '-'. */
  lemma SplitFields(p: string, a: string, b: string)
    requires ':' !in a && ':' !in b && '-' !in a && '-' !in b
    ensures var s := p + ":" + a + "-" + b;
      LastIndexOf(s, ':') == Some(|p|) && s[..|p|] == p && s[|p| + 1..] == a + "-" + b
    ensures Split(a + "-" + b, '-') == [a, b]
  {
    assert p + ":" + a + "-" + b == p + ":" + (a + "-" + b);
    ColonFields(p, a + "-" + b);
    DashFields(a, b);
  }

  /** Parsing the rendering `p:start-end` of a valid range gives that range
      back, whatever colons `p` itself holds. */
  lemma ParseRendered(p: string, start: nat, end: nat)
    requires 1 <= start <= end <= UsizeMax
    ensures Parse(p + ":" + Decimal(start) + "-" + Decimal(end)) == Ok(LineRange(p, start, end))
  {
    SplitFields(p, Decimal(start), Decimal(end));
    ParseDecimal(start);
    ParseDecimal(end);
  }

  /** A run of digits holds neither ':' nor '-'. */
  lemma DigitsHoldNoSeparator(s: string)
    requires AllDigits(s)
    ensures ':' !in s && '-' !in s
  {
    forall i | 0 <= i < |s| ensures s[i] != ':' && s[i] != '-' {
      assert IsDigit(s[i]);
    }
  }

  /** Leading zeros in either bound are accepted and do not change it, as
      `str::parse::<usize>` reads them. */
  lemma ParseLeadingZeros(p: string, k1: nat, start: nat, k2: nat, end: nat)
    requires 1 <= start <= end <= UsizeMax
    ensures Parse(p + ":" + (Zeros(k1) + Decimal(start)) + "-" + (Zeros(k2) + Decimal(end)))
      == Ok(LineRange(p, start, end))
  {
    var a, b := Zeros(k1) + Decimal(start), Zeros(k2) + Decimal(end);
    ZerosValue(k1, Decimal(start));
    ZerosValue(k2, Decimal(end));
    DigitsHoldNoSeparator(a);
    DigitsHoldNoSeparator(b);
    SplitFields(p, a, b);
    ParsePadded(k1, start);
    ParsePadded(k2, end);
  }

  /** A token `str::parse::<usize>` accepts holds neither ':' nor '-'. */
  lemma UsizeTokenHoldsNoSeparator(a: string)
    requires ParseUsize(a).Some?
    ensures ':' !in a && '-' !in a
  {
    forall i | 0 <= i < |a| ensures a[i] != ':' && a[i] != '-' {
      assert a[i] == '+' || IsDigit(a[i]);
    }
  }

  /** Once both tokens of `p:a-b` parse as usizes, in any form the usize
      parser accepts (a '+', leading zeros), the outcome depends only on their
      values: a zero line, then an inverted range, are refused; otherwise the
      range is `p` with those values. */
  lemma ParseTokens(p: string, a: string, b: string, x: nat, y: nat)
    requires ParseUsize(a) == Some(x) && ParseUsize(b) == Some(y)
    ensures Parse(p + ":" + a + "-" + b) ==
      if x == 0 || y == 0 then Err(ZeroLine)
      else if x > y then Err(Inverted)
      else Ok(LineRange(p, x, y))
  {
    UsizeTokenHoldsNoSeparator(a);
    UsizeTokenHoldsNoSeparator(b);
    SplitFields(p, a, b);
  }

  /** A range part without exactly one '-' is a format error. */
  lemma ParseRejectsShape(p: string, q: string)
    requires ':' !in q && CountOf(q, '-') != 1
    ensures Parse(p + ":" + q) == Err(BadRangeFormat)
  {
    LastColonBefore(p, q);
  }

  /** A start token that is not a usize is reported before anything else
      about the numbers. */
  lemma ParseRejectsStart(p: string, a: string, b: string)
    requires ':' !in a && ':' !in b && '-' !in a && '-' !in b
    requires ParseUsize(a).None?
    ensures Parse(p + ":" + a + "-" + b) == Err(BadStart)
  {
    SplitFields(p, a, b);
  }

  /** A good start token with an end token that is not a usize. */
  lemma ParseRejectsEnd(p: string, a: string, b: string)
    requires ':' !in a && ':' !in b && '-' !in a && '-' !in b
    requires ParseUsize(a).Some? && ParseUsize(b).None?
    ensures Parse(p + ":" + a + "-" + b) == Err(BadEnd)
  {
    SplitFields(p, a, b);
  }

  /** Line number 0 is refused, whichever bound it is. */
  lemma ParseRejectsZero(p: string, start: nat, end: nat)
    requires start <= UsizeMax && end <= UsizeMax
    requires start == 0 || end == 0
    ensures Parse(p + ":" + Decimal(start) + "-" + Decimal(end)) == Err(ZeroLine)
  {
    SplitFields(p, Decimal(start), Decimal(end));
    ParseDecimal(start);
    ParseDecimal(end);
  }

  /** A start after the end is refused. */
  lemma ParseRejectsInverted(p: string, start: nat, end: nat)
    requires 1 <= end < start <= UsizeMax
    ensures Parse(p + ":" + Decimal(start) + "-" + Decimal(end)) == Err(Inverted)
  {
    SplitFields(p, Decimal(start), Decimal(end));
    ParseDecimal(start);
    ParseDecimal(end);
  }

  // The parser's unit tests, one lemma each; each input is written as its
  // fields joined by ':' and '-'.

  lemma ParseValidExample()
    ensures Parse("src/main.rs" + ":" + "10" + "-" + "20") == Ok(LineRange("src/main.rs", 10, 20))
  {
    assert Decimal(10) == "10" && Decimal(20) == "20";
    ParseRendered("src/main.rs", 10, 20);
  }

  lemma ParseColonsInPathExample()
    ensures Parse("C:/Users/test/file.rs" + ":" + "5" + "-" + "15")
      == Ok(LineRange("C:/Users/test/file.rs", 5, 15))
  {
    assert Decimal(5) == "5" && Decimal(15) == "15";
    ParseRendered("C:/Users/test/file.rs", 5, 15);
  }

  lemma ParseSingleLineExample()
    ensures Parse("test.txt" + ":" + "42" + "-" + "42") == Ok(LineRange("test.txt", 42, 42))
  {
    assert Decimal(42) == "42";
    ParseRendered("test.txt", 42, 42);
  }

  /** A bound written with a leading zero, `src/main.rs:010-20`. */
  lemma ParseLeadingZeroExample()
    ensures Parse("src/main.rs" + ":" + "010" + "-" + "20") == Ok(LineRange("src/main.rs", 10, 20))
  {
    assert Zeros(1) + Decimal(10) == "010" && Zeros(0) + Decimal(20) == "20";
    ParseLeadingZeros("src/main.rs", 1, 10, 0, 20);
  }

  /** A start written with a '+', `f:+5-10`. */
  lemma ParsePlusExample()
    ensures Parse("f" + ":" + "+5" + "-" + "10") == Ok(LineRange("f", 5, 10))
  {
    assert Decimal(5) == "5" && Decimal(10) == "10";
    ParseDecimal(5);
    ParseDecimal(10);
    ParseTokens("f", "+5", "10", 5, 10);
  }

  /** A zero written with two digits, `f:00-5`, is still line 0. */
  lemma ParsePaddedZeroExample()
    ensures Parse("f" + ":" + "00" + "-" + "5") == Err(ZeroLine)
  {
    assert Zeros(1) + Decimal(0) == "00" && Decimal(5) == "5";
    ParsePadded(1, 0);
    ParseDecimal(5);
    ParseTokens("f", "00", "5", 0, 5);
  }

  lemma ParseNoColonExample()
    ensures Parse("src/main.rs") == Err(MissingColon)
  {
    assert ':' !in "src/main.rs";
  }

  lemma ParseNoDashExample()
    ensures Parse("src/main.rs" + ":" + "10") == Err(BadRangeFormat)
  {
    ParseRejectsShape("src/main.rs", "10");
  }

  lemma ParseTwoDashesExample()
    ensures Parse("src/main.rs" + ":" + "10-20-30") == Err(BadRangeFormat)
  {
    ParseRejectsShape("src/main.rs", "10-20-30");
  }

  lemma ParseNonNumericStartExample()
    ensures Parse("src/main.rs" + ":" + "abc" + "-" + "def") == Err(BadStart)
  {
    ParseRejectsStart("src/main.rs", "abc", "def");
  }

  lemma ParseNonNumericEndExample()
    ensures Parse("src/main.rs" + ":" + "10" + "-" + "abc") == Err(BadEnd)
  {
    assert ParseUsize("10") == Some(10) by {
      assert Decimal(10) == "10";
      ParseDecimal(10);
    }
    ParseRejectsEnd("src/main.rs", "10", "abc");
  }

  lemma ParseZeroExample()
    ensures Parse("src/main.rs" + ":" + "0" + "-" + "10") == Err(ZeroLine)
  {
    assert Decimal(10) == "10" && Decimal(0) == "0";
    ParseRejectsZero("src/main.rs", 0, 10);
  }

  lemma ParseInvertedExample()
    ensures Parse("src/main.rs" + ":" + "20" + "-" + "10") == Err(Inverted)
  {
    assert Decimal(10) == "10" && Decimal(20) == "20";
    ParseRejectsInverted("src/main.rs", 20, 10);
  }
}
