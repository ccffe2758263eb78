/** Decimal numbers: rendering a natural number and Rust's `str::parse::<usize>`
    on a 64-bit target. */
module Numbers {
  import opened Results

  /** `usize::MAX` on a 64-bit target. */
  const UsizeMax: nat := 0xFFFF_FFFF_FFFF_FFFF

  predicate IsDigit(ch: char)
  {
    '0' <= ch <= '9'
  }

  predicate AllDigits(s: string)
  {
    forall i :: 0 <= i < |s| ==> IsDigit(s[i])
  }

  function DigitValue(ch: char): nat
    requires IsDigit(ch)
  {
    ch as int - '0' as int
  }

  function DigitChar(d: nat): (ch: char)
    requires d < 10
    ensures IsDigit(ch) && DigitValue(ch) == d
  {
    ('0' as int + d) as char
  }

  /** The value of a run of decimal digits, most significant first. */
  function DigitsValue(s: string): nat
    requires AllDigits(s)
  {
    if s == [] then 0 else DigitsValue(s[..|s| - 1]) * 10 + DigitValue(s[|s| - 1])
  }

  /** The decimal rendering of `n`, without leading zeros; it reads back as `n`. */
  function Decimal(n: nat): (s: string)
    ensures s != [] && AllDigits(s)
    ensures DigitsValue(s) == n
    ensures s[0] == '0' ==> s == "0"
  {
    if n < 10 then [DigitChar(n)]
    else
      var s := Decimal(n / 10) + [DigitChar(n % 10)];
      assert s[..|s| - 1] == Decimal(n / 10);
      s
  }

  /** `str::parse::<usize>`: one optional leading '+', then at least one decimal
      digit and nothing else, and a value that fits in a usize. Every other
      text (empty, a lone '+', a '-' sign, a non-digit, an overflow) fails. */
  function ParseUsize(s: string): (r: Option<nat>)
    ensures r.Some? ==> r.value <= UsizeMax
    ensures r.Some? ==> s != [] && (s[0] == '+' || IsDigit(s[0]))
    ensures r.Some? ==> |s| > (if s[0] == '+' then 1 else 0)
    ensures r.Some? ==> forall i :: 0 < i < |s| ==> IsDigit(s[i])
  {
    if s == [] then None
    else
      var digits := if s[0] == '+' then s[1..] else s;
      if digits == [] || !AllDigits(digits) then None
      else if DigitsValue(digits) > UsizeMax then None
      else Some(DigitsValue(digits))
  }

  /** Every usize reads back from its decimal rendering, with or without a
      leading '+'. */
  lemma ParseDecimal(n: nat)
    requires n <= UsizeMax
    ensures ParseUsize(Decimal(n)) == Some(n)
    ensures ParseUsize("+" + Decimal(n)) == Some(n)
  {
    var d := Decimal(n);
    assert ("+" + d)[1..] == d;
  }

  /** A value above `usize::MAX` is refused rather than wrapped around. */
  lemma ParseOverflow(n: nat)
    requires n > UsizeMax
    ensures ParseUsize(Decimal(n)) == None
  {
  }
  /** A run of `k` zero digits. */
  function Zeros(k: nat): (z: string)
    ensures |z| == k && AllDigits(z)
  {
    seq(k, i => '0')
  }

  /** Leading zeros do not change the value of a run of digits. */
  lemma {:induction false} ZerosValue(k: nat, t: string)
    requires AllDigits(t)
    ensures AllDigits(Zeros(k) + t) && DigitsValue(Zeros(k) + t) == DigitsValue(t)
  {
    var s := Zeros(k) + t;
    assert forall i :: 0 <= i < |s| ==> IsDigit(s[i]) by {
      forall i | 0 <= i < |s| ensures IsDigit(s[i]) {
        if i >= k {
          assert s[i] == t[i - k];
        }
      }
    }
    if t == [] {
      assert s == Zeros(k);
      ZerosValueZero(k);
    } else {
      var u := t[..|t| - 1];
      ZerosValue(k, u);
      assert s[..|s| - 1] == Zeros(k) + u;
      assert s[|s| - 1] == t[|t| - 1];
    }
  }

  lemma {:induction false} ZerosValueZero(k: nat)
    ensures DigitsValue(Zeros(k)) == 0
  {
    if k > 0 {
      ZerosValueZero(k - 1);
      assert Zeros(k)[..k - 1] == Zeros(k - 1);
    }
  }

  /** A run of digits that does not start with 0 has a positive value. */
  lemma {:induction false} LeadingDigitPositive(s: string)
    requires s != [] && AllDigits(s) && s[0] != '0'
    ensures DigitsValue(s) > 0
  {
    if |s| > 1 {
      var p := s[..|s| - 1];
      assert p[0] == s[0];
      LeadingDigitPositive(p);
    }
  }

  /** A run of digits without leading zeros is the decimal rendering of its
      value. */
  lemma {:induction false} DecimalOfDigits(s: string)
    requires s != [] && AllDigits(s) && (s[0] == '0' ==> |s| == 1)
    ensures Decimal(DigitsValue(s)) == s
  {
    var n := DigitsValue(s);
    var p, d := s[..|s| - 1], s[|s| - 1];
    if p == [] {
      assert AllDigits(p);
      assert n == DigitsValue(p) * 10 + DigitValue(d);
      assert s == [d];
    } else {
      assert p[0] == s[0];
      LeadingDigitPositive(p);
      DecimalOfDigits(p);
      var q := DigitsValue(p);
      assert n == q * 10 + DigitValue(d);
      assert n / 10 == q && n % 10 == DigitValue(d);
      assert s == p + [d];
    }
  }

  lemma ZerosAppend(a: nat, b: nat)
    ensures Zeros(a) + Zeros(b) == Zeros(a + b)
  {
  }

  /** Every non-empty run of digits is some zeros followed by the decimal
      rendering of its value. */
  lemma {:induction false} DigitsAsDecimal(s: string) returns (k: nat)
    requires s != [] && AllDigits(s)
    ensures s == Zeros(k) + Decimal(DigitsValue(s))
  {
    if s[0] == '0' && |s| > 1 {
      var t := s[1..];
      assert AllDigits(t) by {
        forall i | 0 <= i < |t| ensures IsDigit(t[i]) {
          assert t[i] == s[i + 1];
        }
      }
      var k' := DigitsAsDecimal(t);
      k := k' + 1;
      assert s == Zeros(1) + t;
      ZerosValue(1, t);
      ZerosAppend(1, k');
      assert s == Zeros(1) + (Zeros(k') + Decimal(DigitsValue(t)));
    } else {
      k := 0;
      DecimalOfDigits(s);
      assert Zeros(0) + s == s;
    }
  }

  /** What `str::parse::<usize>` accepts: an optional '+', any number of
      leading zeros and the decimal rendering of a usize, which is the value
      returned. */
  lemma ParsePadded(k: nat, n: nat)
    requires n <= UsizeMax
    ensures ParseUsize(Zeros(k) + Decimal(n)) == Some(n)
    ensures ParseUsize("+" + Zeros(k) + Decimal(n)) == Some(n)
  {
    var d := Zeros(k) + Decimal(n);
    ZerosValue(k, Decimal(n));
    assert d[0] != '+' by {
      assert IsDigit(d[0]);
    }
    assert ("+" + Zeros(k) + Decimal(n))[1..] == d;
  }

  /** Conversely, every text `str::parse::<usize>` accepts is an optional '+',
      leading zeros and the decimal rendering of the value returned. */
  lemma ParseShape(s: string, n: nat)
    requires ParseUsize(s) == Some(n)
    ensures exists k: nat :: s == Zeros(k) + Decimal(n) || s == "+" + Zeros(k) + Decimal(n)
  {
    var digits := if s[0] == '+' then s[1..] else s;
    var k := DigitsAsDecimal(digits);
    if s[0] == '+' {
      assert s == "+" + digits;
    }
    assert s == Zeros(k) + Decimal(n) || s == "+" + Zeros(k) + Decimal(n);
  }
}
