// Machine integers and their decimal text, as strconv reads and writes them.
module Numbers {
  import opened Options

  const MIN_INT64: int := -0x8000_0000_0000_0000
  const MAX_INT64: int := 0x7fff_ffff_ffff_ffff
  const TWO_64: int := 0x1_0000_0000_0000_0000

  predicate InInt64(n: int) { MIN_INT64 <= n <= MAX_INT64 }

  // The two's complement value that a 64-bit operation leaves behind.
  function Wrap64(n: int): (r: int)
    ensures InInt64(r)
    ensures InInt64(n) ==> r == n
  {
    (n - MIN_INT64) % TWO_64 + MIN_INT64
  }

  predicate IsDigit(c: char) { '0' <= c <= '9' }

  function DigitChar(d: nat): (c: char)
    requires d < 10
    ensures IsDigit(c) && (c - '0') as int == d
  {
    '0' + d as char
  }

  predicate AllDigits(s: string)
  {
    forall i :: 0 <= i < |s| ==> IsDigit(s[i])
  }

  function DigitsValue(s: string): nat
    requires AllDigits(s)
  {
    if s == "" then 0 else 10 * DigitsValue(s[..|s| - 1]) + (s[|s| - 1] - '0') as int
  }

  function Digits(n: nat): (s: string)
    ensures s != "" && AllDigits(s)
  {
    if n < 10 then [DigitChar(n)] else Digits(n / 10) + [DigitChar(n % 10)]
  }

  // strconv.FormatInt(n, 10)
  function FormatInt(n: int): string
  {
    if n < 0 then "-" + Digits(-n) else Digits(n)
  }

  // The integer that an optional sign and digits denote; None for other text.
  function Denoted(s: string): Option<int>
  {
    var signed := s != "" && (s[0] == '-' || s[0] == '+');
    var digits := if signed then s[1..] else s;
    if digits == "" || !AllDigits(digits) then None
    else
      var magnitude: int := DigitsValue(digits);
      Some(if signed && s[0] == '-' then -magnitude else magnitude)
  }

  // strconv.ParseInt(s, 10, 64) and strconv.Atoi when their error is checked: the
  // value must fit.
  function ParseInt(s: string): (n: Option<int>)
    ensures n.Some? ==> InInt64(n.value)
  {
    var n := Denoted(s);
    if n.Some? && InInt64(n.value) then n else None
  }

  function Clamp64(n: int): (r: int)
    ensures InInt64(r) && (InInt64(n) ==> r == n)
  {
    if n < MIN_INT64 then MIN_INT64 else if n > MAX_INT64 then MAX_INT64 else n
  }

  // strconv.Atoi when its error is ignored: zero for other text, the nearest
  // bound for a value that does not fit.
  function Atoi(s: string): int
  {
    var n := Denoted(s);
    if n.None? then 0 else Clamp64(n.value)
  }

  lemma {:induction false} DigitsRoundTrip(n: nat)
    ensures DigitsValue(Digits(n)) == n
  {
    if n < 10 {
      assert Digits(n)[..0] == "";
    } else {
      DigitsRoundTrip(n / 10);
      assert Digits(n)[..|Digits(n)| - 1] == Digits(n / 10);
    }
  }

  lemma DigitsUnsigned(n: nat)
    ensures Digits(n)[0] != '-' && Digits(n)[0] != '+'
  {
    assert IsDigit(Digits(n)[0]);
  }

  lemma FormatDenotes(n: int)
    ensures Denoted(FormatInt(n)) == Some(n)
  {
    var magnitude: nat := if n < 0 then -n else n;
    DigitsRoundTrip(magnitude);
    DigitsUnsigned(magnitude);
    if n < 0 { assert FormatInt(n)[1..] == Digits(magnitude); }
  }

  lemma ParseInvertsFormat(n: int)
    requires InInt64(n)
    ensures ParseInt(FormatInt(n)) == Some(n)
  {
    FormatDenotes(n);
  }

  lemma FormatInjective(m: int, n: int)
    requires FormatInt(m) == FormatInt(n)
    ensures m == n
  {
    FormatDenotes(m);
    FormatDenotes(n);
  }

  // The text is the shortest: a sign for negative numbers only, and no zero in front.
  lemma {:induction false} FormatExactly(n: nat)
    ensures AllDigits(FormatInt(n)) && (n > 0 ==> FormatInt(n)[0] != '0' && FormatInt(-(n as int)) == "-" + FormatInt(n))
    ensures FormatInt(0) == "0"
  {
    if n >= 10 { FormatExactly(n / 10); }
  }

  // A text that is no number counts as zero where errors are ignored.
  lemma AtoiExactly(s: string)
    ensures ParseInt(s).Some? ==> Atoi(s) == ParseInt(s).value
    ensures Denoted(s).None? ==> Atoi(s) == 0
  {
  }
}
