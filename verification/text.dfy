/** The Python string operations the downloader relies on, with their exact
    meaning: `str(n)` and `"%0Nd" % n` for natural numbers, `int(s)` on digit
    strings, `str.startswith` / `str.endswith`, and `str.strip()`. */
module Text {

  predicate IsDigit(c: char) {
    '0' <= c <= '9'
  }

  predicate AllDigits(s: string) {
    forall k :: 0 <= k < |s| ==> IsDigit(s[k])
  }

  function DigitValue(c: char): nat
    requires IsDigit(c)
  {
    c as int - '0' as int
  }

  function DigitChar(d: nat): (c: char)
    requires d < 10
    ensures IsDigit(c) && DigitValue(c) == d
  {
    ('0' as int + d) as char
  }

  function Pow10(k: nat): (p: nat)
    ensures p >= 1
  {
    if k == 0 then 1 else 10 * Pow10(k - 1)
  }

  /** Decimal rendering of `n`, as Python's `str(n)`: digits only, no
      leading zero except for `0` itself. */
  function NatToString(n: nat): (r: string)
    ensures 1 <= |r| && AllDigits(r)
    ensures r[0] == '0' ==> n == 0 && |r| == 1
    decreases n
  {
    if n < 10 then [DigitChar(n)] else NatToString(n / 10) + [DigitChar(n % 10)]
  }

  /** Value of a string of decimal digits, leading zeros allowed, as `int(s)`
      (and 0 for the empty string). */
  function ParseNat(s: string): nat
    requires AllDigits(s)
  {
    if |s| == 0 then 0 else ParseNat(s[..|s| - 1]) * 10 + DigitValue(s[|s| - 1])
  }

  /** `str(n)` is read back as `n`. */
  lemma {:induction false} ParseNatToString(n: nat)
    ensures ParseNat(NatToString(n)) == n
    decreases n
  {
    var r := NatToString(n);
    if n >= 10 {
      assert r[..|r| - 1] == NatToString(n / 10);
      ParseNatToString(n / 10);
    } else {
      assert r[..|r| - 1] == [];
    }
  }

  /** `str(n)` has at most `w` digits when `n < 10^w`. */
  lemma {:induction false} NatToStringFits(n: nat, w: nat)
    ensures 1 <= w && n < Pow10(w) ==> |NatToString(n)| <= w
    decreases w
  {
    if 1 <= w && n < Pow10(w) && n >= 10 {
      assert w >= 2;
      assert n / 10 < Pow10(w - 1);
      NatToStringFits(n / 10, w - 1);
    }
  }

  function Zeros(k: nat): (r: string)
    ensures |r| == k && forall i :: 0 <= i < k ==> r[i] == '0'
  {
    if k == 0 then "" else "0" + Zeros(k - 1)
  }

  lemma {:induction false} ParseNatZeros(k: nat)
    ensures ParseNat(Zeros(k)) == 0
    decreases k
  {
    if k > 0 {
      assert Zeros(k)[..k - 1] == Zeros(k - 1);
      ParseNatZeros(k - 1);
    }
  }

  /** Leading zeros do not change the value read back. */
  lemma {:induction false} ParseNatLeadingZeros(k: nat, s: string)
    requires AllDigits(s)
    ensures ParseNat(Zeros(k) + s) == ParseNat(s)
    decreases |s|
  {
    if |s| == 0 {
      assert Zeros(k) + s == Zeros(k);
      ParseNatZeros(k);
    } else {
      var t := Zeros(k) + s;
      assert t[..|t| - 1] == Zeros(k) + s[..|s| - 1];
      ParseNatLeadingZeros(k, s[..|s| - 1]);
    }
  }

  /** `"%0{width}d" % n`: the digits of `n`, left-padded with zeros up to
      `width` characters, never truncated. */
  function ZeroPad(n: nat, width: nat): string {
    var digits := NatToString(n);
    if |digits| < width then Zeros(width - |digits|) + digits else digits
  }

  /** A zero-padded number is all digits, reads back as the number, and is
      exactly `width` long when the number has at most `width` digits. */
  lemma ZeroPadReadsBack(n: nat, width: nat)
    ensures AllDigits(ZeroPad(n, width)) && ParseNat(ZeroPad(n, width)) == n
    ensures |ZeroPad(n, width)| == if |NatToString(n)| < width then width else |NatToString(n)|
    ensures 1 <= width && n < Pow10(width) ==> |ZeroPad(n, width)| == width
  {
    var digits := NatToString(n);
    ParseNatToString(n);
    NatToStringFits(n, width);
    if |digits| < width {
      var k := width - |digits|;
      ParseNatLeadingZeros(k, digits);
      ZerosThenDigits(k, digits);
      assert ZeroPad(n, width) == Zeros(k) + digits;
    } else {
      assert ZeroPad(n, width) == digits;
    }
  }

  lemma ZerosThenDigits(k: nat, s: string)
    requires AllDigits(s)
    ensures AllDigits(Zeros(k) + s) && |Zeros(k) + s| == k + |s|
  {
    var t := Zeros(k) + s;
    forall i | 0 <= i < |t|
      ensures IsDigit(t[i])
    {
      if i >= k {
        assert t[i] == s[i - k];
      }
    }
  }

  /** `"%02d" % n` for `n < 100`: the tens digit, then the units digit. */
  lemma ZeroPadTwoDigits(n: nat)
    requires n < 100
    ensures ZeroPad(n, 2) == [DigitChar(n / 10), DigitChar(n % 10)]
  {
    if n < 10 {
      assert NatToString(n) == [DigitChar(n)];
      assert Zeros(1) == [DigitChar(0)];
    } else {
      assert NatToString(n / 10) == [DigitChar(n / 10)];
    }
  }

  /** `"%03d" % n` for `n < 1000`: hundreds, tens and units digits. */
  lemma ZeroPadThreeDigits(n: nat)
    requires n < 1000
    ensures ZeroPad(n, 3) == [DigitChar(n / 100), DigitChar(n / 10 % 10), DigitChar(n % 10)]
  {
    if n < 10 {
      assert NatToString(n) == [DigitChar(n)];
      assert Zeros(2) == [DigitChar(0), DigitChar(0)];
    } else if n < 100 {
      assert NatToString(n / 10) == [DigitChar(n / 10)];
      assert Zeros(1) == [DigitChar(0)];
    } else {
      assert NatToString(n / 100) == [DigitChar(n / 100)];
      assert NatToString(n / 10) == [DigitChar(n / 100), DigitChar(n / 10 % 10)];
    }
  }

  predicate StartsWith(s: string, prefix: string) {
    |prefix| <= |s| && s[..|prefix|] == prefix
  }

  predicate EndsWith(s: string, suffix: string) {
    |suffix| <= |s| && s[|s| - |suffix|..] == suffix
  }

  /** The 29 code points Python 3 counts as whitespace: those whose Unicode
      bidirectional class is WS, B or S, or whose category is Zs. */
  const PythonWhitespace: set<char> :=
    {'\U{9}', '\U{A}', '\U{B}', '\U{C}', '\U{D}', '\U{1C}', '\U{1D}', '\U{1E}', '\U{1F}', '\U{20}', '\U{85}', '\U{A0}', '\U{1680}', '\U{2000}', '\U{2001}', '\U{2002}', '\U{2003}', '\U{2004}', '\U{2005}', '\U{2006}', '\U{2007}', '\U{2008}', '\U{2009}', '\U{200A}', '\U{2028}', '\U{2029}', '\U{202F}', '\U{205F}', '\U{3000}'}

  /** Python 3's `str.isspace()`: the characters `str.strip()` removes when
      called without an argument. */
  predicate IsSpace(c: char) {
    var x := c as int;
    || 0x09 <= x <= 0x0D
    || 0x1C <= x <= 0x20
    || x == 0x85 || x == 0xA0 || x == 0x1680
    || 0x2000 <= x <= 0x200A
    || x == 0x2028 || x == 0x2029 || x == 0x202F || x == 0x205F || x == 0x3000
  }

  /** The range test accepts exactly Python's whitespace table. */
  lemma SpacesListed(c: char)
    ensures IsSpace(c) <==> c in PythonWhitespace
  {
  }

  predicate AllSpace(s: string) {
    forall k :: 0 <= k < |s| ==> IsSpace(s[k])
  }

  /** Neither end of `s` is white space. */
  predicate Trimmed(s: string) {
    s == [] || (!IsSpace(s[0]) && !IsSpace(s[|s| - 1]))
  }

  /** `s` is `r` with white space only before and after it, `r` starting at `i`. */
  predicate Framed(s: string, r: string, i: nat) {
    && i + |r| <= |s|
    && s[i..i + |r|] == r
    && AllSpace(s[..i])
    && AllSpace(s[i + |r|..])
  }

  function TrimStart(s: string): (r: string)
    ensures |r| <= |s| && r == s[|s| - |r|..]
    ensures AllSpace(s[..|s| - |r|])
    ensures r == [] || !IsSpace(r[0])
  {
    if |s| > 0 && IsSpace(s[0]) then
      var r := TrimStart(s[1..]);
      assert s[..|s| - |r|] == [s[0]] + s[1..][..|s[1..]| - |r|];
      AllSpaceCons(s[0], s[1..][..|s[1..]| - |r|]);
      r
    else s
  }

  lemma AllSpaceCons(c: char, s: string)
    requires IsSpace(c) && AllSpace(s)
    ensures AllSpace([c] + s)
  {
    assert forall k :: 0 < k <= |s| ==> ([c] + s)[k] == s[k - 1];
  }

  function TrimEnd(s: string): (r: string)
    ensures |r| <= |s| && r == s[..|r|]
    ensures AllSpace(s[|r|..])
    ensures r == [] || !IsSpace(r[|r| - 1])
  {
    if |s| > 0 && IsSpace(s[|s| - 1]) then
      var r := TrimEnd(s[..|s| - 1]);
      assert s[|r|..] == s[..|s| - 1][|r|..] + [s[|s| - 1]];
      AllSpaceSnoc(s[..|s| - 1][|r|..], s[|s| - 1]);
      r
    else s
  }

  lemma AllSpaceSnoc(s: string, c: char)
    requires AllSpace(s) && IsSpace(c)
    ensures AllSpace(s + [c])
  {
    assert forall k :: 0 <= k < |s| ==> (s + [c])[k] == s[k];
  }

  /** Python's `str.strip()`: `s` with the white space at both ends removed. */
  function Strip(s: string): (r: string)
    ensures Trimmed(r)
    ensures exists i :: Framed(s, r, i)
  {
    var t := TrimStart(s);
    var r := TrimEnd(t);
    var i := |s| - |t|;
    assert s[i..i + |r|] == r;
    assert s[i + |r|..] == t[|r|..];
    assert Framed(s, r, i);
    r
  }

  lemma {:induction false} TrimStartAfterSpace(a: string, t: string)
    requires AllSpace(a) && (t == [] || !IsSpace(t[0]))
    ensures TrimStart(a + t) == t
    decreases |a|
  {
    if |a| > 0 {
      assert (a + t)[1..] == a[1..] + t;
      TrimStartAfterSpace(a[1..], t);
    } else {
      assert a + t == t;
    }
  }

  lemma {:induction false} TrimEndBeforeSpace(t: string, b: string)
    requires AllSpace(b) && (t == [] || !IsSpace(t[|t| - 1]))
    ensures TrimEnd(t + b) == t
    decreases |b|
  {
    if |b| > 0 {
      assert (t + b)[..|t + b| - 1] == t + b[..|b| - 1];
      TrimEndBeforeSpace(t, b[..|b| - 1]);
    } else {
      assert t + b == t;
    }
  }

  /** `strip()` is characterised by its result: whatever is framed by white
      space on both sides and has no white space at its ends is what
      `strip()` returns. */
  lemma {:induction false} StripFramed(a: string, m: string, b: string)
    requires AllSpace(a) && AllSpace(b) && Trimmed(m)
    ensures Strip(a + m + b) == m
  {
    if m == [] {
      assert a + m + b == a + b;
      assert AllSpace(a + b);
      assert TrimStart(a + b) == [];
    } else {
      assert a + m + b == a + (m + b);
      TrimStartAfterSpace(a, m + b);
      TrimEndBeforeSpace(m, b);
    }
  }

  /** Stripping twice is stripping once. */
  lemma StripIdempotent(s: string)
    ensures Strip(Strip(s)) == Strip(s)
  {
    var r := Strip(s);
    assert r == [] + r + [];
    StripFramed([], r, []);
  }
}
