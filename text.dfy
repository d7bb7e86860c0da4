/** The string operations the components rely on: `trim`, `Number.prototype.toString`
  * for naturals, `padStart` and `split(':')[0]`. */
module Text {
  import opened Wrappers

  /** ECMAScript WhiteSpace and LineTerminator code points, the set `String.prototype.trim` removes. */
  predicate IsWhitespace(c: char) {
    c == '\t' || c == '\n' || c == '\U{B}' || c == '\U{C}' || c == '\r' || c == ' '
    || c == '\U{A0}' || c == '\U{1680}' || ('\U{2000}' <= c <= '\U{200A}')
    || c == '\U{2028}' || c == '\U{2029}' || c == '\U{202F}' || c == '\U{205F}'
    || c == '\U{3000}' || c == '\U{FEFF}'
  }

  predicate AllWhitespace(s: string) {
    forall i :: 0 <= i < |s| ==> IsWhitespace(s[i])
  }

  /** Drops leading whitespace: the result is a suffix of `s` that starts with a non-space. */
  function TrimStart(s: string): (r: string)
    ensures |r| <= |s| && r == s[|s| - |r|..]
    ensures AllWhitespace(s[..|s| - |r|])
    ensures r == [] || !IsWhitespace(r[0])
  {
    if s != [] && IsWhitespace(s[0]) then
      var r := TrimStart(s[1..]);
      assert s[1..][..|s| - 1 - |r|] == s[1..|s| - |r|];
      WhitespacePrefix(s, |s| - |r|);
      r
    else s
  }

  /** A whitespace character followed by whitespace makes a whitespace prefix. */
  lemma WhitespacePrefix(s: string, k: int)
    requires 1 <= k <= |s| && IsWhitespace(s[0]) && AllWhitespace(s[1..k])
    ensures AllWhitespace(s[..k])
  {
    forall i | 0 <= i < k
      ensures IsWhitespace(s[..k][i])
    {
      if i > 0 {
        assert s[..k][i] == s[1..k][i - 1];
      }
    }
  }

  /** Drops trailing whitespace: the result is a prefix of `s` that ends with a non-space. */
  function TrimEnd(s: string): (r: string)
    ensures |r| <= |s| && r == s[..|r|]
    ensures AllWhitespace(s[|r|..])
    ensures r == [] || !IsWhitespace(r[|r| - 1])
  {
    if s != [] && IsWhitespace(s[|s| - 1]) then
      var r := TrimEnd(s[..|s| - 1]);
      assert s[..|s| - 1][|r|..] == s[|r|..|s| - 1];
      WhitespaceSuffix(s, |r|);
      r
    else s
  }

  /** Whitespace followed by a whitespace character makes a whitespace suffix. */
  lemma WhitespaceSuffix(s: string, k: int)
    requires 0 <= k < |s| && IsWhitespace(s[|s| - 1]) && AllWhitespace(s[k..|s| - 1])
    ensures AllWhitespace(s[k..])
  {
    forall i | 0 <= i < |s| - k
      ensures IsWhitespace(s[k..][i])
    {
      if i < |s| - 1 - k {
        assert s[k..][i] == s[k..|s| - 1][i];
      }
    }
  }

  /** `s.trim()`. */
  function Trim(s: string): string {
    TrimEnd(TrimStart(s))
  }

  /** What `trim` returns is the slice `s[i..j]` with only whitespace outside it,
    * and it neither starts nor ends with whitespace. */
  lemma TrimSlice(s: string) returns (i: nat, j: nat)
    ensures i <= j <= |s| && Trim(s) == s[i..j]
    ensures AllWhitespace(s[..i]) && AllWhitespace(s[j..])
    ensures Trim(s) == [] || (!IsWhitespace(Trim(s)[0]) && !IsWhitespace(Trim(s)[|Trim(s)| - 1]))
  {
    var u := TrimStart(s);
    var r := TrimEnd(u);
    i := |s| - |u|;
    j := i + |r|;
    assert s[j..] == u[|r|..];
  }

  /** `if (s.trim())` fails exactly for blank input. */
  lemma TrimEmptyIff(s: string)
    ensures Trim(s) == [] <==> AllWhitespace(s)
  {
    var u := TrimStart(s);
    if Trim(s) == [] {
      assert u[0..] == u;
      assert s[..|s| - |u|] == s;
    }
  }

  /** Trimming twice is trimming once. */
  lemma TrimIdempotent(s: string)
    ensures Trim(Trim(s)) == Trim(s)
  {
    var t := Trim(s);
    var i, j := TrimSlice(s);
    if t != [] {
      assert !IsWhitespace(t[0]);
      assert TrimStart(t) == t;
      assert TrimEnd(t) == t;
    }
  }

  predicate IsDigit(c: char) {
    48 <= c as int <= 57
  }

  function DigitChar(d: nat): (c: char)
    requires d < 10
    ensures IsDigit(c)
  {
    (48 + d) as char
  }

  /** `n.toString()` for a natural number: its decimal digits, no leading zero. */
  function Decimal(n: nat): (s: string)
    ensures |s| >= 1 && forall i :: 0 <= i < |s| ==> IsDigit(s[i])
    ensures n < 10 <==> |s| == 1
  {
    if n < 10 then [DigitChar(n)] else Decimal(n / 10) + [DigitChar(n % 10)]
  }

  /** The number a string of decimal digits denotes (leading zeros allowed). */
  function DigitsValue(s: string): nat
    requires forall i :: 0 <= i < |s| ==> IsDigit(s[i])
  {
    if s == [] then 0
    else
      assert IsDigit(s[|s| - 1]);
      10 * DigitsValue(s[..|s| - 1]) + (s[|s| - 1] as int - 48)
  }

  /** Reading back the decimal digits of `n` gives `n`. */
  lemma {:induction false} DecimalValue(n: nat)
    ensures DigitsValue(Decimal(n)) == n
    decreases n
  {
    if n >= 10 {
      DecimalValue(n / 10);
      var s := Decimal(n);
      assert s[..|s| - 1] == Decimal(n / 10);
    }
  }

  function Pow10(k: nat): nat {
    if k == 0 then 1 else 10 * Pow10(k - 1)
  }

  /** A number below 10^k has at most k digits. */
  lemma {:induction false} DecimalLength(n: nat, k: nat)
    requires 1 <= k && n < Pow10(k)
    ensures |Decimal(n)| <= k
    decreases k
  {
    if n >= 10 {
      DecimalLength(n / 10, k - 1);
    }
  }

  function Repeat(c: char, k: nat): (s: string)
    ensures |s| == k && forall i :: 0 <= i < k ==> s[i] == c
  {
    if k == 0 then [] else [c] + Repeat(c, k - 1)
  }

  /** `s.padStart(w, fill)`: `fill` characters are added in front up to width `w`; nothing is cut. */
  function PadStart(s: string, w: nat, fill: char): (r: string)
    ensures |r| == if |s| >= w then |s| else w
    ensures r[|r| - |s|..] == s
    ensures forall i :: 0 <= i < |r| - |s| ==> r[i] == fill
  {
    if |s| >= w then s else Repeat(fill, w - |s|) + s
  }

  /** Leading zeros do not change the value of a digit string. */
  lemma {:induction false} LeadingZerosValue(k: nat, s: string)
    requires forall i :: 0 <= i < |s| ==> IsDigit(s[i])
    ensures forall i :: 0 <= i < k + |s| ==> IsDigit((Repeat('0', k) + s)[i])
    ensures DigitsValue(Repeat('0', k) + s) == DigitsValue(s)
    decreases |s| + k
  {
    var z := Repeat('0', k) + s;
    if s == [] {
      if k > 0 {
        assert z[..|z| - 1] == Repeat('0', k - 1) + [];
        LeadingZerosValue(k - 1, []);
      }
    } else {
      assert z[..|z| - 1] == Repeat('0', k) + s[..|s| - 1];
      LeadingZerosValue(k, s[..|s| - 1]);
    }
  }

  /** `n.toString().padStart(w, '0')`. */
  function ZeroPadded(n: nat, w: nat): (s: string)
    ensures |s| >= w && forall i :: 0 <= i < |s| ==> IsDigit(s[i])
  {
    PadStart(Decimal(n), w, '0')
  }

  /** Padding only ever adds zeros in front of the decimal digits. */
  lemma ZeroPaddedShape(n: nat, w: nat)
    ensures |Decimal(n)| < w ==> ZeroPadded(n, w) == Repeat('0', w - |Decimal(n)|) + Decimal(n)
    ensures |Decimal(n)| >= w ==> ZeroPadded(n, w) == Decimal(n)
  {
  }

  /** Below 10^w, zero padding gives exactly w digits. */
  lemma ZeroPaddedLength(n: nat, w: nat)
    requires 1 <= w && n < Pow10(w)
    ensures |ZeroPadded(n, w)| == w
  {
    DecimalLength(n, w);
  }

  /** Zero padding loses nothing: the padded digits still read as `n`. */
  lemma {:induction false} ZeroPaddedValue(n: nat, w: nat)
    ensures DigitsValue(ZeroPadded(n, w)) == n
  {
    ZeroPaddedShape(n, w);
    var d := Decimal(n);
    DecimalValue(n);
    if |d| < w {
      LeadingZerosValue(w - |d|, d);
    }
  }

  /** Zero padding to a fixed width is injective. */
  lemma ZeroPaddedInjective(a: nat, b: nat, w: nat)
    ensures ZeroPadded(a, w) == ZeroPadded(b, w) <==> a == b
  {
    ZeroPaddedValue(a, w);
    ZeroPaddedValue(b, w);
  }

  /** `s.split(sep)[0]`: the text before the first `sep`, or all of `s` when there is none. */
  function SplitHead(s: string, sep: char): (r: string)
    ensures |r| <= |s| && r == s[..|r|]
    ensures sep !in r
    ensures |r| < |s| ==> s[|r|] == sep
  {
    if s == [] || s[0] == sep then [] else [s[0]] + SplitHead(s[1..], sep)
  }

  /** The head of `a + [sep] + b` is `a` when `a` holds no `sep`. */
  lemma {:induction false} SplitHeadOf(a: string, sep: char, b: string)
    requires sep !in a
    ensures SplitHead(a + [sep] + b, sep) == a
  {
    var s := a + [sep] + b;
    if a != [] {
      assert s[0] == a[0] && s[1..] == a[1..] + [sep] + b;
      SplitHeadOf(a[1..], sep, b);
    }
  }

  /** The guard `if (s.trim())` of the forms, with the text they then submit: nothing
    * for blank input, otherwise the trimmed text, which is never blank. */
  function TrimmedInput(s: string): (r: Option<string>)
    ensures r.None? <==> AllWhitespace(s)
    ensures r.Some? ==> r.value == Trim(s) && !AllWhitespace(r.value)
  {
    TrimEmptyIff(s);
    if Trim(s) != [] then TrimNotBlank(s); Some(Trim(s)) else None
  }

  lemma TrimNotBlank(s: string)
    requires Trim(s) != []
    ensures !AllWhitespace(Trim(s))
  {
    var i, j := TrimSlice(s);
    assert !IsWhitespace(Trim(s)[0]);
  }
}
