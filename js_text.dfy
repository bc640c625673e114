/**
 * The JavaScript string built-ins the application relies on: the `\s`
 * character class (which is also the set `String.prototype.trim` removes),
 * `replace(/\s/g, "_")`, `trim()`, `slice(-n)`, and `toString()` of a
 * non-negative integer.
 */
module JsText {

  /** `\s` in an ECMAScript regular expression: the WhiteSpace and
      LineTerminator code points (all in the Basic Multilingual Plane). */
  predicate IsJsWhitespace(c: char) {
    var n := c as int;
    (0x09 <= n <= 0x0D) || n == 0x20 || n == 0xA0 || n == 0x1680
    || (0x2000 <= n <= 0x200A) || n == 0x2028 || n == 0x2029
    || n == 0x202F || n == 0x205F || n == 0x3000 || n == 0xFEFF
  }

  /** The characters `.` in a regular expression does not match. */
  predicate IsLineTerminator(c: char) {
    c == '\n' || c == '\r' || c as int == 0x2028 || c as int == 0x2029
  }

  /** `\s` matches the space, the tab, the no-break space, the byte-order
      mark and every line terminator, and no word character. */
  lemma JsWhitespaceMembers()
    ensures IsJsWhitespace(' ') && IsJsWhitespace('\t') && IsJsWhitespace('\U{00A0}') && IsJsWhitespace('\U{FEFF}')
    ensures forall c :: IsLineTerminator(c) ==> IsJsWhitespace(c)
    ensures forall c :: IsWordChar(c) ==> !IsJsWhitespace(c)
  {
  }

  predicate IsAsciiUpper(c: char) { 'A' <= c <= 'Z' }
  predicate IsAsciiLower(c: char) { 'a' <= c <= 'z' }
  predicate IsDigit(c: char) { '0' <= c <= '9' }

  /** `\w`: the characters on the word side of a `\b` boundary. */
  predicate IsWordChar(c: char) {
    IsAsciiUpper(c) || IsAsciiLower(c) || IsDigit(c) || c == '_'
  }

  predicate AllDigits(s: string) {
    forall i :: 0 <= i < |s| ==> IsDigit(s[i])
  }

  predicate NoWhitespace(s: string) {
    forall i :: 0 <= i < |s| ==> !IsJsWhitespace(s[i])
  }

  /** `toUpperCase()` of one character, for the ASCII letters. */
  function ToUpperAscii(c: char): (u: char)
    ensures IsAsciiLower(c) ==> IsAsciiUpper(u) && u as int == c as int - 32
    ensures !IsAsciiLower(c) ==> u == c
  {
    if IsAsciiLower(c) then (c as int - 32) as char else c
  }

  /** `toLowerCase()` of one character, for the ASCII letters. */
  function ToLowerAscii(c: char): (l: char)
    ensures IsAsciiUpper(c) ==> IsAsciiLower(l) && l as int == c as int + 32
    ensures !IsAsciiUpper(c) ==> l == c
  {
    if IsAsciiUpper(c) then (c as int + 32) as char else c
  }

  lemma LowerOfUpper(c: char)
    requires IsAsciiLower(c)
    ensures ToLowerAscii(ToUpperAscii(c)) == c
  {
  }

  /** `s.replace(/\s/g, "_")`: every whitespace character becomes `_`. */
  function ReplaceWhitespace(s: string): (r: string)
    ensures |r| == |s|
    ensures forall i :: 0 <= i < |s| ==> r[i] == (if IsJsWhitespace(s[i]) then '_' else s[i])
  {
    if s == [] then []
    else [if IsJsWhitespace(s[0]) then '_' else s[0]] + ReplaceWhitespace(s[1..])
  }

  /** Leading whitespace removed: the result is a suffix of `s`, everything
      cut off is whitespace, and the result does not start with whitespace. */
  function TrimStart(s: string): (r: string)
    ensures |r| <= |s| && r == s[|s| - |r|..]
    ensures forall k :: 0 <= k < |s| - |r| ==> IsJsWhitespace(s[k])
    ensures r != [] ==> !IsJsWhitespace(r[0])
  {
    if s != [] && IsJsWhitespace(s[0]) then TrimStart(s[1..]) else s
  }

  /** Trailing whitespace removed, symmetrically. */
  function TrimEnd(s: string): (r: string)
    ensures |r| <= |s| && r == s[..|r|]
    ensures forall k :: |r| <= k < |s| ==> IsJsWhitespace(s[k])
    ensures r != [] ==> !IsJsWhitespace(r[|r| - 1])
  {
    if s != [] && IsJsWhitespace(s[|s| - 1]) then TrimEnd(s[..|s| - 1]) else s
  }

  /** `String.prototype.trim`. */
  function Trim(s: string): (r: string)
    ensures |r| <= |TrimStart(s)| <= |s|
    ensures r == TrimStart(s)[..|r|]
    ensures forall k :: |r| <= k < |TrimStart(s)| ==> IsJsWhitespace(TrimStart(s)[k])
    ensures r != [] ==> !IsJsWhitespace(r[0]) && !IsJsWhitespace(r[|r| - 1])
  {
    TrimEnd(TrimStart(s))
  }

  /** Trimming gives the empty string exactly when every character is whitespace. */
  lemma TrimEmptyIff(s: string)
    ensures Trim(s) == [] <==> forall k :: 0 <= k < |s| ==> IsJsWhitespace(s[k])
  {
  }

  /** A string without whitespace is its own trim. */
  lemma {:induction false} TrimNoWhitespace(s: string)
    requires NoWhitespace(s)
    ensures Trim(s) == s
  {
    if s != [] {
      assert !IsJsWhitespace(s[0]) && !IsJsWhitespace(s[|s| - 1]);
      assert TrimStart(s) == s;
    }
  }

  /** `s.slice(-n)` for n > 0: the last n characters, or all of a shorter s. */
  function SliceLast(s: string, n: nat): (r: string)
    requires n > 0
    ensures |r| == if |s| < n then |s| else n
    ensures r == s[|s| - |r|..]
    ensures AllDigits(s) ==> AllDigits(r)
  {
    if |s| < n then s else s[|s| - n..]
  }

  function DigitChar(d: nat): (c: char)
    requires d < 10
    ensures IsDigit(c) && c as int - '0' as int == d
  {
    ('0' as int + d) as char
  }

  /** `n.toString()` for a non-negative integer in positional decimal notation. */
  function DecimalString(n: nat): (r: string)
    ensures r != [] && AllDigits(r)
    ensures r[|r| - 1] == DigitChar(n % 10)
  {
    if n < 10 then [DigitChar(n)] else DecimalString(n / 10) + [DigitChar(n % 10)]
  }

  /** The decimal string has at least `k + 1` digits exactly when n >= 10^k. */
  lemma {:induction false} DecimalStringLength(n: nat, k: nat)
    requires k > 0
    ensures |DecimalString(n)| > k <==> n >= Pow10(k)
  {
    if n >= 10 && k > 1 {
      DecimalStringLength(n / 10, k - 1);
    }
  }

  /** The number a string of decimal digits denotes. */
  function DigitsValue(s: string): nat
    requires AllDigits(s)
  {
    if s == [] then 0 else DigitsValue(s[..|s| - 1]) * 10 + (s[|s| - 1] as int - '0' as int)
  }

  /** `toString()` and reading the digits back are inverse. */
  lemma {:induction false} DecimalStringValue(n: nat)
    ensures DigitsValue(DecimalString(n)) == n
  {
    var s := DecimalString(n);
    if n >= 10 {
      assert s[..|s| - 1] == DecimalString(n / 10);
      DecimalStringValue(n / 10);
    }
  }

  /** An array index in the sense of ECMAScript: the canonical decimal
      string (no leading zero) of an integer from 0 to 2^32 - 2. Objects
      enumerate such keys before all others, in ascending numeric order. */
  predicate IsArrayIndex(k: string) {
    k != [] && AllDigits(k) && (|k| > 1 ==> k[0] != '0') && DigitsValue(k) < 0xFFFF_FFFF
  }

  lemma {:induction false} LeadingDigitValue(s: string)
    requires s != [] && AllDigits(s) && s[0] != '0'
    ensures DigitsValue(s) >= 1
  {
    if |s| > 1 {
      var p := s[..|s| - 1];
      assert p[0] == s[0];
      LeadingDigitValue(p);
    }
  }

  /** A digit string without a leading zero is the `toString()` of its value. */
  lemma {:induction false} CanonicalDecimal(s: string)
    requires s != [] && AllDigits(s) && (|s| > 1 ==> s[0] != '0')
    ensures DecimalString(DigitsValue(s)) == s
  {
    var n := DigitsValue(s);
    var d := s[|s| - 1] as int - '0' as int;
    var p := s[..|s| - 1];
    assert n == DigitsValue(p) * 10 + d;
    if |s| == 1 {
      assert p == [];
      assert s == [DigitChar(d)];
    } else {
      assert p[0] == s[0];
      LeadingDigitValue(p);
      CanonicalDecimal(p);
      ModUnique(n, 10, DigitsValue(p), d);
      assert n / 10 == DigitsValue(p);
      assert s == p + [DigitChar(d)];
    }
  }

  /** Two array indices with the same numeric value are the same key. */
  lemma ArrayIndexInjective(a: string, b: string)
    requires IsArrayIndex(a) && IsArrayIndex(b) && DigitsValue(a) == DigitsValue(b)
    ensures a == b
  {
    CanonicalDecimal(a);
    CanonicalDecimal(b);
  }

  lemma ArrayIndexExamples()
    ensures IsArrayIndex("0") && IsArrayIndex("12")
    ensures !IsArrayIndex("") && !IsArrayIndex("01") && !IsArrayIndex("modelBody")
  {
    assert DigitsValue("0") == 0;
    assert "12"[..1] == "1";
    assert DigitsValue("12") == 12;
    assert !IsDigit("modelBody"[0]);
  }

  /** Quotient and remainder are determined by n == a * m + b with 0 <= b < m. */
  lemma ModUnique(n: int, m: int, a: int, b: int)
    requires m > 0 && 0 <= b < m && n == a * m + b
    ensures n % m == b
  {
    var q, r := n / m, n % m;
    assert (q - a) * m == b - r;
    assert q - a >= 1 ==> (q - a) * m >= m;
    assert q - a <= -1 ==> (q - a) * m <= -m;
  }

  lemma TenfoldMod(n: nat, p: nat)
    requires p >= 1
    ensures (n / 10 % p) * 10 + n % 10 == n % (10 * p)
  {
    var q := n / 10;
    var hi, lo := q / p, q % p;
    assert q == hi * p + lo;
    assert n == 10 * q + n % 10;
    assert 10 * (hi * p + lo) == hi * (10 * p) + 10 * lo;
    ModUnique(n, 10 * p, hi, lo * 10 + n % 10);
  }

  lemma DigitsValueAppend(t: string, c: char)
    requires AllDigits(t) && IsDigit(c)
    ensures AllDigits(t + [c]) && DigitsValue(t + [c]) == DigitsValue(t) * 10 + (c as int - '0' as int)
  {
    assert (t + [c])[..|t|] == t;
  }

  /** A decimal string shorter than k digits denotes a number below 10^k. */
  lemma ShortDecimal(n: nat, k: nat)
    requires k > 0 && |DecimalString(n)| < k
    ensures n < Pow10(k)
  {
    if k > 1 {
      DecimalStringLength(n, k - 1);
    }
  }

  /** The last k digits of `n.toString()` denote n modulo 10^k. */
  lemma {:induction false} DecimalSuffixValue(n: nat, k: nat)
    requires k > 0
    ensures DigitsValue(SliceLast(DecimalString(n), k)) == n % Pow10(k)
  {
    var s := DecimalString(n);
    if |s| < k {
      ShortSuffixValue(n, k);
    } else if k == 1 {
      LastDigitValue(n);
    } else {
      DecimalSuffixValue(n / 10, k - 1);
      SuffixValueStep(n, k);
    }
  }

  lemma ShortSuffixValue(n: nat, k: nat)
    requires k > 0 && |DecimalString(n)| < k
    ensures DigitsValue(SliceLast(DecimalString(n), k)) == n % Pow10(k)
  {
    DecimalStringValue(n);
    ShortDecimal(n, k);
    ModUnique(n, Pow10(k), 0, n);
  }

  lemma LastDigitValue(n: nat)
    ensures DigitsValue(SliceLast(DecimalString(n), 1)) == n % Pow10(1)
  {
    var s := DecimalString(n);
    var d := DigitChar(n % 10);
    assert SliceLast(s, 1) == [] + [d];
    DigitsValueAppend([], d);
  }

  lemma SuffixValueStep(n: nat, k: nat)
    requires k > 1 && |DecimalString(n)| >= k
    requires DigitsValue(SliceLast(DecimalString(n / 10), k - 1)) == n / 10 % Pow10(k - 1)
    ensures DigitsValue(SliceLast(DecimalString(n), k)) == n % Pow10(k)
  {
    assert n >= 10;
    var t := DecimalString(n / 10);
    var d := DigitChar(n % 10);
    assert DecimalString(n) == t + [d];
    var r := SliceLast(t, k - 1);
    SliceLastAppend(t, d, k);
    DigitsValueAppend(r, d);
    var p := Pow10(k - 1);
    TenfoldMod(n, p);
    assert DigitsValue(r + [d]) == (n / 10 % p) * 10 + n % 10;
    assert Pow10(k) == 10 * p;
  }

  lemma SliceLastAppend(t: string, d: char, k: nat)
    requires 1 < k <= |t| + 1
    ensures SliceLast(t + [d], k) == SliceLast(t, k - 1) + [d]
  {
    var s := t + [d];
    assert SliceLast(s, k) == s[|s| - k..];
    assert SliceLast(t, k - 1) == t[|t| - (k - 1)..];
    assert s[|s| - k..] == t[|t| - (k - 1)..] + [d];
  }

  function Pow10(k: nat): (p: nat)
    ensures p >= 1 && (k > 0 ==> p >= 10)
  {
    if k == 0 then 1 else 10 * Pow10(k - 1)
  }
}
