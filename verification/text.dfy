/** String operations of the JavaScript runtime that the pages and the seed
    script rely on: `replace(/\D/g, "")`, decimal rendering of integers,
    `padStart`, `startsWith`, `includes`, `trim` and `replace` with a
    one-character string pattern. Strings are sequences of UTF-16 code units,
    modelled as `char`. */
module Text {

  predicate IsDigit(c: char)
  {
    '0' <= c <= '9'
  }

  predicate AllDigits(s: string)
  {
    forall i :: 0 <= i < |s| ==> IsDigit(s[i])
  }

  lemma AllDigitsAppend(a: string, b: string)
    requires AllDigits(a) && AllDigits(b)
    ensures AllDigits(a + b)
  {
  }

  /** `s.replace(/\D/g, "")`: the ASCII digits of `s`, in order. */
  function Digits(s: string): (r: string)
    ensures AllDigits(r)
    ensures |r| <= |s|
    ensures AllDigits(s) ==> r == s
  {
    if |s| == 0 then ""
    else if IsDigit(s[0]) then [s[0]] + Digits(s[1..])
    else Digits(s[1..])
  }

  lemma {:induction false} DigitsAppend(a: string, b: string)
    ensures Digits(a + b) == Digits(a) + Digits(b)
    decreases |a|
  {
    if |a| == 0 {
      assert a + b == b;
    } else {
      assert (a + b)[1..] == a[1..] + b;
      DigitsAppend(a[1..], b);
    }
  }

  /** A string without digits contributes nothing to `Digits`. */
  lemma {:induction false} DigitsOfNonDigits(s: string)
    requires forall i :: 0 <= i < |s| ==> !IsDigit(s[i])
    ensures Digits(s) == ""
    decreases |s|
  {
    if |s| > 0 {
      DigitsOfNonDigits(s[1..]);
    }
  }

  /** Separators without digits vanish from `Digits`. */
  lemma DigitsSkip(sep: string, x: string)
    requires forall i :: 0 <= i < |sep| ==> !IsDigit(sep[i])
    ensures Digits(sep + x) == Digits(x)
  {
    DigitsAppend(sep, x);
    DigitsOfNonDigits(sep);
  }

  /** A run of digits is kept as it is. */
  lemma DigitsKeep(ds: string, x: string)
    requires AllDigits(ds)
    ensures Digits(ds + x) == ds + Digits(x)
  {
    DigitsAppend(ds, x);
  }

  function DigitValue(c: char): nat
    requires IsDigit(c)
  {
    (c as int) - ('0' as int)
  }

  function DigitChar(d: nat): (c: char)
    requires d < 10
    ensures IsDigit(c) && DigitValue(c) == d
  {
    (('0' as int) + d) as char
  }

  /** The number a non-empty run of decimal digits denotes, most significant first. */
  function DecimalValue(ds: string): nat
    requires AllDigits(ds)
    decreases |ds|
  {
    if |ds| == 0 then 0
    else DecimalValue(ds[..|ds| - 1]) * 10 + DigitValue(ds[|ds| - 1])
  }

  /** `String(n)` for a non-negative integer: its decimal digits with no
      leading zero. Parsing them back gives `n`. */
  function ToDecimal(n: nat): (r: string)
    ensures |r| > 0 && AllDigits(r)
    ensures DecimalValue(r) == n
    ensures r[0] == '0' ==> n == 0
    ensures |r| > 1 ==> r[0] != '0'
    decreases n
  {
    if n < 10 then [DigitChar(n)]
    else
      var head := ToDecimal(n / 10);
      var r := head + [DigitChar(n % 10)];
      assert r[..|r| - 1] == head;
      r
  }

  function Pow10(k: nat): (r: nat)
    ensures r >= 1
  {
    if k == 0 then 1 else 10 * Pow10(k - 1)
  }

  /** A number below `10^k` is written with at most `k` digits. */
  lemma {:induction false} ToDecimalLength(n: nat, k: nat)
    requires 0 < k && n < Pow10(k)
    ensures |ToDecimal(n)| <= k
    decreases k
  {
    if n >= 10 {
      assert k > 1;
      ToDecimalLength(n / 10, k - 1);
    }
  }

  /** Leading zeros do not change the value of a digit string. */
  lemma {:induction false} LeadingZeros(k: nat, ds: string)
    requires AllDigits(ds)
    ensures AllDigits(Repeat('0', k) + ds)
    ensures DecimalValue(Repeat('0', k) + ds) == DecimalValue(ds)
    decreases |ds|
  {
    var z := Repeat('0', k);
    if |ds| == 0 {
      assert z + ds == z;
      ZerosValue(k);
    } else {
      var s := z + ds;
      assert s[..|s| - 1] == z + ds[..|ds| - 1];
      LeadingZeros(k, ds[..|ds| - 1]);
    }
  }

  lemma {:induction false} ZerosValue(k: nat)
    ensures AllDigits(Repeat('0', k))
    ensures DecimalValue(Repeat('0', k)) == 0
    decreases k
  {
    if k > 0 {
      var z := Repeat('0', k);
      assert z[..|z| - 1] == Repeat('0', k - 1);
      ZerosValue(k - 1);
    }
  }

  function Repeat(c: char, k: nat): (r: string)
    ensures |r| == k
    ensures forall i :: 0 <= i < k ==> r[i] == c
  {
    if k == 0 then "" else [c] + Repeat(c, k - 1)
  }

  /** `s.padStart(width, c)` with a one-character pad. */
  function PadStart(s: string, width: nat, c: char): (r: string)
    ensures |r| == if |s| >= width then |s| else width
    ensures exists k: nat :: r == Repeat(c, k) + s
  {
    if |s| >= width then
      assert s == Repeat(c, 0) + s;
      s
    else Repeat(c, width - |s|) + s
  }

  predicate StartsWith(s: string, prefix: string)
  {
    prefix <= s
  }

  /** `hay.includes(needle)`: `needle` occurs as a contiguous piece of `hay`. */
  predicate Contains(hay: string, needle: string)
  {
    exists i | 0 <= i <= |hay| - |needle| :: OccursAt(hay, needle, i)
  }

  predicate OccursAt(hay: string, needle: string, i: int)
  {
    0 <= i <= |hay| - |needle| && hay[i..i + |needle|] == needle
  }

  /** `hay.toLowerCase().includes(needle.toLowerCase())`, with the
      lower-casing of the runtime given as `lower`. */
  predicate IncludesFolded(lower: string -> string, hay: string, needle: string)
  {
    Contains(lower(hay), lower(needle))
  }

  lemma ContainsEmpty(hay: string)
    ensures Contains(hay, "")
  {
    assert OccursAt(hay, "", 0);
  }

  lemma ContainsSelf(hay: string)
    ensures Contains(hay, hay)
  {
    assert OccursAt(hay, hay, 0);
  }

  /** The characters `String.prototype.trim` and `parseFloat` skip: the
      WhiteSpace and LineTerminator code points of ECMAScript (section 12.2
      and 12.3 of ECMA-262), the space separators of Unicode category Zs
      included. */
  predicate IsJsWhitespace(c: char)
  {
    || c == '\t' || c == '\U{000B}' || c == '\U{000C}' || c == ' '
    || c == '\U{00A0}' || c == '\U{FEFF}' || c == '\U{1680}'
    || ('\U{2000}' <= c <= '\U{200A}')
    || c == '\U{202F}' || c == '\U{205F}' || c == '\U{3000}'
    || c == '\n' || c == '\r' || c == '\U{2028}' || c == '\U{2029}'
  }

  /** Removes leading white space. */
  function TrimStart(s: string): (r: string)
    ensures |r| <= |s| && r == s[|s| - |r|..]
    ensures forall i :: 0 <= i < |s| - |r| ==> IsJsWhitespace(s[i])
    ensures |r| > 0 ==> !IsJsWhitespace(r[0])
    decreases |s|
  {
    if |s| > 0 && IsJsWhitespace(s[0]) then TrimStart(s[1..]) else s
  }

  /** Removes trailing white space. */
  function TrimEnd(s: string): (r: string)
    ensures |r| <= |s| && r == s[..|r|]
    ensures forall i :: |r| <= i < |s| ==> IsJsWhitespace(s[i])
    ensures |r| > 0 ==> !IsJsWhitespace(r[|r| - 1])
    decreases |s|
  {
    if |s| > 0 && IsJsWhitespace(s[|s| - 1]) then TrimEnd(s[..|s| - 1]) else s
  }

  /** `s.trim()`: the piece of `s` left after removing white space at both ends. */
  function Trim(s: string): (r: string)
    ensures exists i :: TrimmedAt(s, r, i)
    ensures |r| > 0 ==> !IsJsWhitespace(r[0]) && !IsJsWhitespace(r[|r| - 1])
  {
    var t := TrimStart(s);
    var r := TrimEnd(t);
    assert TrimmedAt(s, r, |s| - |t|);
    r
  }

  /** `r` is the piece of `s` starting at `i`, and everything of `s` around
      it is white space. */
  predicate TrimmedAt(s: string, r: string, i: int)
  {
    && 0 <= i <= |s| - |r| && r == s[i..i + |r|]
    && (forall k :: 0 <= k < i ==> IsJsWhitespace(s[k]))
    && (forall k :: i + |r| <= k < |s| ==> IsJsWhitespace(s[k]))
  }

  /** A string with no white space at either end is its own trim. */
  lemma TrimNoOp(s: string)
    requires |s| > 0 ==> !IsJsWhitespace(s[0]) && !IsJsWhitespace(s[|s| - 1])
    ensures Trim(s) == s
  {
  }

  lemma TrimIdempotent(s: string)
    ensures Trim(Trim(s)) == Trim(s)
  {
    TrimNoOp(Trim(s));
  }

  /** `s.replace(from, to)` with one-character strings: only the FIRST
      occurrence of `from` is replaced. */
  function ReplaceFirst(s: string, from: char, to: char): (r: string)
    ensures |r| == |s|
    ensures from !in s ==> r == s
    ensures from in s ==> exists k :: ReplacedAt(s, r, k, from, to)
    decreases |s|
  {
    if |s| == 0 then s
    else if s[0] == from then
      var r := [to] + s[1..];
      assert ReplacedAt(s, r, 0, from, to);
      r
    else
      var rest := ReplaceFirst(s[1..], from, to);
      assert s == [s[0]] + s[1..];
      if from in s[1..] then
        var k :| ReplacedAt(s[1..], rest, k, from, to);
        assert s[..k + 1] == [s[0]] + s[1..][..k];
        assert ReplacedAt(s, [s[0]] + rest, k + 1, from, to);
        [s[0]] + rest
      else
        [s[0]] + rest
  }

  /** A string that replaces the first `from` of `s` is `ReplaceFirst`'s result. */
  lemma ReplaceFirstAt(s: string, r: string, k: int, from: char, to: char)
    requires ReplacedAt(s, r, k, from, to)
    ensures ReplaceFirst(s, from, to) == r
  {
    assert s[k] == from;
    var r' := ReplaceFirst(s, from, to);
    var k' :| ReplacedAt(s, r', k', from, to);
    assert k' == k;
  }

  /** `r` is `s` with its first `from`, at position `k`, changed to `to`. */
  predicate ReplacedAt(s: string, r: string, k: int, from: char, to: char)
  {
    0 <= k < |s| && s[k] == from && from !in s[..k] && r == s[..k] + [to] + s[k + 1..]
  }
}
