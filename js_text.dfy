/**
 * The pieces of JavaScript string behaviour the modelled code relies on:
 * the `\s` / `String.prototype.trim` whitespace class, `trim`, `endsWith`,
 * `Array.prototype.join` and the decimal form of an integral `number`.
 * Characters are Unicode scalar values (one `char` per code point).
 */
module JsText {

  /** The characters matched by `\s` and removed by `trim()`. */
  predicate IsSpace(c: char) {
    || c == '\t' || c == '\n' || c == '\U{000B}' || c == '\U{000C}' || c == '\r'
    || c == ' ' || c == '\U{00A0}' || c == '\U{1680}'
    || ('\U{2000}' <= c <= '\U{200A}')
    || c == '\U{2028}' || c == '\U{2029}' || c == '\U{202F}' || c == '\U{205F}'
    || c == '\U{3000}' || c == '\U{FEFF}'
  }

  predicate AllSpace(s: string) {
    forall i :: 0 <= i < |s| ==> IsSpace(s[i])
  }

  /** The number of whitespace characters `s` starts with. */
  function LeadingSpaces(s: string): (n: nat)
    ensures n <= |s|
    ensures forall i :: 0 <= i < n ==> IsSpace(s[i])
    ensures n == |s| || !IsSpace(s[n])
  {
    if s != [] && IsSpace(s[0]) then 1 + LeadingSpaces(s[1..]) else 0
  }

  /** The number of whitespace characters `s` ends with. */
  function TrailingSpaces(s: string): (n: nat)
    ensures n <= |s|
    ensures forall i :: |s| - n <= i < |s| ==> IsSpace(s[i])
    ensures n == |s| || !IsSpace(s[|s| - n - 1])
  {
    if s != [] && IsSpace(s[|s| - 1]) then 1 + TrailingSpaces(s[..|s| - 1]) else 0
  }

  /** `trimStart()`: drops the leading whitespace and nothing else. */
  function TrimStart(s: string): (r: string)
    ensures r == [] || !IsSpace(r[0])
  {
    s[LeadingSpaces(s)..]
  }

  /** `trimEnd()`: drops the trailing whitespace and nothing else. */
  function TrimEnd(s: string): (r: string)
    ensures r == [] || !IsSpace(r[|r| - 1])
  {
    s[..|s| - TrailingSpaces(s)]
  }

  /** `trim()`: the stretch of the input between its leading and its trailing whitespace. */
  function Trim(s: string): (r: string)
    ensures LeadingSpaces(s) + |r| <= |s|
    ensures r == [] || (!IsSpace(r[0]) && !IsSpace(r[|r| - 1]))
    ensures forall i :: 0 <= i < |r| ==> r[i] == s[LeadingSpaces(s) + i]
    ensures AllSpace(s[LeadingSpaces(s) + |r|..])
  {
    var t := TrimStart(s);
    assert s[LeadingSpaces(s) + |t| - TrailingSpaces(t)..] == t[|t| - TrailingSpaces(t)..];
    TrimEnd(t)
  }

  /** `s.trim()` is empty exactly when every character of `s` is whitespace. */
  lemma TrimEmptyIffBlank(s: string)
    ensures Trim(s) == [] <==> AllSpace(s)
  {
    var a := LeadingSpaces(s);
    var t := s[a..];
    if Trim(s) == [] {
      assert TrailingSpaces(t) == |t|;
      assert a == |s|;
    }
  }

  /** `s.length`: the number of UTF-16 code units, two for a character beyond U+FFFF. */
  function Utf16Length(s: string): (n: nat)
    ensures |s| <= n <= 2 * |s|
    ensures (forall i :: 0 <= i < |s| ==> s[i] as int <= 0xFFFF) ==> n == |s|
  {
    if s == [] then 0 else Utf16Length(s[..|s| - 1]) + (if s[|s| - 1] as int > 0xFFFF then 2 else 1)
  }

  lemma {:induction false} Utf16LengthAppend(a: string, b: string)
    ensures Utf16Length(a + b) == Utf16Length(a) + Utf16Length(b)
    decreases |b|
  {
    if b != [] {
      assert (a + b)[..|a + b| - 1] == a + b[..|b| - 1];
      Utf16LengthAppend(a, b[..|b| - 1]);
    } else {
      assert a + b == a;
    }
  }

  /** `s.endsWith(suffix)`. */
  predicate EndsWith(s: string, suffix: string) {
    |suffix| <= |s| && s[|s| - |suffix|..] == suffix
  }

  /** `parts.join(sep)`; the join of no parts is the empty string. */
  function Join(parts: seq<string>, sep: string): (r: string)
    ensures |parts| == 1 ==> r == parts[0]
  {
    if |parts| == 0 then ""
    else if |parts| == 1 then parts[0]
    else Join(parts[..|parts| - 1], sep) + sep + parts[|parts| - 1]
  }

  /** Every character of a join comes from a part or from the separator. */
  lemma {:induction false} JoinChars(parts: seq<string>, sep: string, P: char -> bool)
    requires forall k, i :: 0 <= k < |parts| && 0 <= i < |parts[k]| ==> P(parts[k][i])
    requires forall i :: 0 <= i < |sep| ==> P(sep[i])
    ensures forall i :: 0 <= i < |Join(parts, sep)| ==> P(Join(parts, sep)[i])
  {
    if |parts| > 1 {
      var init := parts[..|parts| - 1];
      JoinChars(init, sep, P);
      var a := Join(init, sep);
      var last := parts[|parts| - 1];
      forall i | 0 <= i < |a + sep + last| ensures P((a + sep + last)[i]) {
        if i < |a| {
        } else if i < |a| + |sep| {
          assert (a + sep + last)[i] == sep[i - |a|];
        } else {
          assert (a + sep + last)[i] == last[i - |a| - |sep|];
        }
      }
    }
  }

  const Digits: string := "0123456789"

  /** The decimal digits of a natural number, most significant first. */
  function DecimalNat(n: nat): (r: string)
    ensures |r| >= 1
    ensures forall i :: 0 <= i < |r| ==> '0' <= r[i] <= '9'
  {
    if n < 10 then [Digits[n]] else DecimalNat(n / 10) + [Digits[n % 10]]
  }

  /** The value of a string of decimal digits. */
  function DigitsValue(s: string): nat
    requires forall i :: 0 <= i < |s| ==> '0' <= s[i] <= '9'
  {
    if s == [] then 0 else DigitsValue(s[..|s| - 1]) * 10 + (s[|s| - 1] as int - '0' as int)
  }

  /** Reading the decimal digits back gives the number written. */
  lemma {:induction false} DecimalNatRoundTrip(n: nat)
    ensures DigitsValue(DecimalNat(n)) == n
  {
    var r := DecimalNat(n);
    if n >= 10 {
      DecimalNatRoundTrip(n / 10);
      assert r[..|r| - 1] == DecimalNat(n / 10);
    }
  }

  /** `String(v)` for an integral `number`: an optional minus sign and the digits. */
  function NumberString(v: int): (r: string)
    ensures r != "-"
    ensures v >= 0 ==> r == DecimalNat(v)
    ensures v < 0 ==> r == "-" + DecimalNat(-v)
  {
    if v < 0 then "-" + DecimalNat(-v) else DecimalNat(v)
  }
}
