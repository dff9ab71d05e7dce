/** Character and string helpers that stand in for the Rust standard library
    calls the daemon makes: `eq_ignore_ascii_case`, integer `Display`, `{:02x}`,
    `trim_end_matches` and `split(..).last()`. */
module Text {

  /** Rust's `char::to_ascii_lowercase`: only 'A'..'Z' change. */
  function AsciiLower(c: char): char {
    if 'A' <= c <= 'Z' then (c as int + 32) as char else c
  }

  /** Rust's `str::eq_ignore_ascii_case`. */
  predicate EqIgnoreAsciiCase(a: string, b: string) {
    |a| == |b| && forall i :: 0 <= i < |a| ==> AsciiLower(a[i]) == AsciiLower(b[i])
  }

  lemma EqIgnoreAsciiCaseIsEquivalence(a: string, b: string, c: string)
    ensures EqIgnoreAsciiCase(a, a)
    ensures EqIgnoreAsciiCase(a, b) ==> EqIgnoreAsciiCase(b, a)
    ensures EqIgnoreAsciiCase(a, b) && EqIgnoreAsciiCase(b, c) ==> EqIgnoreAsciiCase(a, c)
  {
  }

  predicate IsDigit(c: char) {
    '0' <= c <= '9'
  }

  predicate IsDecimal(s: string) {
    |s| > 0 && forall i :: 0 <= i < |s| ==> IsDigit(s[i])
  }

  function DigitChar(d: nat): (c: char)
    requires d < 10
    ensures IsDigit(c) && c as int - '0' as int == d
  {
    ('0' as int + d) as char
  }

  /** The number a string of decimal digits denotes, most significant first. */
  function DecimalValue(s: string): nat
    requires forall i :: 0 <= i < |s| ==> IsDigit(s[i])
  {
    if |s| == 0 then 0
    else
      assert IsDigit(s[|s| - 1]);
      DecimalValue(s[..|s| - 1]) * 10 + (s[|s| - 1] as int - '0' as int)
  }

  /** The decimal rendering of a natural number (Rust's and JavaScript's
      integer to-string): digits only, no leading zero, and reading it back
      gives the number. */
  function NatToDecimal(n: nat): (r: string)
    ensures IsDecimal(r)
    ensures DecimalValue(r) == n
    ensures |r| > 1 ==> r[0] != '0'
  {
    if n < 10 then [DigitChar(n)]
    else
      var prefix := NatToDecimal(n / 10);
      var r := prefix + [DigitChar(n % 10)];
      assert r[..|r| - 1] == prefix;
      r
  }

  /** Integer rendering with a leading '-' for negative values. */
  function IntToDecimal(i: int): (r: string)
    ensures 0 <= i ==> r == NatToDecimal(i)
    ensures i < 0 ==> r == "-" + NatToDecimal(-i)
  {
    if i < 0 then "-" + NatToDecimal(-i) else NatToDecimal(i)
  }

  /** The lowercase hexadecimal digit for a value below 16. */
  function HexDigit(d: nat): (c: char)
    requires d < 16
    ensures '0' <= c <= '9' || 'a' <= c <= 'f'
  {
    if d < 10 then ('0' as int + d) as char else ('a' as int + d - 10) as char
  }

  predicate IsLowerHexDigit(c: char) {
    '0' <= c <= '9' || 'a' <= c <= 'f'
  }

  /** The value of a lowercase hexadecimal digit. */
  function HexValue(c: char): (d: nat)
    requires IsLowerHexDigit(c)
    ensures d < 16 && HexDigit(d) == c
  {
    if c <= '9' then c as int - '0' as int else c as int - 'a' as int + 10
  }

  /** `s.trim_end_matches(c)`: drops every trailing `c`. The result is the
      longest prefix of `s` that does not end in `c`, and everything cut off
      is `c`. */
  function TrimEnd(s: string, c: char): (r: string)
    ensures r <= s
    ensures |r| == 0 || r[|r| - 1] != c
    ensures forall i :: |r| <= i < |s| ==> s[i] == c
  {
    if |s| == 0 || s[|s| - 1] != c then s
    else TrimEnd(s[..|s| - 1], c)
  }

  /** `s.split(sep).last()`: the text after the last `sep`, the whole of `s`
      when it has no `sep`, and empty when `s` ends in `sep`. It is the
      longest suffix of `s` free of `sep`. */
  function LastSegment(s: string, sep: char): (r: string)
    ensures |r| <= |s| && r == s[|s| - |r|..]
    ensures sep !in r
    ensures |r| < |s| ==> s[|s| - |r| - 1] == sep
  {
    if |s| == 0 || s[|s| - 1] == sep then ""
    else
      var last := s[|s| - 1];
      var prefix := s[..|s| - 1];
      var r := LastSegment(prefix, sep) + [last];
      assert prefix[|prefix| - (|r| - 1)..] + [last] == s[|s| - |r|..];
      r
  }

  lemma LastSegmentNoSeparator(s: string, sep: char)
    requires sep !in s
    ensures LastSegment(s, sep) == s
  {
  }

  /** The parts joined end to end, as a `format!` string with several
      placeholders produces them. */
  function Concat(parts: seq<string>): string {
    if |parts| == 0 then "" else parts[0] + Concat(parts[1..])
  }

  /** `t` occurs somewhere in `s`. */
  ghost predicate Contains(s: string, t: string) {
    exists i :: 0 <= i <= |s| && t <= s[i..]
  }

  /** Text that occurs in `s` still occurs once more is appended. */
  lemma ContainsExtends(s: string, t: string, u: string)
    requires Contains(s, t)
    ensures Contains(s + u, t)
  {
    var i :| 0 <= i <= |s| && t <= s[i..];
    assert t <= (s + u)[i..];
  }

  /** Every part occurs in the joined text. */
  lemma {:induction false} ConcatShows(parts: seq<string>, k: nat)
    requires k < |parts|
    ensures Contains(Concat(parts), parts[k])
  {
    var s := Concat(parts);
    if k == 0 {
      assert s[0..] == s;
    } else {
      ConcatShows(parts[1..], k - 1);
      assert parts[1..][k - 1] == parts[k];
      var rest := Concat(parts[1..]);
      var i :| 0 <= i <= |rest| && parts[k] <= rest[i..];
      assert s[|parts[0]| + i..] == rest[i..];
    }
  }

  /** The joined text begins with the first two parts. */
  lemma ConcatStartsWith(parts: seq<string>)
    requires |parts| >= 2
    ensures parts[0] + parts[1] <= Concat(parts)
  {
    assert Concat(parts) == parts[0] + (parts[1] + Concat(parts[2..]));
  }
}
