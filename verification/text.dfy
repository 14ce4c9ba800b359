/**
 * The string operations the collectors, repositories and web front end rely on, written out over
 * `seq<char>`: ordinal containment and replacement, .NET whitespace trimming, joining,
 * ASCII case folding, and the decimal and hexadecimal renderings of integers.
 */
module Text {
  import opened Wrappers

  // ---------------------------------------------------------------------------------------------
  // Containment and replacement (ordinal, as `string.Contains` / `string.Replace` / `StartsWith`)
  // ---------------------------------------------------------------------------------------------

  predicate StartsWith(s: string, prefix: string) {
    |prefix| <= |s| && s[..|prefix|] == prefix
  }

  /** `pattern` is spelled out in `s` starting at position `i`. */
  predicate OccursAt(s: string, pattern: string, i: int) {
    0 <= i && i + |pattern| <= |s| && s[i..i + |pattern|] == pattern
  }

  /** `s.Contains(pattern)`: some window of `s` spells `pattern`. */
  predicate Contains(s: string, pattern: string) {
    exists i :: 0 <= i <= |s| && OccursAt(s, pattern, i)
  }

  lemma ContainsAt(s: string, pattern: string, i: nat)
    requires OccursAt(s, pattern, i)
    ensures Contains(s, pattern)
  {
  }

  /** A pattern whose first character never occurs in `s` is not contained in it. */
  lemma NotContainedByFirstChar(s: string, pattern: string)
    requires |pattern| > 0 && pattern[0] !in s
    ensures !Contains(s, pattern)
  {
    forall i | 0 <= i && i + |pattern| <= |s| ensures !OccursAt(s, pattern, i) {
      assert s[i] in s;
      assert s[i..i + |pattern|][0] == s[i];
    }
  }

  /** `s.Replace(target, replacement)`: every non-overlapping occurrence, scanned left to right, is replaced. */
  function Replace(s: string, target: string, replacement: string): (r: string)
    requires |target| > 0
    ensures replacement == "" ==> |r| <= |s|
    decreases |s|
  {
    if |s| < |target| then s
    else if s[..|target|] == target then replacement + Replace(s[|target|..], target, replacement)
    else [s[0]] + Replace(s[1..], target, replacement)
  }

  /** Replacing a pattern that does not occur leaves the string as it was. */
  lemma {:induction false} ReplaceAbsent(s: string, target: string, replacement: string)
    requires |target| > 0 && !Contains(s, target)
    ensures Replace(s, target, replacement) == s
    decreases |s|
  {
    if |s| < |target| {
    } else {
      if s[..|target|] == target {
        ContainsAt(s, target, 0);
      }
      forall i | OccursAt(s[1..], target, i) ensures OccursAt(s, target, i + 1) {
        assert s[i + 1..i + 1 + |target|] == s[1..][i..i + |target|];
      }
      ReplaceAbsent(s[1..], target, replacement);
      assert [s[0]] + s[1..] == s;
    }
  }

  /** Deleting a pattern whose first character never occurs changes nothing. */
  lemma DeleteAbsent(s: string, target: string)
    requires |target| > 0 && target[0] !in s
    ensures Replace(s, target, "") == s
  {
    NotContainedByFirstChar(s, target);
    ReplaceAbsent(s, target, "");
  }

  /** Deleting a one-character pattern removes every occurrence of that character. */
  lemma {:induction false} RemoveCharRemovesAll(s: string, c: char)
    ensures c !in Replace(s, [c], "")
    decreases |s|
  {
    if |s| >= 1 {
      RemoveCharRemovesAll(s[1..], c);
    }
  }

  // ---------------------------------------------------------------------------------------------
  // Whitespace and trimming (`char.IsWhiteSpace`, `string.Trim`, `string.IsNullOrWhiteSpace`)
  // ---------------------------------------------------------------------------------------------

  /** The characters .NET treats as white space (the Unicode White_Space property). */
  predicate IsWhiteSpace(c: char) {
    c == ' ' || ('\t' <= c <= '\r') || c == '\U{0085}' || c == '\U{00A0}' || c == '\U{1680}'
    || ('\U{2000}' <= c <= '\U{200A}') || c == '\U{2028}' || c == '\U{2029}'
    || c == '\U{202F}' || c == '\U{205F}' || c == '\U{3000}'
  }

  predicate IsBlank(s: string) {
    forall i :: 0 <= i < |s| ==> IsWhiteSpace(s[i])
  }

  /** How many white-space characters `s` starts with. */
  function LeadingBlanks(s: string): (n: nat)
    ensures n <= |s|
    ensures forall i :: 0 <= i < n ==> IsWhiteSpace(s[i])
    ensures n < |s| ==> !IsWhiteSpace(s[n])
    decreases |s|
  {
    if |s| > 0 && IsWhiteSpace(s[0]) then 1 + LeadingBlanks(s[1..]) else 0
  }

  /** How many white-space characters `s` ends with. */
  function TrailingBlanks(s: string): (m: nat)
    ensures m <= |s|
    ensures forall i :: |s| - m <= i < |s| ==> IsWhiteSpace(s[i])
    ensures m < |s| ==> !IsWhiteSpace(s[|s| - 1 - m])
    decreases |s|
  {
    if |s| > 0 && IsWhiteSpace(s[|s| - 1]) then 1 + TrailingBlanks(s[..|s| - 1]) else 0
  }

  /** `r` is the slice of `s` that starts at `k`. */
  predicate IsWindow(s: string, r: string, k: int) {
    0 <= k <= |s| - |r| && r == s[k..k + |r|]
  }

  /** `s.Trim()`: the window of `s` left after dropping white space at both ends. */
  function Trim(s: string): (r: string)
    ensures |r| <= |s|
    ensures exists k :: 0 <= k <= |s| && IsWindow(s, r, k)
    ensures |r| > 0 ==> !IsWhiteSpace(r[0]) && !IsWhiteSpace(r[|r| - 1])
    ensures r == "" <==> IsBlank(s)
  {
    var n := LeadingBlanks(s);
    if n == |s| then
      assert IsWindow(s, "", 0);
      ""
    else
      var m := TrailingBlanks(s);
      assert n < |s| - m;
      assert IsWindow(s, s[n..|s| - m], n);
      s[n..|s| - m]
  }

  /** `string.IsNullOrEmpty` */
  predicate IsNullOrEmpty(s: Option<string>) {
    s.None? || s.value == ""
  }

  /** `string.IsNullOrWhiteSpace` */
  predicate IsNullOrWhiteSpace(s: Option<string>) {
    s.None? || IsBlank(s.value)
  }

  // ---------------------------------------------------------------------------------------------
  // Joining (`string.Join`, `Array.prototype.join`)
  // ---------------------------------------------------------------------------------------------

  function Join(sep: string, parts: seq<string>): (r: string)
    decreases |parts|
  {
    if |parts| == 0 then ""
    else if |parts| == 1 then parts[0]
    else parts[0] + sep + Join(sep, parts[1..])
  }

  /** Every part is spelled out, in place, inside the joined string. */
  lemma {:induction false} JoinContainsEach(sep: string, parts: seq<string>, k: nat)
    requires k < |parts|
    ensures Contains(Join(sep, parts), parts[k])
    decreases |parts|
  {
    var j := Join(sep, parts);
    if k == 0 {
      assert j[0..|parts[0]|] == parts[0];
      ContainsAt(j, parts[0], 0);
    } else {
      JoinContainsEach(sep, parts[1..], k - 1);
      var rest := Join(sep, parts[1..]);
      var i :| 0 <= i <= |rest| && OccursAt(rest, parts[k], i);
      assert parts[1..][k - 1] == parts[k];
      var off := |parts[0]| + |sep|;
      assert j == parts[0] + sep + rest;
      assert i + |parts[k]| <= |rest|;
      assert j[off + i..off + i + |parts[k]|] == rest[i..i + |parts[k]|];
      ContainsAt(j, parts[k], off + i);
    }
  }

  /** What a string contains, it still contains with more after it. */
  lemma ContainsInPrefix(s: string, t: string, pattern: string)
    requires Contains(s, pattern)
    ensures Contains(s + t, pattern)
  {
    var i :| 0 <= i <= |s| && OccursAt(s, pattern, i);
    assert (s + t)[i..i + |pattern|] == s[i..i + |pattern|];
    ContainsAt(s + t, pattern, i);
  }

  /** The joined string begins with the first part. */
  lemma JoinStartsWithFirst(sep: string, parts: seq<string>)
    requires |parts| > 0
    ensures StartsWith(Join(sep, parts), parts[0])
  {
    var j := Join(sep, parts);
    if |parts| > 1 {
      assert j == parts[0] + (sep + Join(sep, parts[1..]));
    }
  }

  // ---------------------------------------------------------------------------------------------
  // Case folding (ASCII letters; `StringComparison.OrdinalIgnoreCase`, `ToLower`)
  // ---------------------------------------------------------------------------------------------

  function LowerChar(c: char): char {
    if 'A' <= c <= 'Z' then (c as int + 32) as char else c
  }

  function UpperChar(c: char): char {
    if 'a' <= c <= 'z' then (c as int - 32) as char else c
  }

  function ToLower(s: string): (r: string)
    ensures |r| == |s|
  {
    seq(|s|, i requires 0 <= i < |s| => LowerChar(s[i]))
  }

  /** `a.Equals(b, StringComparison.OrdinalIgnoreCase)` */
  predicate EqualsIgnoreCase(a: string, b: string) {
    |a| == |b| && forall i :: 0 <= i < |a| ==> UpperChar(a[i]) == UpperChar(b[i])
  }

  /** Folding to upper case and to lower case identify the same pairs of characters. */
  lemma FoldsAgree(c: char, d: char)
    ensures UpperChar(c) == UpperChar(d) <==> LowerChar(c) == LowerChar(d)
  {
  }

  /** Case-insensitive equality is exactly equality after lower-casing. */
  lemma EqualsIgnoreCaseIsLowerEquality(a: string, b: string)
    ensures EqualsIgnoreCase(a, b) <==> ToLower(a) == ToLower(b)
  {
    if ToLower(a) == ToLower(b) {
      forall i | 0 <= i < |a| ensures UpperChar(a[i]) == UpperChar(b[i]) {
        assert ToLower(a)[i] == ToLower(b)[i];
        FoldsAgree(a[i], b[i]);
      }
    }
    if EqualsIgnoreCase(a, b) {
      forall i | 0 <= i < |a| ensures ToLower(a)[i] == ToLower(b)[i] {
        FoldsAgree(a[i], b[i]);
      }
    }
  }

  lemma EqualsIgnoreCaseTransitive(a: string, b: string, c: string)
    requires EqualsIgnoreCase(a, b) && EqualsIgnoreCase(b, c)
    ensures EqualsIgnoreCase(a, c)
  {
  }

  // ---------------------------------------------------------------------------------------------
  // Decimal rendering and parsing of integers (`String(n)`, `int.ToString()`, `Number(s)`)
  // ---------------------------------------------------------------------------------------------

  predicate IsDigit(c: char) {
    '0' <= c <= '9'
  }

  predicate IsDigits(s: string) {
    |s| > 0 && forall i :: 0 <= i < |s| ==> IsDigit(s[i])
  }

  function DigitChar(d: nat): (c: char)
    requires d < 10
    ensures IsDigit(c) && DigitValue(c) == d
  {
    (48 + d) as char
  }

  /** The decimal digits of `n`, most significant first, without leading zeros. */
  function NatToString(n: nat): (r: string)
    ensures IsDigits(r)
    ensures r[0] == '0' ==> n == 0
    decreases n
  {
    if n < 10 then [DigitChar(n)] else NatToString(n / 10) + [DigitChar(n % 10)]
  }

  function DigitValue(c: char): nat
    requires IsDigit(c)
  {
    c as int - '0' as int
  }

  /** The value of a string of decimal digits. */
  function DigitsValue(s: string): nat
    requires forall i :: 0 <= i < |s| ==> IsDigit(s[i])
    decreases |s|
  {
    if |s| == 0 then 0 else DigitsValue(s[..|s| - 1]) * 10 + DigitValue(s[|s| - 1])
  }

  lemma {:induction false} NatToStringRoundTrip(n: nat)
    ensures DigitsValue(NatToString(n)) == n
    decreases n
  {
    if n >= 10 {
      NatToStringRoundTrip(n / 10);
      var r := NatToString(n);
      assert r[..|r| - 1] == NatToString(n / 10);
    }
  }

  /** Decimal text of an integer, with a leading `-` for negatives. */
  function IntToString(n: int): string {
    if n < 0 then "-" + NatToString(-n) else NatToString(n)
  }

  /** Reads an optional `-` followed by one or more decimal digits; anything else is `None`. */
  function ParseInt(s: string): Option<int> {
    if |s| > 0 && s[0] == '-' then
      (if IsDigits(s[1..]) then Some(0 - DigitsValue(s[1..])) else None)
    else if IsDigits(s) then Some(DigitsValue(s))
    else None
  }

  /** Rendering then parsing gives the integer back. */
  lemma IntToStringRoundTrip(n: int)
    ensures ParseInt(IntToString(n)) == Some(n)
  {
    if n < 0 {
      NatToStringRoundTrip(-n);
      assert IntToString(n)[1..] == NatToString(-n);
    } else {
      NatToStringRoundTrip(n);
    }
  }

  // ---------------------------------------------------------------------------------------------
  // Hexadecimal rendering (`int.ToString("X8")`)
  // ---------------------------------------------------------------------------------------------

  const TwoTo32: int := 0x1_0000_0000

  predicate IsHexDigit(c: char) {
    ('0' <= c <= '9') || ('A' <= c <= 'F')
  }

  function HexDigit(d: nat): (c: char)
    requires d < 16
    ensures IsHexDigit(c)
  {
    if d < 10 then (48 + d) as char else (55 + d) as char
  }

  function HexDigitValue(c: char): nat
    requires IsHexDigit(c)
  {
    if c <= '9' then c as int - 48 else c as int - 55
  }

  function Pow16(w: nat): nat {
    if w == 0 then 1 else 16 * Pow16(w - 1)
  }

  /** The `width` hexadecimal digits of `v`, upper case, zero padded. */
  function HexFixed(v: nat, width: nat): (r: string)
    ensures |r| == width
    ensures forall i :: 0 <= i < |r| ==> IsHexDigit(r[i])
  {
    if width == 0 then "" else HexFixed(v / 16, width - 1) + [HexDigit(v % 16)]
  }

  function HexValue(s: string): nat
    requires forall i :: 0 <= i < |s| ==> IsHexDigit(s[i])
  {
    if |s| == 0 then 0 else HexValue(s[..|s| - 1]) * 16 + HexDigitValue(s[|s| - 1])
  }

  lemma {:induction false} HexFixedValue(v: nat, width: nat)
    requires v < Pow16(width)
    ensures HexValue(HexFixed(v, width)) == v
  {
    if width > 0 {
      HexFixedValue(v / 16, width - 1);
      var r := HexFixed(v, width);
      assert r[..|r| - 1] == HexFixed(v / 16, width - 1);
    }
  }

  lemma Pow16Eight()
    ensures Pow16(8) == TwoTo32
  {
    assert Pow16(1) == 16;
    assert Pow16(2) == 256;
    assert Pow16(4) == 65536 by {
      assert Pow16(3) == 4096;
    }
    assert Pow16(6) == 16777216 by {
      assert Pow16(5) == 1048576;
    }
    assert Pow16(7) == 268435456;
  }

  /** `h.ToString("X8")` for a 32-bit `h`: its two's-complement bit pattern as 8 hex digits. */
  function Hex8(h: int): (r: string)
    ensures |r| == 8
    ensures forall i :: 0 <= i < |r| ==> IsHexDigit(r[i])
  {
    HexFixed(h % TwoTo32, 8)
  }

  /** Reading the eight digits back recovers the 32-bit pattern of the hash. */
  lemma Hex8RoundTrip(h: int)
    ensures HexValue(Hex8(h)) == h % TwoTo32
  {
    Pow16Eight();
    HexFixedValue(h % TwoTo32, 8);
  }
}
