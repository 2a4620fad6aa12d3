/** Text primitives shared by the translator: the .NET whitespace class used by
    its regular expressions, ordinal `String.Replace`, prefix and substring
    search, and the decimal and hexadecimal renderings used in file names,
    diagnostic headers and error texts. */
module Text {
  /** Concatenation regroups freely. */
  lemma ConcatAssoc<T>(a: seq<T>, b: seq<T>, c: seq<T>)
    ensures a + (b + c) == a + b + c
  {
  }


  datatype Option<+T> = None | Some(value: T)

  /** The characters matched by `\s` in .NET regular expressions:
      `[\f\n\r\t\v\x85\p{Z}]`. */
  predicate IsWhiteSpace(c: char) {
    c == ' ' || c == '\t' || c == '\n' || c == '\U{000B}' || c == '\U{000C}' || c == '\r'
    || c == '\U{0085}' || c == '\U{00A0}' || c == '\U{1680}'
    || ('\U{2000}' <= c <= '\U{200A}')
    || c == '\U{2028}' || c == '\U{2029}' || c == '\U{202F}' || c == '\U{205F}' || c == '\U{3000}'
  }

  predicate IsAsciiDigit(c: char) { '0' <= c <= '9' }

  predicate IsAsciiLower(c: char) { 'a' <= c <= 'z' }

  predicate IsAsciiUpper(c: char) { 'A' <= c <= 'Z' }

  /** Lower-cases ASCII letters and leaves every other character alone. */
  function LowerAscii(s: string): (r: string)
    ensures |r| == |s|
    ensures forall i :: 0 <= i < |s| ==>
      r[i] == (if IsAsciiUpper(s[i]) then (s[i] as int + 32) as char else s[i])
  {
    if s == [] then []
    else [if IsAsciiUpper(s[0]) then (s[0] as int + 32) as char else s[0]] + LowerAscii(s[1..])
  }

  predicate StartsWith(s: string, prefix: string) {
    |prefix| <= |s| && s[..|prefix|] == prefix
  }

  /** `s` holds `p` at position `i`. */
  predicate OccursAt(s: string, p: string, i: nat) {
    i + |p| <= |s| && s[i..i + |p|] == p
  }

  /** A one-character pattern occurs exactly where that character is. */
  lemma OccursAtChar(s: string, c: char, k: nat)
    requires k < |s|
    ensures OccursAt(s, [c], k) <==> s[k] == c
  {
    assert s[k..k + 1] == [s[k]];
  }

  /** `IndexOf` compared ordinally (as under the invariant culture for the
      ASCII patterns searched here): the first position at or after `from`
      holding `p`, or `None`. */
  function IndexOfFrom(s: string, p: string, from: nat): (r: Option<nat>)
    requires |p| > 0
    decreases |s| - from
    ensures r.None? <==> forall i :: from <= i ==> !OccursAt(s, p, i)
    ensures r.Some? ==>
      from <= r.value && OccursAt(s, p, r.value) && forall i :: from <= i < r.value ==> !OccursAt(s, p, i)
  {
    if from + |p| > |s| then None
    else if OccursAt(s, p, from) then Some(from)
    else IndexOfFrom(s, p, from + 1)
  }

  function IndexOf(s: string, p: string): (r: Option<nat>)
    requires |p| > 0
    ensures r.None? <==> forall i :: !OccursAt(s, p, i)
    ensures r.Some? ==> OccursAt(s, p, r.value) && forall i: nat :: i < r.value ==> !OccursAt(s, p, i)
  {
    IndexOfFrom(s, p, 0)
  }

  predicate Contains(s: string, p: string)
    requires |p| > 0
  {
    IndexOf(s, p).Some?
  }

  const CRLF := "\r\n"

  /** Every carriage return of `t` starts a CRLF pair. */
  predicate CrOnlyInCrlf(t: string) {
    forall k :: 0 <= k < |t| && t[k] == '\r' ==> k + 1 < |t| && t[k + 1] == '\n'
  }

  /** Ordinal `String.Replace(pat, rep)`: every non-overlapping occurrence of
      `pat`, found left to right, is replaced by `rep`. */
  function ReplaceAll(s: string, pat: string, rep: string): string
    requires |pat| > 0
  {
    if |s| < |pat| then s
    else if s[..|pat|] == pat then rep + ReplaceAll(s[|pat|..], pat, rep)
    else [s[0]] + ReplaceAll(s[1..], pat, rep)
  }

  /** Replacing a one-character pattern works character by character, so it
      distributes over concatenation. */
  lemma {:induction false} ReplaceCharAppend(x: string, y: string, c: char, rep: string)
    ensures ReplaceAll(x + y, [c], rep) == ReplaceAll(x, [c], rep) + ReplaceAll(y, [c], rep)
  {
    if x == [] {
      assert x + y == y;
    } else {
      assert (x + y)[..1] == x[..1];
      assert (x + y)[1..] == x[1..] + y;
      ReplaceCharAppend(x[1..], y, c, rep);
    }
  }

  /** Replacing a one-character pattern by text that does not contain it
      leaves no occurrence of that character. */
  lemma {:induction false} ReplaceCharRemovesIt(s: string, c: char, rep: string)
    requires c !in rep
    ensures c !in ReplaceAll(s, [c], rep)
  {
    if |s| >= 1 {
      ReplaceCharRemovesIt(s[1..], c, rep);
      if s[..1] != [c] {
        assert s[0] != c;
      }
    }
  }

  /** A character that is neither the one-character pattern nor in its
      replacement survives replacement unchanged in presence and absence. */
  lemma {:induction false} ReplaceCharKeepsOthers(s: string, c: char, rep: string, d: char)
    requires d != c && d !in rep
    ensures d in ReplaceAll(s, [c], rep) <==> d in s
  {
    if |s| >= 1 {
      ReplaceCharKeepsOthers(s[1..], c, rep, d);
      assert s == [s[0]] + s[1..];
    }
  }

  /** Replacing one character by one character is a per-position map. */
  lemma {:induction false} ReplaceCharByChar(s: string, c: char, d: char)
    ensures |ReplaceAll(s, [c], [d])| == |s|
    ensures forall i :: 0 <= i < |s| ==> ReplaceAll(s, [c], [d])[i] == (if s[i] == c then d else s[i])
  {
    if |s| >= 1 {
      ReplaceCharByChar(s[1..], c, d);
      var r := ReplaceAll(s, [c], [d]);
      assert s[..1] == [c] <==> s[0] == c;
      assert r == [if s[0] == c then d else s[0]] + ReplaceAll(s[1..], [c], [d]);
    }
  }

  // ---------------------------------------------------------------------
  // Decimal rendering (`long.ToString()`, `int.ToString()`)

  function DigitChar(d: nat): (c: char)
    requires d < 10
    ensures IsAsciiDigit(c)
  {
    ('0' as int + d) as char
  }

  function DigitValue(c: char): (d: nat)
    requires IsAsciiDigit(c)
    ensures d < 10
  {
    c as int - '0' as int
  }

  predicate AllDigits(s: string) {
    forall i :: 0 <= i < |s| ==> IsAsciiDigit(s[i])
  }

  /** The decimal digits of `n`, most significant first, without leading zeros. */
  function NatToString(n: nat): (r: string)
    ensures |r| > 0 && AllDigits(r)
    ensures r[0] == '0' ==> n == 0
  {
    if n < 10 then [DigitChar(n)] else NatToString(n / 10) + [DigitChar(n % 10)]
  }

  function ParseDecimal(s: string): nat
    requires AllDigits(s)
  {
    if s == [] then 0 else ParseDecimal(s[..|s| - 1]) * 10 + DigitValue(s[|s| - 1])
  }

  lemma {:induction false} ParseNatToString(n: nat)
    ensures ParseDecimal(NatToString(n)) == n
  {
    if n >= 10 {
      ParseNatToString(n / 10);
      var s := NatToString(n);
      assert s[..|s| - 1] == NatToString(n / 10);
    }
  }

  /** Different numbers never render alike, so a rendered id identifies its number. */
  lemma NatToStringInjective(a: nat, b: nat)
    requires NatToString(a) == NatToString(b)
    ensures a == b
  {
    ParseNatToString(a);
    ParseNatToString(b);
  }

  /** `Int32.ToString()` / `Int64.ToString()` under the invariant culture. */
  function IntToString(i: int): (r: string)
    ensures |r| > 0
    ensures i >= 0 ==> r == NatToString(i)
    ensures i < 0 ==> r == "-" + NatToString(-i)
  {
    if i < 0 then "-" + NatToString(-i) else NatToString(i)
  }

  // ---------------------------------------------------------------------
  // Hexadecimal rendering (`{0:x}` and `{0:X}` composite formats)

  predicate IsHexDigit(c: char, upper: bool) {
    IsAsciiDigit(c) || (if upper then 'A' <= c <= 'F' else 'a' <= c <= 'f')
  }

  function HexChar(d: nat, upper: bool): (c: char)
    requires d < 16
    ensures IsHexDigit(c, upper)
  {
    if d < 10 then DigitChar(d) else ((if upper then 'A' else 'a') as int + d - 10) as char
  }

  function HexValue(c: char, upper: bool): (d: nat)
    requires IsHexDigit(c, upper)
    ensures d < 16
  {
    if IsAsciiDigit(c) then DigitValue(c)
    else c as int - (if upper then 'A' else 'a') as int + 10
  }

  predicate AllHex(s: string, upper: bool) {
    forall i :: 0 <= i < |s| ==> IsHexDigit(s[i], upper)
  }

  /** The shortest hexadecimal rendering of `n`. */
  function NatToHex(n: nat, upper: bool): (r: string)
    ensures |r| > 0 && AllHex(r, upper)
  {
    if n < 16 then [HexChar(n, upper)] else NatToHex(n / 16, upper) + [HexChar(n % 16, upper)]
  }

  /** `NatToHex` left-padded with zeros to at least `width` digits. */
  function NatToHexWidth(n: nat, width: nat, upper: bool): (r: string)
    ensures |r| >= width && AllHex(r, upper)
  {
    var h := NatToHex(n, upper);
    if |h| >= width then h else seq(width - |h|, _ => '0') + h
  }

  function ParseHex(s: string, upper: bool): nat
    requires AllHex(s, upper)
  {
    if s == [] then 0 else ParseHex(s[..|s| - 1], upper) * 16 + HexValue(s[|s| - 1], upper)
  }

  lemma {:induction false} ParseNatToHex(n: nat, upper: bool)
    ensures ParseHex(NatToHex(n, upper), upper) == n
  {
    if n >= 16 {
      ParseNatToHex(n / 16, upper);
      var s := NatToHex(n, upper);
      assert s[..|s| - 1] == NatToHex(n / 16, upper);
    }
  }

  /** Leading zeros do not change the value of a hexadecimal rendering. */
  lemma {:induction false} ParseHexLeadingZeros(z: nat, s: string, upper: bool)
    requires AllHex(s, upper)
    ensures AllHex(seq(z, _ => '0') + s, upper)
    ensures ParseHex(seq(z, _ => '0') + s, upper) == ParseHex(s, upper)
    decreases |s|
  {
    var t := seq(z, _ => '0') + s;
    if s == [] {
      assert t == seq(z, _ => '0');
      ZerosParseToZero(z, upper);
    } else {
      ParseHexLeadingZeros(z, s[..|s| - 1], upper);
      assert t[..|t| - 1] == seq(z, _ => '0') + s[..|s| - 1];
    }
  }

  /** A padded rendering still reads back as the number it renders. */
  lemma ParseNatToHexWidth(n: nat, width: nat, upper: bool)
    ensures ParseHex(NatToHexWidth(n, width, upper), upper) == n
  {
    ParseNatToHex(n, upper);
    var h := NatToHex(n, upper);
    if |h| < width {
      ParseHexLeadingZeros(width - |h|, h, upper);
    }
  }

  function Pow16(k: nat): nat { if k == 0 then 1 else 16 * Pow16(k - 1) }

  lemma {:induction false} ZerosParseToZero(z: nat, upper: bool)
    ensures ParseHex(seq(z, _ => '0'), upper) == 0
  {
    if z > 0 {
      var t := seq(z, _ => '0');
      assert t[..|t| - 1] == seq(z - 1, _ => '0');
      ZerosParseToZero(z - 1, upper);
    }
  }
}
