/** `MapiUtils.BodyRtfToHtml`: recovers the HTML wrapped inside an RTF body
    that was produced from HTML (the `\fromhtml` / `\htmlrtf` encapsulation of
    Microsoft's [MS-OXRTFEX]). It is a heuristic of seven textual rewrites,
    each modelled here as the left-to-right scan the .NET regular expression
    or `String.Replace` performs; a lookbehind always inspects the text the
    rewrite started from. */
module Rtf {
  import opened Text

  const RTF_PREFIX := "{\\rtf1"
  const FROM_HTML := "\\fromhtml"
  const PAR := "\\par"
  const HTMLRTF := "\\htmlrtf"
  const HTMLRTF0 := "\\htmlrtf0"
  const PNTEXT := "\\pntext"

  /** `(?<!\\)` holds at `i`: the character before `i`, if any, is not a backslash. */
  predicate Unescaped(s: string, i: nat) {
    i == 0 || (i <= |s| && s[i - 1] != '\\')
  }

  // ---------------------------------------------------------------------
  // Step 1: newlines out, `\par` tags in as line breaks

  /** `Replace(Environment.NewLine, "")`. */
  function RemoveNewLines(s: string): string {
    ReplaceAll(s, CRLF, "")
  }

  /** `(?<!\\)\\par(?>\s)` matches at `i` (five characters). */
  predicate ParAt(s: string, i: nat) {
    Unescaped(s, i) && OccursAt(s, PAR, i) && i + 4 < |s| && IsWhiteSpace(s[i + 4])
  }

  function ParBreaksFrom(s: string, i: nat): string
    decreases |s| - i
  {
    if i >= |s| then []
    else if ParAt(s, i) then CRLF + ParBreaksFrom(s, i + 5)
    else [s[i]] + ParBreaksFrom(s, i + 1)
  }

  /** Each unescaped `\par` with the whitespace character after it becomes CRLF. */
  function ParBreaks(s: string): string {
    ParBreaksFrom(s, 0)
  }

  // ---------------------------------------------------------------------
  // Step 2: `\htmlrtf ... \htmlrtf0` blocks, removed until none is left

  predicate HtmlRtfCloseAt(s: string, j: nat) {
    Unescaped(s, j) && OccursAt(s, HTMLRTF0, j)
  }

  /** The first closing tag at or after `j`. */
  function FirstCloseFrom(s: string, j: nat): (r: Option<nat>)
    decreases |s| - j
    ensures r.Some? ==> j <= r.value && HtmlRtfCloseAt(s, r.value)
    ensures r.Some? ==> forall k :: j <= k < r.value ==> !HtmlRtfCloseAt(s, k)
    ensures r.None? ==> forall k :: j <= k ==> !HtmlRtfCloseAt(s, k)
  {
    if j + |HTMLRTF0| > |s| then None
    else if HtmlRtfCloseAt(s, j) then Some(j)
    else FirstCloseFrom(s, j + 1)
  }

  /** `(?<!\\)\\htmlrtf.*?(?<!\\)\\htmlrtf0` (single-line) matching at `i`:
      the end of the match, which runs to the nearest closing tag. */
  function BlockAt(s: string, i: nat): (r: Option<nat>)
    ensures r.Some? ==> i + |HTMLRTF| + |HTMLRTF0| <= r.value <= |s|
  {
    if Unescaped(s, i) && OccursAt(s, HTMLRTF, i) then
      match FirstCloseFrom(s, i + |HTMLRTF|)
      case Some(j) => Some(j + |HTMLRTF0|)
      case None => None
    else None
  }

  /** The first position at or after `i` where a block matches. */
  function FindBlockFrom(s: string, i: nat): (r: Option<nat>)
    decreases |s| - i
    ensures r.Some? ==> i <= r.value && BlockAt(s, r.value).Some?
    ensures r.None? ==> forall k :: i <= k ==> BlockAt(s, k).None?
  {
    if i >= |s| then
      assert forall k :: i <= k ==> BlockAt(s, k).None? by {
        forall k | i <= k ensures BlockAt(s, k).None? {
          assert !OccursAt(s, HTMLRTF, k);
        }
      }
      None
    else if BlockAt(s, i).Some? then Some(i)
    else FindBlockFrom(s, i + 1)
  }

  /** `Regex.IsMatch` for the block pattern. */
  predicate HasBlock(s: string) {
    FindBlockFrom(s, 0).Some?
  }

  /** One `Regex.Replace` pass from `i`: every block found scanning left to
      right is deleted. The pass never lengthens the text, and shortens it
      whenever a block matches at or after `i`. */
  function StripBlocksFrom(s: string, i: nat): (r: string)
    requires i <= |s|
    decreases |s| - i
    ensures |r| <= |s| - i
    ensures FindBlockFrom(s, i).Some? ==> |r| < |s| - i
  {
    if i == |s| then []
    else match BlockAt(s, i)
      case Some(e) => StripBlocksFrom(s, e)
      case None => [s[i]] + StripBlocksFrom(s, i + 1)
  }

  function StripBlocks(s: string): (r: string)
    ensures |r| <= |s|
    ensures HasBlock(s) ==> |r| < |s|
  {
    StripBlocksFrom(s, 0)
  }

  /** `while (IsMatch) Replace`: passes repeat until no block matches. */
  function StripBlocksToFixpoint(s: string): (r: string)
    decreases |s|
    ensures !HasBlock(r)
    ensures |r| <= |s|
  {
    if HasBlock(s) then StripBlocksToFixpoint(StripBlocks(s)) else s
  }

  /** The loop of lines 96-98. */
  method RemoveHtmlRtfBlocks(s: string) returns (r: string)
    ensures r == StripBlocksToFixpoint(s)
    ensures forall i :: BlockAt(r, i).None?
  {
    r := s;
    while HasBlock(r)
      invariant StripBlocksToFixpoint(r) == StripBlocksToFixpoint(s)
      decreases |r|
    {
      r := StripBlocks(r);
    }
    assert FindBlockFrom(r, 0).None?;
  }

  // ---------------------------------------------------------------------
  // Step 3: `\pntext` up to the next `}` on the same line

  /** Where a lazy `.*?(?=\})` started at `j` stops: the first `}` at or after
      `j`, provided no line feed (which `.` does not match) comes first. */
  function BraceOnLine(s: string, j: nat): (r: Option<nat>)
    decreases |s| - j
    ensures r.Some? ==> j <= r.value < |s| && s[r.value] == '}'
    ensures r.Some? ==> forall k :: j <= k < r.value ==> s[k] != '\n' && s[k] != '}'
  {
    if j >= |s| then None
    else if s[j] == '}' then Some(j)
    else if s[j] == '\n' then None
    else BraceOnLine(s, j + 1)
  }

  /** `(?<!\\)\\pntext.*?(?=\})` matching at `i`: the end of the match. */
  function PntextAt(s: string, i: nat): (r: Option<nat>)
    ensures r.Some? ==> i + |PNTEXT| <= r.value < |s| && s[r.value] == '}'
  {
    if Unescaped(s, i) && OccursAt(s, PNTEXT, i) then BraceOnLine(s, i + |PNTEXT|) else None
  }

  function DropPntextFrom(s: string, i: nat): (r: string)
    requires i <= |s|
    decreases |s| - i
    ensures |r| <= |s| - i
  {
    if i == |s| then []
    else match PntextAt(s, i)
      case Some(e) => DropPntextFrom(s, e)
      case None => [s[i]] + DropPntextFrom(s, i + 1)
  }

  /** Where no `\\pntext` match starts at or after `i`, the scan copies the rest
      of the text unchanged. */
  lemma {:induction false} DropPntextFromCopies(s: string, i: nat)
    requires i <= |s|
    requires forall k :: i <= k < |s| ==> PntextAt(s, k).None?
    decreases |s| - i
    ensures DropPntextFrom(s, i) == s[i..]
  {
    if i < |s| {
      assert PntextAt(s, i).None?;
      DropPntextFromCopies(s, i + 1);
      assert s[i..] == [s[i]] + s[i + 1..];
    }
  }

  /** Where a `\\pntext` match starts at some `k` at or after `i`, the scan
      removes text. */
  lemma {:induction false} DropPntextFromShortens(s: string, i: nat, k: nat)
    requires i <= k < |s| && PntextAt(s, k).Some?
    decreases |s| - i
    ensures |DropPntextFrom(s, i)| < |s| - i
  {
    if PntextAt(s, i).None? {
      DropPntextFromShortens(s, i + 1, k);
    }
  }

  function DropPntext(s: string): string {
    DropPntextFrom(s, 0)
  }

  // ---------------------------------------------------------------------
  // Step 4: unescaped braces

  predicate IsBrace(c: char) { c == '{' || c == '}' }

  function DropBracesFrom(s: string, i: nat): string
    requires i <= |s|
    decreases |s| - i
  {
    if i == |s| then []
    else if IsBrace(s[i]) && Unescaped(s, i) then DropBracesFrom(s, i + 1)
    else [s[i]] + DropBracesFrom(s, i + 1)
  }

  /** `Regex.Replace(s, @"(?<!\\)[\{\}]", "")`. */
  function DropBraces(s: string): string {
    DropBracesFrom(s, 0)
  }

  /** Every brace of `t` is preceded by a backslash. */
  predicate BracesEscaped(t: string) {
    forall k {:trigger IsBrace(t[k])} :: 0 <= k < |t| && IsBrace(t[k]) ==> k > 0 && t[k - 1] == '\\'
  }

  /** Every brace in the output of the brace step from `i` follows a
      backslash: one of the output's own, or, for a leading brace, the
      backslash just before `i` in the input. */
  predicate BracesEscapedFrom(s: string, i: nat, r: string)
    requires i <= |s|
  {
    forall k {:trigger IsBrace(r[k])} :: 0 <= k < |r| && IsBrace(r[k]) ==>
      (k > 0 && r[k - 1] == '\\') || (k == 0 && i > 0 && s[i - 1] == '\\')
  }

  lemma {:induction false} DropBracesFromEscapes(s: string, i: nat)
    requires i <= |s|
    ensures BracesEscapedFrom(s, i, DropBracesFrom(s, i))
    decreases |s| - i
  {
    if i < |s| {
      DropBracesFromEscapes(s, i + 1);
      var rest := DropBracesFrom(s, i + 1);
      assert BracesEscapedFrom(s, i + 1, rest);
      var r := DropBracesFrom(s, i);
      if IsBrace(s[i]) && Unescaped(s, i) {
        assert r == rest;
        forall k | 0 <= k < |r| && IsBrace(r[k])
          ensures (k > 0 && r[k - 1] == '\\') || (k == 0 && i > 0 && s[i - 1] == '\\')
        {
          assert IsBrace(rest[k]);
        }
      } else {
        assert r == [s[i]] + rest;
        forall k | 0 <= k < |r| && IsBrace(r[k])
          ensures (k > 0 && r[k - 1] == '\\') || (k == 0 && i > 0 && s[i - 1] == '\\')
        {
          if k > 0 {
            assert r[k] == rest[k - 1];
            assert IsBrace(rest[k - 1]);
            if k == 1 {
              assert r[0] == s[i];
            } else {
              assert r[k - 1] == rest[k - 2];
            }
          }
        }
      }
    }
  }

  /** After the brace step, every remaining brace is an escaped one. */
  lemma DropBracesLeavesEscaped(s: string)
    ensures BracesEscaped(DropBraces(s))
  {
    DropBracesFromEscapes(s, 0);
    var r := DropBraces(s);
    forall k | 0 <= k < |r| && IsBrace(r[k]) ensures k > 0 && r[k - 1] == '\\' {
    }
  }

  // ---------------------------------------------------------------------
  // Step 5: control words

  /** `[a-z\-0-9]`, case-sensitive. */
  predicate IsWordChar(c: char) {
    IsAsciiLower(c) || IsAsciiDigit(c) || c == '-'
  }

  /** The end of the longest run of word characters starting at `j`. */
  function WordRunEnd(s: string, j: nat): (e: nat)
    requires j <= |s|
    decreases |s| - j
    ensures j <= e <= |s|
    ensures forall k :: j <= k < e ==> IsWordChar(s[k])
    ensures e < |s| ==> !IsWordChar(s[e])
  {
    if j < |s| && IsWordChar(s[j]) then WordRunEnd(s, j + 1) else j
  }

  /** `(?<!\\)\\(?:\*|'?[a-z\-0-9]+)` matching at `i`: the end of the match. */
  function ControlWordAt(s: string, i: nat): (r: Option<nat>)
    ensures r.Some? ==> i + 2 <= r.value <= |s| && s[i] == '\\'
  {
    if !(Unescaped(s, i) && i + 1 < |s| && s[i] == '\\') then None
    else if s[i + 1] == '*' then Some(i + 2)
    else if s[i + 1] == '\'' && i + 2 < |s| && IsWordChar(s[i + 2]) then Some(WordRunEnd(s, i + 2))
    else if IsWordChar(s[i + 1]) then Some(WordRunEnd(s, i + 1))
    else None
  }

  function DropControlWordsFrom(s: string, i: nat): (r: string)
    requires i <= |s|
    decreases |s| - i
    ensures |r| <= |s| - i
  {
    if i == |s| then []
    else match ControlWordAt(s, i)
      case Some(e) => DropControlWordsFrom(s, e)
      case None => [s[i]] + DropControlWordsFrom(s, i + 1)
  }

  /** Where no control word starts at or after `i`, the scan copies the rest
      of the text unchanged. */
  lemma {:induction false} DropControlWordsFromCopies(s: string, i: nat)
    requires i <= |s|
    requires forall k :: i <= k < |s| ==> ControlWordAt(s, k).None?
    decreases |s| - i
    ensures DropControlWordsFrom(s, i) == s[i..]
  {
    if i < |s| {
      assert ControlWordAt(s, i).None?;
      DropControlWordsFromCopies(s, i + 1);
      assert s[i..] == [s[i]] + s[i + 1..];
    }
  }

  /** Where a control word starts at some `k` at or after `i`, the scan
      removes text. */
  lemma {:induction false} DropControlWordsFromShortens(s: string, i: nat, k: nat)
    requires i <= k < |s| && ControlWordAt(s, k).Some?
    decreases |s| - i
    ensures |DropControlWordsFrom(s, i)| < |s| - i
  {
    if ControlWordAt(s, i).None? {
      DropControlWordsFromShortens(s, i + 1, k);
    }
  }

  function DropControlWords(s: string): string {
    DropControlWordsFrom(s, 0)
  }

  // ---------------------------------------------------------------------
  // Step 6: escaped braces back to braces; step 7: cut at the first `<`

  function UnescapeBraces(s: string): string {
    ReplaceAll(ReplaceAll(s, "\\{", "{"), "\\}", "}")
  }

  /** The text from its first `<` on, or `None` when it has no `<`. */
  function FromFirstAngle(t: string): (r: Option<string>)
    ensures r.None? <==> '<' !in t
    ensures r.Some? ==> |r.value| > 0 && r.value[0] == '<'
    ensures r.Some? ==>
      |r.value| <= |t| && r.value == t[|t| - |r.value|..] && '<' !in t[..|t| - |r.value|]
  {
    match IndexOf(t, "<")
    case None =>
      assert '<' !in t by {
        forall k | 0 <= k < |t| ensures t[k] != '<' {
          OccursAtChar(t, '<', k);
        }
      }
      None
    case Some(i) =>
      assert '<' !in t[..i] by {
        forall k | 0 <= k < i ensures t[..i][k] != '<' {
          OccursAtChar(t, '<', k);
        }
      }
      OccursAtChar(t, '<', i);
      Some(t[i..])
  }

  /** Steps 1 to 6 applied, in order, to the decoded RTF text. */
  function StripRtf(s: string): string {
    UnescapeBraces(DropControlWords(DropBraces(DropPntext(
      StripBlocksToFixpoint(ParBreaks(RemoveNewLines(s)))))))
  }

  /** `BodyRtfToHtml` as a function: `None` stands for its null. */
  function RtfToHtml(rtf: string): (r: Option<string>)
    ensures !StartsWith(rtf, RTF_PREFIX) ==> r.None?
    ensures !Contains(rtf, FROM_HTML) ==> r.None?
    ensures r.Some? ==> |r.value| > 0 && r.value[0] == '<'
  {
    if StartsWith(rtf, RTF_PREFIX) && Contains(rtf, FROM_HTML) then FromFirstAngle(StripRtf(rtf))
    else None
  }

  /** `MapiUtils.BodyRtfToHtml` (lines 70-135), one reassignment per rewrite. */
  method BodyRtfToHtml(rtf: string) returns (html: Option<string>)
    ensures html == RtfToHtml(rtf)
  {
    html := None;
    var rtfString := rtf;
    if StartsWith(rtfString, RTF_PREFIX) {
      if IndexOf(rtfString, FROM_HTML).Some? {
        rtfString := RemoveNewLines(rtfString);
        rtfString := ParBreaks(rtfString);
        rtfString := RemoveHtmlRtfBlocks(rtfString);
        rtfString := DropPntext(rtfString);
        rtfString := DropBraces(rtfString);
        rtfString := DropControlWords(rtfString);
        rtfString := ReplaceAll(rtfString, "\\{", "{");
        rtfString := ReplaceAll(rtfString, "\\}", "}");
        var htmlIdx := IndexOf(rtfString, "<");
        if htmlIdx.None? {
          return None;
        }
        html := Some(rtfString[htmlIdx.value..]);
      }
    }
  }

  // ---------------------------------------------------------------------
  // Properties of the pipeline

  /** A successful result is exactly the stripped text from its first `<`
      on, and there is a result exactly when the input is HTML-derived RTF
      whose stripped text has a `<`. */
  lemma RtfToHtmlIsSuffixFromFirstAngle(rtf: string)
    ensures var t := StripRtf(rtf);
      RtfToHtml(rtf).Some? <==>
        StartsWith(rtf, RTF_PREFIX) && Contains(rtf, FROM_HTML) && '<' in t
    ensures var t := StripRtf(rtf); var r := RtfToHtml(rtf);
      r.Some? ==> exists i :: 0 <= i < |t| && t[i] == '<' && '<' !in t[..i] && r.value == t[i..]
  {
    var t := StripRtf(rtf);
    var r := RtfToHtml(rtf);
    if r.Some? {
      var i := |t| - |r.value|;
      assert t[i] == r.value[0];
    }
  }

  /** Running the extractor on its own output gives null: a recovered HTML
      text starts with `<`, never with the RTF signature. */
  lemma OutputIsNotRtf(rtf: string)
    requires RtfToHtml(rtf).Some?
    ensures RtfToHtml(RtfToHtml(rtf).value).None?
  {
    var h := RtfToHtml(rtf).value;
    assert h[0] != RTF_PREFIX[0];
  }

  function CountChar(t: string, c: char): nat {
    if t == [] then 0 else (if t[0] == c then 1 else 0) + CountChar(t[1..], c)
  }

  lemma {:induction false} CountCharAppend(a: string, b: string, c: char)
    ensures CountChar(a + b, c) == CountChar(a, c) + CountChar(b, c)
  {
    if a == [] {
      assert a + b == b;
    } else {
      assert (a + b)[0] == a[0];
      assert (a + b)[1..] == a[1..] + b;
      CountCharAppend(a[1..], b, c);
    }
  }

  /** The number of positions at or after `i` where an unescaped `\par`
      followed by whitespace stands. */
  function CountParFrom(s: string, i: nat): nat
    decreases |s| - i
  {
    if i >= |s| then 0 else (if ParAt(s, i) then 1 else 0) + CountParFrom(s, i + 1)
  }

  /** No `\par` match starts at a character other than a backslash. */
  lemma NoParAtNonBackslash(s: string, j: nat)
    requires j < |s| && s[j] != '\\'
    ensures !ParAt(s, j)
  {
  }

  /** Two `\par` matches never overlap: the four characters after a match's
      backslash are not backslashes. */
  lemma ParMatchesDisjoint(s: string, i: nat)
    requires ParAt(s, i)
    ensures CountParFrom(s, i) == 1 + CountParFrom(s, i + 5)
  {
    assert s[i..i + 4] == PAR;
    assert s[i + 1] == PAR[1] && s[i + 2] == PAR[2] && s[i + 3] == PAR[3];
    NoParAtNonBackslash(s, i + 1);
    NoParAtNonBackslash(s, i + 2);
    NoParAtNonBackslash(s, i + 3);
    NoParAtNonBackslash(s, i + 4);
    assert CountParFrom(s, i + 4) == CountParFrom(s, i + 5);
    assert CountParFrom(s, i + 3) == CountParFrom(s, i + 5);
    assert CountParFrom(s, i + 2) == CountParFrom(s, i + 5);
    assert CountParFrom(s, i + 1) == CountParFrom(s, i + 5);
  }

  lemma {:induction false} ParBreaksFromCr(s: string, i: nat)
    requires '\r' !in s
    ensures CrOnlyInCrlf(ParBreaksFrom(s, i))
    ensures CountChar(ParBreaksFrom(s, i), '\r') == CountParFrom(s, i)
    decreases |s| - i
  {
    if i < |s| {
      if ParAt(s, i) {
        ParBreaksFromCr(s, i + 5);
        ParMatchesDisjoint(s, i);
        var rest := ParBreaksFrom(s, i + 5);
        CountCharAppend(CRLF, rest, '\r');
        assert CountChar(CRLF, '\r') == 1;
        var t := CRLF + rest;
        forall k | 0 <= k < |t| && t[k] == '\r' ensures k + 1 < |t| && t[k + 1] == '\n' {
          if k >= 2 { assert t[k] == rest[k - 2]; assert t[k + 1] == rest[k - 1]; }
        }
      } else {
        ParBreaksFromCr(s, i + 1);
        var rest := ParBreaksFrom(s, i + 1);
        CountCharAppend([s[i]], rest, '\r');
        var t := [s[i]] + rest;
        forall k | 0 <= k < |t| && t[k] == '\r' ensures k + 1 < |t| && t[k + 1] == '\n' {
          assert k > 0 by { assert s[i] != '\r'; }
          assert t[k] == rest[k - 1];
        }
      }
    }
  }

  /** Text whose carriage returns all begin CRLF pairs has none left once
      the pairs are removed. */
  lemma {:induction false} RemoveNewLinesDropsCr(s: string)
    requires CrOnlyInCrlf(s)
    ensures '\r' !in RemoveNewLines(s)
    decreases |s|
  {
    if |s| >= 2 {
      if s[..2] == CRLF {
        RemoveNewLinesDropsCr(s[2..]);
      } else {
        assert s[0] != '\r';
        RemoveNewLinesDropsCr(s[1..]);
        assert RemoveNewLines(s) == [s[0]] + RemoveNewLines(s[1..]);
      }
    } else if |s| == 1 {
      assert s[0] != '\r';
    }
  }

  /** For a body whose carriage returns all belong to CRLF pairs, the line
      breaks left after step 1 are exactly the ones the `\par` tags produced:
      each carriage return begins a CRLF, and there is one per tag. */
  lemma StepOneLineBreaks(s: string)
    requires CrOnlyInCrlf(s)
    ensures CrOnlyInCrlf(ParBreaks(RemoveNewLines(s)))
    ensures CountChar(ParBreaks(RemoveNewLines(s)), '\r') == CountParFrom(RemoveNewLines(s), 0)
  {
    RemoveNewLinesDropsCr(s);
    ParBreaksFromCr(RemoveNewLines(s), 0);
  }

  /** Removing CRLF pairs with `String.Replace` does not remove every CRLF:
      a pair that straddles a removed one survives. */
  lemma RemoveNewLinesCanLeaveCrlf()
    ensures RemoveNewLines("\r\r\n\n") == CRLF
  {
    var s := "\r\r\n\n";
    assert s[..2] == "\r\r";
    assert s[1..][..2] == CRLF;
    assert s[1..][2..] == "\n";
    assert ReplaceAll("\n", CRLF, "") == "\n";
    assert ReplaceAll(s[1..], CRLF, "") == "" + ReplaceAll("\n", CRLF, "");
    assert ReplaceAll(s, CRLF, "") == ['\r'] + ReplaceAll(s[1..], CRLF, "");
  }
}
