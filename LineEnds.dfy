/** Saving a written message with Unix line ends (`MaildirWriter.cs`
    lines 159-178): the saved text is read back line by line with
    `StreamReader.ReadLine`, and each line is written followed by LF. */
module LineEnds {
  import opened Text

  /** Where the line starting at `i` ends: the first CR or LF, or the end. */
  function LineEnd(t: string, i: nat): (e: nat)
    requires i <= |t|
    decreases |t| - i
    ensures i <= e <= |t|
  {
    if i == |t| || t[i] == '\r' || t[i] == '\n' then i else LineEnd(t, i + 1)
  }

  /** The line ends at the first CR or LF after `i`, or at the end of the text. */
  lemma {:induction false} LineEndIsFirstBreak(t: string, i: nat)
    requires i <= |t|
    decreases |t| - i
    ensures var e := LineEnd(t, i);
      (e < |t| ==> t[e] == '\r' || t[e] == '\n')
      && forall k :: i <= k < e ==> t[k] != '\r' && t[k] != '\n'
  {
    if i < |t| && t[i] != '\r' && t[i] != '\n' {
      LineEndIsFirstBreak(t, i + 1);
    }
  }

  /** Where the next line starts after a terminator at `e`: CRLF counts as
      one terminator. */
  function NextLine(t: string, e: nat): (n: nat)
    requires e < |t|
    ensures e < n <= |t|
  {
    if t[e] == '\r' && e + 1 < |t| && t[e + 1] == '\n' then e + 2 else e + 1
  }

  /** Each line `ReadLine` returns from position `i`, followed by LF. */
  function LfLinesFrom(t: string, i: nat): string
    requires i <= |t|
    decreases |t| - i
  {
    if i == |t| then []
    else
      var e := LineEnd(t, i);
      t[i..e] + "\n" + (if e == |t| then [] else LfLinesFrom(t, NextLine(t, e)))
  }

  function LfLines(t: string): string {
    LfLinesFrom(t, 0)
  }

  /** A CRLF ends a single line: the copy writes one LF for the pair and
      goes on after it. */
  lemma CrlfIsOneBreak(a: string, b: string)
    requires '\r' !in a && '\n' !in a
    ensures LfLines(a + CRLF + b) == a + "\n" + LfLinesFrom(a + CRLF + b, |a| + 2)
  {
    var t := a + CRLF + b;
    LineEndAfterPlain(a, t);
    assert t[|a| + 1] == '\n';
    assert NextLine(t, |a|) == |a| + 2;
    LfLinesFromStep(t, 0, |a|);
  }

  /** A CR not followed by LF also ends a line, and is written as one LF. */
  lemma LoneCrIsOneBreak(a: string, b: string)
    requires '\r' !in a && '\n' !in a
    requires b == [] || b[0] != '\n'
    ensures LfLines(a + "\r" + b) == a + "\n" + LfLinesFrom(a + "\r" + b, |a| + 1)
  {
    var t := a + "\r" + b;
    LineEndAfterPlain(a, t);
    assert |a| + 1 < |t| ==> t[|a| + 1] == b[0];
    assert NextLine(t, |a|) == |a| + 1;
    LfLinesFromStep(t, 0, |a|);
  }

  /** The first line of text that starts with a break-free `a` followed by
      a CR is `a`. */
  lemma LineEndAfterPlain(a: string, t: string)
    requires '\r' !in a && '\n' !in a
    requires |a| < |t| && t[..|a|] == a && t[|a|] == '\r'
    ensures LineEnd(t, 0) == |a| && t[0..|a|] == a
  {
    LineEndIsFirstBreak(t, 0);
  }

  /** `Replace("\r\n", "\n")` from a character other than CR keeps it. */
  lemma ReplaceCrlfKeeps(t: string, j: nat)
    requires j < |t| && t[j] != '\r'
    ensures ReplaceAll(t[j..], CRLF, "\n") == [t[j]] + ReplaceAll(t[j + 1..], CRLF, "\n")
  {
    var s := t[j..];
    assert s[0] == t[j] && s[1..] == t[j + 1..];
    if |s| >= 2 {
      assert s[..2] != CRLF;
    }
  }

  /** `Replace("\r\n", "\n")` turns a CRLF into one LF. */
  lemma ReplaceCrlfJoins(t: string, j: nat)
    requires j + 1 < |t| && t[j] == '\r' && t[j + 1] == '\n'
    ensures ReplaceAll(t[j..], CRLF, "\n") == "\n" + ReplaceAll(t[j + 2..], CRLF, "\n")
  {
    var s := t[j..];
    assert s[..2] == CRLF && s[2..] == t[j + 2..];
  }

  /** `Replace("\r\n", "\n")` keeps a CR-free span as it is. */
  lemma {:induction false} ReplaceCrlfSpan(t: string, i: nat, e: nat)
    requires i <= e <= |t| && forall k :: i <= k < e ==> t[k] != '\r'
    ensures ReplaceAll(t[i..], CRLF, "\n") == t[i..e] + ReplaceAll(t[e..], CRLF, "\n")
    decreases e - i
  {
    if i < e {
      ReplaceCrlfKeeps(t, i);
      ReplaceCrlfSpan(t, i + 1, e);
      ConcatAssoc([t[i]], t[i + 1..e], ReplaceAll(t[e..], CRLF, "\n"));
      assert t[i..e] == [t[i]] + t[i + 1..e];
    }
  }

  /** In text whose every CR begins a CRLF and that ends with LF, each line
      is CR-free and ends with LF or with CRLF. */
  lemma LineBreakOf(t: string, i: nat)
    requires i < |t| && CrOnlyInCrlf(t) && t[|t| - 1] == '\n'
    ensures var e := LineEnd(t, i);
      e < |t| && (forall k :: i <= k < e ==> t[k] != '\r')
      && ((t[e] == '\n' && NextLine(t, e) == e + 1)
          || (t[e] == '\r' && e + 1 < |t| && t[e + 1] == '\n' && NextLine(t, e) == e + 2))
  {
    LineEndIsFirstBreak(t, i);
  }

  /** One line of text whose every CR begins a CRLF and that ends with LF:
      the copy and `Replace("\r\n", "\n")` both give the CR-free line, one
      LF, and then their results from the next line. */
  lemma LineBothWays(t: string, i: nat)
    requires i < |t| && CrOnlyInCrlf(t) && t[|t| - 1] == '\n'
    ensures var e := LineEnd(t, i); e < |t| && i < NextLine(t, e) <= |t|
    ensures var e := LineEnd(t, i); var n := NextLine(t, e);
      LfLinesFrom(t, i) == t[i..e] + "\n" + LfLinesFrom(t, n)
      && ReplaceAll(t[i..], CRLF, "\n") == t[i..e] + "\n" + ReplaceAll(t[n..], CRLF, "\n")
  {
    var e := LineEnd(t, i);
    LineBreakOf(t, i);
    var n := NextLine(t, e);
    LfLinesFromStep(t, i, e);
    ReplaceCrlfSpan(t, i, e);
    if t[e] == '\n' {
      ReplaceCrlfKeeps(t, e);
    } else {
      ReplaceCrlfJoins(t, e);
    }
    ConcatAssoc(t[i..e], "\n", ReplaceAll(t[n..], CRLF, "\n"));
  }

  /** On text whose every CR begins a CRLF and that ends with LF, copying
      from a line start is replacing each CRLF by LF. */
  lemma {:induction false} LfLinesFromReplacesCrlf(t: string, i: nat)
    requires i <= |t| && CrOnlyInCrlf(t) && (t == [] || t[|t| - 1] == '\n')
    ensures LfLinesFrom(t, i) == ReplaceAll(t[i..], CRLF, "\n")
    decreases |t| - i
  {
    if i < |t| {
      LineBothWays(t, i);
      LfLinesFromReplacesCrlf(t, NextLine(t, LineEnd(t, i)));
    }
  }

  /** The copy of lines 168-176 is `Replace("\r\n", "\n")` on text that
      ends with a line break and has no CR outside a CRLF. */
  lemma LfLinesReplacesCrlf(t: string)
    requires CrOnlyInCrlf(t) && (t == [] || t[|t| - 1] == '\n')
    ensures LfLines(t) == ReplaceAll(t, CRLF, "\n")
  {
    LfLinesFromReplacesCrlf(t, 0);
    assert t[0..] == t;
  }

  /** No carriage return survives, and the text is empty or ends with LF. */
  lemma {:induction false} LfLinesFromShape(t: string, i: nat)
    requires i <= |t|
    ensures var r := LfLinesFrom(t, i); '\r' !in r && (r == [] || r[|r| - 1] == '\n')
    ensures i < |t| ==> |LfLinesFrom(t, i)| > 0
    decreases |t| - i
  {
    if i < |t| {
      var e := LineEnd(t, i);
      LineEndIsFirstBreak(t, i);
      var rest := if e == |t| then [] else LfLinesFrom(t, NextLine(t, e));
      if e < |t| {
        LfLinesFromShape(t, NextLine(t, e));
      }
      var r := t[i..e] + "\n" + rest;
      assert '\r' !in t[i..e] by {
        forall k | 0 <= k < e - i ensures t[i..e][k] != '\r' {
          assert t[i..e][k] == t[i + k];
        }
      }
      assert r == LfLinesFrom(t, i);
      if rest == [] {
        assert r[|r| - 1] == '\n';
      } else {
        assert r[|r| - 1] == rest[|rest| - 1];
      }
    }
  }

  /** Text in Unix form: no CR, and empty or ending in LF. */
  predicate Unix(t: string) {
    (forall k :: 0 <= k < |t| ==> t[k] != '\r') && (t == [] || t[|t| - 1] == '\n')
  }

  /** In Unix text every line ends with an LF. */
  lemma UnixLineEnd(t: string, i: nat)
    requires i < |t| && Unix(t)
    ensures LineEnd(t, i) < |t| && t[LineEnd(t, i)] == '\n'
  {
    var e := LineEnd(t, i);
    LineEndIsFirstBreak(t, i);
  }

  /** A line ended by a lone LF is copied with that LF. */
  lemma LfLinesFromAtLf(t: string, i: nat, e: nat)
    requires i < |t| && e == LineEnd(t, i) && e < |t| && t[e] == '\n'
    ensures LfLinesFrom(t, i) == t[i..e + 1] + LfLinesFrom(t, e + 1)
  {
    assert NextLine(t, e) == e + 1;
    assert t[i..e + 1] == t[i..e] + "\n";
  }

  /** A line ended by LF followed by text copied unchanged is copied unchanged. */
  lemma LfLinesFromUnixLine(t: string, i: nat, e: nat)
    requires i < |t| && e == LineEnd(t, i) && e < |t| && t[e] == '\n'
    requires LfLinesFrom(t, e + 1) == t[e + 1..]
    ensures LfLinesFrom(t, i) == t[i..]
  {
    LfLinesFromAtLf(t, i, e);
    SliceSplit(t, i, e + 1);
  }

  /** Text already in Unix form (no CR, empty or ending in LF) is copied unchanged. */
  lemma {:induction false} LfLinesFromKeepsUnixText(t: string, i: nat)
    requires i <= |t| && Unix(t)
    ensures LfLinesFrom(t, i) == t[i..]
    decreases |t| - i
  {
    if i < |t| {
      UnixLineEnd(t, i);
      var e := LineEnd(t, i);
      LfLinesFromKeepsUnixText(t, e + 1);
      LfLinesFromUnixLine(t, i, e);
    }
  }

  lemma SliceSplit(s: string, i: nat, j: nat)
    requires i <= j <= |s|
    ensures s[i..] == s[i..j] + s[j..]
  {
  }

  /** The copy is in Unix form, and copying it again changes nothing. */
  lemma LfLinesIdempotent(t: string)
    ensures '\r' !in LfLines(t)
    ensures LfLines(LfLines(t)) == LfLines(t)
  {
    LfLinesFromShape(t, 0);
    var r := LfLines(t);
    LfLinesFromKeepsUnixText(r, 0);
    assert r[0..] == r;
  }

  /** One step of the copy: the line at `i`, its LF, and the copy of the rest. */
  lemma LfLinesFromStep(t: string, i: nat, e: nat)
    requires i < |t| && e == LineEnd(t, i)
    ensures e == |t| ==> LfLinesFrom(t, i) == t[i..e] + "\n"
    ensures e < |t| ==> LfLinesFrom(t, i) == t[i..e] + "\n" + LfLinesFrom(t, NextLine(t, e))
  {
  }

  /** One turn of the copy loop keeps `out` followed by the copy of the rest equal to the whole copy. */
  lemma CopyStep(text: string, pos: nat, e: nat, out: string)
    requires pos < |text| && e == LineEnd(text, pos)
    ensures var next := if e == |text| then e else NextLine(text, e);
      out + text[pos..e] + "\n" + LfLinesFrom(text, next) == out + LfLinesFrom(text, pos)
  {
    LfLinesFromStep(text, pos, e);
    var next := if e == |text| then e else NextLine(text, e);
    ConcatAssoc(out, text[pos..e] + "\n", LfLinesFrom(text, next));
  }

  /** The `while ((line = sr.ReadLine()) != null)` copy of lines 168-176. */
  method NormalizeLineEnds(text: string) returns (out: string)
    ensures out == LfLines(text)
  {
    out := [];
    var pos := 0;
    while pos < |text|
      invariant pos <= |text|
      invariant out + LfLinesFrom(text, pos) == LfLines(text)
      decreases |text| - pos
    {
      var e := LineEnd(text, pos);
      var line := text[pos..e];
      CopyStep(text, pos, e, out);
      out := out + line + "\n";
      pos := if e == |text| then e else NextLine(text, e);
    }
    assert out + [] == out;
  }
}
