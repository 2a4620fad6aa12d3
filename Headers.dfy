/** `MaildirWriter.DumpMapiProperties`: the original transport headers are
    re-parsed and copied, minus the ones the mail library writes itself, and
    then every MAPI property of the message is dumped as an `X-` header.

    The header pattern (IgnoreCase, Singleline, IgnorePatternWhitespace) is
    `(?<header>[a-z0-9\-]+)\s*:\s*(?<value>.*?)(?=\r\n\S|\n\S|\z)`; it is
    modelled as the left-to-right scan `Regex.Matches` performs. */
module Headers {
  import opened Text
  import opened MapiProps
  import opened Mail

  // ---------------------------------------------------------------------
  // The transport-header pattern

  /** `[a-z0-9\-]` under IgnoreCase. */
  predicate IsNameChar(c: char) {
    IsAsciiLower(c) || IsAsciiUpper(c) || IsAsciiDigit(c) || c == '-'
  }

  /** The end of the longest run of name characters from `j`. */
  function NameRunEnd(s: string, j: nat): (e: nat)
    requires j <= |s|
    decreases |s| - j
    ensures j <= e <= |s|
    ensures forall k :: j <= k < e ==> IsNameChar(s[k])
    ensures e < |s| ==> !IsNameChar(s[e])
  {
    if j < |s| && IsNameChar(s[j]) then NameRunEnd(s, j + 1) else j
  }

  /** The end of the longest run of `\s` characters from `j`. */
  function WsRunEnd(s: string, j: nat): (e: nat)
    requires j <= |s|
    decreases |s| - j
    ensures j <= e <= |s|
    ensures forall k :: j <= k < e ==> IsWhiteSpace(s[k])
    ensures e < |s| ==> !IsWhiteSpace(s[e])
  {
    if j < |s| && IsWhiteSpace(s[j]) then WsRunEnd(s, j + 1) else j
  }

  /** `s[i..j]` is made of name characters only. */
  predicate NameSpan(s: string, i: nat, j: nat)
    requires i <= j <= |s|
  {
    forall k :: i <= k < j ==> IsNameChar(s[k])
  }

  /** `s[i..j]` is made of `\s` characters only. */
  predicate WsSpan(s: string, i: nat, j: nat)
    requires i <= j <= |s|
  {
    forall k :: i <= k < j ==> IsWhiteSpace(s[k])
  }

  /** The lookahead `(?=\r\n\S|\n\S|\z)` holds at `q`: a line that starts
      with a non-space character begins there, or the text ends there. */
  predicate BoundaryAt(s: string, q: nat) {
    q == |s|
    || (q + 2 < |s| && s[q] == '\r' && s[q + 1] == '\n' && !IsWhiteSpace(s[q + 2]))
    || (q + 1 < |s| && s[q] == '\n' && !IsWhiteSpace(s[q + 1]))
  }

  /** Where the lazy `.*?` stops when it starts at `q`: the first boundary. */
  function ValueEnd(s: string, q: nat): (e: nat)
    requires q <= |s|
    decreases |s| - q
    ensures q <= e <= |s| && BoundaryAt(s, e)
    ensures forall k :: q <= k < e ==> !BoundaryAt(s, k)
  {
    if BoundaryAt(s, q) then q else ValueEnd(s, q + 1)
  }

  /** The positions of one match: the name is `s[start..nameEnd]`, the colon
      is at `colon`, and the value is `s[valueStart..end]`. */
  datatype HeaderMatch = HeaderMatch(nameEnd: nat, colon: nat, valueStart: nat, end: nat)

  /** The pattern tried at `p`. A match is the name, optional spaces, a
      colon, the greedy run of spaces after it, and the shortest value
      reaching a boundary. There is no match exactly when no run of name
      characters from `p` followed by spaces reaches a colon. */
  function MatchAt(s: string, p: nat): (r: Option<HeaderMatch>)
    requires p <= |s|
    ensures r.Some? ==> var m := r.value;
      p < m.nameEnd <= m.colon < m.valueStart <= m.end <= |s|
      && NameSpan(s, p, m.nameEnd) && WsSpan(s, m.nameEnd, m.colon) && s[m.colon] == ':'
      && WsSpan(s, m.colon + 1, m.valueStart)
      && (m.valueStart == |s| || !IsWhiteSpace(s[m.valueStart]))
      && BoundaryAt(s, m.end) && forall k :: m.valueStart <= k < m.end ==> !BoundaryAt(s, k)
    ensures r.None? ==>
      forall n: nat, c: nat {:trigger NameSpan(s, p, n), WsSpan(s, n, c)} ::
        p < n <= c < |s| && NameSpan(s, p, n) && WsSpan(s, n, c) ==> s[c] != ':'
  {
    var n := NameRunEnd(s, p);
    var c := WsRunEnd(s, n);
    if p < n && c < |s| && s[c] == ':' then
      var v := WsRunEnd(s, c + 1);
      Some(HeaderMatch(n, c, v, ValueEnd(s, v)))
    else
      assert forall n': nat, c': nat {:trigger NameSpan(s, p, n'), WsSpan(s, n', c')} ::
        p < n' <= c' < |s| && NameSpan(s, p, n') && WsSpan(s, n', c') ==> s[c'] != ':' by {
        forall n': nat, c': nat | p < n' <= c' < |s| && NameSpan(s, p, n') && WsSpan(s, n', c')
          ensures s[c'] != ':'
        {
          NoColonOutsideMatch(s, p, n', c');
        }
      }
      None
  }

  lemma NoColonOutsideMatch(s: string, p: nat, n': nat, c': nat)
    requires p < n' <= c' < |s| && NameSpan(s, p, n') && WsSpan(s, n', c')
    requires var n := NameRunEnd(s, p); var c := WsRunEnd(s, n);
      !(p < n && c < |s| && s[c] == ':')
    ensures s[c'] != ':'
  {
  }

  /** `Regex.Matches` from `p`: a match is tried at every position, and the
      search resumes at the end of each match found. */
  function ScanFrom(s: string, p: nat): (r: seq<Header>)
    requires p <= |s|
    decreases |s| - p
  {
    if p == |s| then []
    else match MatchAt(s, p)
      case Some(m) => [Header(s[p..m.nameEnd], s[m.valueStart..m.end])] + ScanFrom(s, m.end)
      case None => ScanFrom(s, p + 1)
  }

  function ParseHeaders(s: string): seq<Header> {
    ScanFrom(s, 0)
  }

  /** `name` is a non-empty run of name characters. */
  predicate WellFormedName(name: string) {
    |name| > 0 && forall k :: 0 <= k < |name| ==> IsNameChar(name[k])
  }

  /** Every scanned name is a non-empty run of name characters. */
  lemma {:induction false} ScannedNamesWellFormed(s: string, p: nat)
    requires p <= |s|
    ensures forall h :: h in ScanFrom(s, p) ==> WellFormedName(h.name)
    decreases |s| - p
  {
    if p < |s| {
      match MatchAt(s, p)
      case Some(m) =>
        ScannedNamesWellFormed(s, m.end);
        var hd := Header(s[p..m.nameEnd], s[m.valueStart..m.end]);
        assert WellFormedName(hd.name) by {
          forall k | 0 <= k < |hd.name| ensures IsNameChar(hd.name[k]) {
            assert hd.name[k] == s[p + k];
          }
        }
        assert ScanFrom(s, p) == [hd] + ScanFrom(s, m.end);
      case None =>
        ScannedNamesWellFormed(s, p + 1);
    }
  }

  /** Every line feed inside `v` is followed by whitespace: `v` is a
      possibly folded header body with no line of its own inside it. */
  predicate LineFeedsFolded(v: string) {
    forall k :: 0 <= k < |v| - 1 && v[k] == '\n' ==> IsWhiteSpace(v[k + 1])
  }

  /** A scanned value never contains the start of another header line:
      every line feed in it, except possibly a final one, is followed by
      whitespace. */
  lemma {:induction false} ScannedValuesFolded(s: string, p: nat)
    requires p <= |s|
    ensures forall h :: h in ScanFrom(s, p) ==> LineFeedsFolded(h.value)
    decreases |s| - p
  {
    if p < |s| {
      match MatchAt(s, p)
      case Some(m) =>
        ScannedValuesFolded(s, m.end);
        var v := s[m.valueStart..m.end];
        forall k | 0 <= k < |v| - 1 && v[k] == '\n' ensures IsWhiteSpace(v[k + 1]) {
          assert !BoundaryAt(s, m.valueStart + k);
        }
      case None =>
        ScannedValuesFolded(s, p + 1);
    }
  }

  // ---------------------------------------------------------------------
  // Reserved names and unfolding

  /** The headers the mail library generates itself. */
  const ReservedNames: set<string> := {
    "to", "from", "reply-to", "date", "subject", "cc", "bcc",
    "mime-version", "content-type", "content-transfer-encoding" }

  /** `header.ToLower()`, lowered as the invariant culture does, is one of
      the reserved names. */
  predicate Reserved(name: string) {
    LowerAscii(name) in ReservedNames
  }

  /** `Regex.Replace(v, @"\r\n\s+|\n\s+", " ")` from position `i`. */
  function FoldFrom(v: string, i: nat): string
    requires i <= |v|
    decreases |v| - i
  {
    if i == |v| then []
    else if i + 2 < |v| && v[i] == '\r' && v[i + 1] == '\n' && IsWhiteSpace(v[i + 2]) then
      " " + FoldFrom(v, WsRunEnd(v, i + 2))
    else if i + 1 < |v| && v[i] == '\n' && IsWhiteSpace(v[i + 1]) then
      " " + FoldFrom(v, WsRunEnd(v, i + 1))
    else [v[i]] + FoldFrom(v, i + 1)
  }

  function Fold(v: string): string {
    FoldFrom(v, 0)
  }

  /** At most the last character of `t` is a line feed. */
  predicate OneLine(t: string) {
    forall k :: 0 <= k < |t| - 1 ==> t[k] != '\n'
  }

  lemma OneLinePrepend(c: char, t: string)
    requires OneLine(t) && (c != '\n' || t == [])
    ensures OneLine([c] + t)
  {
    var r := [c] + t;
    forall k | 0 <= k < |r| - 1 ensures r[k] != '\n' {
      if k > 0 { assert r[k] == t[k - 1]; }
    }
  }

  lemma {:induction false} FoldFromNoInnerLineFeed(v: string, i: nat)
    requires i <= |v| && LineFeedsFolded(v)
    ensures OneLine(FoldFrom(v, i))
    decreases |v| - i
  {
    if i < |v| {
      if i + 2 < |v| && v[i] == '\r' && v[i + 1] == '\n' && IsWhiteSpace(v[i + 2]) {
        FoldFromNoInnerLineFeed(v, WsRunEnd(v, i + 2));
        OneLinePrepend(' ', FoldFrom(v, WsRunEnd(v, i + 2)));
      } else if i + 1 < |v| && v[i] == '\n' && IsWhiteSpace(v[i + 1]) {
        FoldFromNoInnerLineFeed(v, WsRunEnd(v, i + 1));
        OneLinePrepend(' ', FoldFrom(v, WsRunEnd(v, i + 1)));
      } else {
        FoldFromNoInnerLineFeed(v, i + 1);
        if v[i] == '\n' {
          assert i == |v| - 1;
        }
        OneLinePrepend(v[i], FoldFrom(v, i + 1));
      }
    }
  }

  /** Once unfolded, a transport header's value holds a line feed at most as
      its very last character. */
  lemma FoldedValueIsOneLine(s: string)
    ensures forall h :: h in ParseHeaders(s) ==> OneLine(Fold(h.value))
  {
    ScannedValuesFolded(s, 0);
    forall h | h in ParseHeaders(s) ensures OneLine(Fold(h.value)) {
      FoldFromNoInnerLineFeed(h.value, 0);
    }
  }

  /** A value can keep a final line feed: in `A: x\n\r\nB: y` the value of
      `A` ends at the boundary before `\r\nB`, after the `\n`. */
  lemma ValueCanEndInLineFeed()
    ensures var r := ParseHeaders("A: x\n\r\nB: y"); |r| > 0 && r[0] == Header("A", "x\n")
  {
    var s := "A: x\n\r\nB: y";
    assert NameRunEnd(s, 1) == 1;
    assert NameRunEnd(s, 0) == 1;
    assert WsRunEnd(s, 1) == 1;
    assert WsRunEnd(s, 3) == 3;
    assert WsRunEnd(s, 2) == 3;
    assert BoundaryAt(s, 5);
    assert !BoundaryAt(s, 4) && !BoundaryAt(s, 3);
    assert ValueEnd(s, 3) == 5;
    assert MatchAt(s, 0) == Some(HeaderMatch(1, 1, 3, 5));
    assert s[0..1] == [s[0]] == "A";
    assert s[3..5] == [s[3], s[4]] == "x\n";
    assert ScanFrom(s, 0) == [Header("A", "x\n")] + ScanFrom(s, 5);
  }

  /** The kept transport headers, unfolded, in source order. */
  function Reconcile(hs: seq<Header>): (r: seq<Header>)
    ensures |r| <= |hs|
  {
    if hs == [] then []
    else
      (if Reserved(hs[0].name) then [] else [Header(hs[0].name, Fold(hs[0].value))])
      + Reconcile(hs[1..])
  }

  /** Reconciling distributes over concatenation, so kept headers stay in
      source order. */
  lemma {:induction false} ReconcileAppend(a: seq<Header>, b: seq<Header>)
    ensures Reconcile(a + b) == Reconcile(a) + Reconcile(b)
  {
    if a == [] {
      assert a + b == b;
    } else {
      assert (a + b)[0] == a[0];
      assert (a + b)[1..] == a[1..] + b;
      ReconcileAppend(a[1..], b);
    }
  }

  /** A header is emitted exactly when a non-reserved header with that name
      was parsed, and its value is that header's value unfolded. */
  lemma {:induction false} ReconcileMembers(hs: seq<Header>, h: Header)
    ensures h in Reconcile(hs) <==>
      exists g :: g in hs && !Reserved(g.name) && h == Header(g.name, Fold(g.value))
  {
    if hs != [] {
      ReconcileMembers(hs[1..], h);
      assert forall g :: g in hs <==> g == hs[0] || g in hs[1..];
    }
  }

  /** `TransportHeaders` never emits a reserved name. */
  lemma ReconcileDropsReserved(hs: seq<Header>)
    ensures forall h :: h in Reconcile(hs) ==> !Reserved(h.name)
  {
    forall h | h in Reconcile(hs) ensures !Reserved(h.name) {
      ReconcileMembers(hs, h);
    }
  }

  function TransportHeaders(xportHdrs: string): seq<Header> {
    Reconcile(ParseHeaders(xportHdrs))
  }

  // ---------------------------------------------------------------------
  // The `X-` dump of every property

  /** The tags whose values are too big or already copied elsewhere. */
  predicate SkippedTag(t: Tag) {
    t == PtagBody || t == PtagBodyHtml || t == PtagHtml || t == PrBody || t == PrBodyHtml
    || t == PrRtfCompressed || t == PrTransportMessageHeaders
  }

  /** Line breaks and tabs written as `\n`, `\r` and `\t`. */
  function Escape(t: string): (r: string)
    ensures '\n' !in r && '\r' !in r && '\t' !in r
  {
    var a := ReplaceAll(t, "\n", "\\n");
    var b := ReplaceAll(a, "\r", "\\r");
    var c := ReplaceAll(b, "\t", "\\t");
    ReplaceCharRemovesIt(t, '\n', "\\n");
    ReplaceCharKeepsOthers(a, '\r', "\\r", '\n');
    ReplaceCharRemovesIt(a, '\r', "\\r");
    ReplaceCharKeepsOthers(b, '\t', "\\t", '\n');
    ReplaceCharKeepsOthers(b, '\t', "\\t", '\r');
    ReplaceCharRemovesIt(b, '\t', "\\t");
    c
  }

  /** Text without line breaks or tabs is left as it is. */
  lemma {:induction false} EscapeKeepsPlainText(t: string)
    requires '\n' !in t && '\r' !in t && '\t' !in t
    ensures Escape(t) == t
  {
    ReplaceCharAbsent(t, '\n', "\\n");
    ReplaceCharAbsent(t, '\r', "\\r");
    ReplaceCharAbsent(t, '\t', "\\t");
  }

  /** Escaping works character by character: it distributes over
      concatenation. */
  lemma EscapeAppend(a: string, b: string)
    ensures Escape(a + b) == Escape(a) + Escape(b)
  {
    ReplaceCharAppend(a, b, '\n', "\\n");
    var a1, b1 := ReplaceAll(a, "\n", "\\n"), ReplaceAll(b, "\n", "\\n");
    ReplaceCharAppend(a1, b1, '\r', "\\r");
    var a2, b2 := ReplaceAll(a1, "\r", "\\r"), ReplaceAll(b1, "\r", "\\r");
    ReplaceCharAppend(a2, b2, '\t', "\\t");
  }

  /** LF, CR and TAB become the two characters `\n`, `\r` and `\t`; every
      other character is kept as it is. */
  lemma EscapeChar(c: char)
    ensures Escape([c]) ==
      if c == '\n' then "\\n" else if c == '\r' then "\\r" else if c == '\t' then "\\t" else [c]
  {
    if c == '\n' {
      assert ReplaceAll([c], "\n", "\\n") == "\\n" + ReplaceAll([], "\n", "\\n");
      ReplaceCharAbsent("\\n", '\r', "\\r");
      ReplaceCharAbsent("\\n", '\t', "\\t");
    } else if c == '\r' {
      ReplaceCharAbsent([c], '\n', "\\n");
      assert ReplaceAll([c], "\r", "\\r") == "\\r" + ReplaceAll([], "\r", "\\r");
      ReplaceCharAbsent("\\r", '\t', "\\t");
    } else if c == '\t' {
      ReplaceCharAbsent([c], '\n', "\\n");
      ReplaceCharAbsent([c], '\r', "\\r");
      assert ReplaceAll([c], "\t", "\\t") == "\\t" + ReplaceAll([], "\t", "\\t");
    } else {
      EscapeKeepsPlainText([c]);
    }
  }

  lemma {:induction false} ReplaceCharAbsent(s: string, c: char, rep: string)
    requires c !in s
    ensures ReplaceAll(s, [c], rep) == s
  {
    if |s| >= 1 {
      assert s[..1] != [c] by { assert s[0] != c; }
      ReplaceCharAbsent(s[1..], c, rep);
      assert s == [s[0]] + s[1..];
    }
  }

  /** The header one property contributes, if any: skipped tags and binary
      values give none; an absent value is written `<null>`; a failed fetch
      appears as its `Exception: ...` text under the tag's own name. */
  function PropHeader(m: MapiMessage, t: Tag): (r: Option<Header>)
    ensures r.None? <==>
      SkippedTag(t) || (GetProperty(Slot(m, t)).Some? && GetProperty(Slot(m, t)).value.Binary?)
    ensures r.Some? ==> r.value.name == "X-" + TagName(t)
    ensures r.Some? && GetProperty(Slot(m, t)).None? ==> r.value.value == "<null>"
    ensures r.Some? && GetProperty(Slot(m, t)).Some? ==>
      r.value.value == Escape(ValueText(GetProperty(Slot(m, t)).value))
    ensures r.Some? ==> '\n' !in r.value.value && '\r' !in r.value.value && '\t' !in r.value.value
  {
    if SkippedTag(t) then None
    else match GetProperty(Slot(m, t))
      case None => Some(Header("X-" + TagName(t), "<null>"))
      case Some(v) => if v.Binary? then None else Some(Header("X-" + TagName(t), Escape(ValueText(v))))
  }

  /** A property whose fetch failed is still dumped, under its own name,
      with the failure text; no separate `X-Exception` header can arise,
      because the fetch itself never throws. */
  lemma FailedFetchIsDumped(m: MapiMessage, t: Tag)
    requires !SkippedTag(t) && !Slot(m, t).Value? && Slot(m, t) != PropError(MAPI_E_NOT_FOUND)
    ensures PropHeader(m, t).Some?
    ensures StartsWith(PropHeader(m, t).value.value, "Exception: ")
  {
    var g := GetProperty(Slot(m, t));
    assert g.Some? && g.value.Str? && StartsWith(g.value.s, "Exception: ");
    var text := g.value.s;
    var x := "Exception: ";
    var r := text[|x|..];
    assert text == x + r;
    EscapePrefix(x, r);
    assert PropHeader(m, t) == Some(Header("X-" + TagName(t), Escape(text)));
  }

  /** Escaping text that begins with a prefix free of line breaks and tabs
      keeps that prefix. */
  lemma {:induction false} EscapePrefix(x: string, r: string)
    requires '\n' !in x && '\r' !in x && '\t' !in x
    ensures StartsWith(Escape(x + r), x)
  {
    ReplacePrefix(x, r, '\n', "\\n");
    var a := ReplaceAll(x + r, "\n", "\\n");
    var ra := a[|x|..];
    assert a == x + ra;
    ReplacePrefix(x, ra, '\r', "\\r");
    var b := ReplaceAll(a, "\r", "\\r");
    var rb := b[|x|..];
    assert b == x + rb;
    ReplacePrefix(x, rb, '\t', "\\t");
  }

  lemma {:induction false} ReplacePrefix(x: string, r: string, c: char, rep: string)
    requires c !in x
    ensures ReplaceAll(x + r, [c], rep) == x + ReplaceAll(r, [c], rep)
  {
    if x != [] {
      assert (x + r)[..1] != [c] by { assert (x + r)[0] == x[0]; }
      assert (x + r)[1..] == x[1..] + r;
      ReplacePrefix(x[1..], r, c, rep);
      assert x == [x[0]] + x[1..];
    } else {
      assert x + r == r;
    }
  }

  function AsSeq(o: Option<Header>): seq<Header> {
    if o.Some? then [o.value] else []
  }

  /** The dump of the listed tags, in list order. */
  function PropertyHeaders(m: MapiMessage, tags: seq<Tag>): (r: seq<Header>)
    ensures |r| <= |tags|
  {
    if tags == [] then [] else AsSeq(PropHeader(m, tags[0])) + PropertyHeaders(m, tags[1..])
  }

  lemma {:induction false} PropertyHeadersAppend(m: MapiMessage, a: seq<Tag>, b: seq<Tag>)
    ensures PropertyHeaders(m, a + b) == PropertyHeaders(m, a) + PropertyHeaders(m, b)
  {
    if a == [] {
      assert a + b == b;
    } else {
      assert (a + b)[0] == a[0];
      assert (a + b)[1..] == a[1..] + b;
      PropertyHeadersAppend(m, a[1..], b);
    }
  }

  /** A dumped header is exactly the contribution of one listed tag. */
  lemma {:induction false} PropertyHeadersMembers(m: MapiMessage, tags: seq<Tag>, h: Header)
    ensures h in PropertyHeaders(m, tags) <==> exists t :: t in tags && PropHeader(m, t) == Some(h)
  {
    if tags != [] {
      PropertyHeadersMembers(m, tags[1..], h);
      assert forall t :: t in tags <==> t == tags[0] || t in tags[1..];
    }
  }

  /** Everything `DumpMapiProperties` adds: nothing at all when the message
      has no transport headers, otherwise the kept transport headers and then
      the property dump. */
  function DumpHeaders(m: MapiMessage): seq<Header> {
    match StringProp(m, PrTransportMessageHeaders)
    case None => []
    case Some(x) => TransportHeaders(x) + PropertyHeaders(m, m.propList)
  }

  /** A name starting with `X` is never reserved. */
  lemma XNameNotReserved(tail: string)
    ensures !Reserved("X-" + tail)
  {
    var lower := LowerAscii("X-" + tail);
    assert lower[0] == 'x';
  }

  /** No header added by the dump has a reserved name: the transport
      headers are filtered, and every property header starts with `X-`. */
  lemma DumpHasNoReservedName(m: MapiMessage)
    ensures forall h :: h in DumpHeaders(m) ==> !Reserved(h.name)
  {
    match StringProp(m, PrTransportMessageHeaders)
    case None =>
    case Some(x) =>
      ReconcileDropsReserved(ParseHeaders(x));
      forall h | h in PropertyHeaders(m, m.propList) ensures !Reserved(h.name) {
        PropertyHeadersMembers(m, m.propList, h);
        var t :| t in m.propList && PropHeader(m, t) == Some(h);
        XNameNotReserved(TagName(t));
      }
  }

  /** The first `foreach` of `DumpMapiProperties`: the kept matches, in
      order, each with its value unfolded. */
  method KeepTransportHeaders(matches: seq<Header>) returns (added: seq<Header>)
    ensures added == Reconcile(matches)
  {
    added := [];
    var i := 0;
    while i < |matches|
      invariant 0 <= i <= |matches|
      invariant added == Reconcile(matches[..i])
    {
      var header := matches[i].name;
      if !Reserved(header) {
        var body := Fold(matches[i].value);
        added := added + [Header(header, body)];
      }
      ReconcileAppend(matches[..i], [matches[i]]);
      assert matches[..i + 1] == matches[..i] + [matches[i]];
      i := i + 1;
    }
    assert matches[..i] == matches;
  }

  /** The second `foreach`: the contribution of every listed property. */
  method DumpProperties(m: MapiMessage, tags: seq<Tag>) returns (added: seq<Header>)
    ensures added == PropertyHeaders(m, tags)
  {
    added := [];
    var j := 0;
    while j < |tags|
      invariant 0 <= j <= |tags|
      invariant added == PropertyHeaders(m, tags[..j])
    {
      var propId := tags[j];
      var h := PropHeader(m, propId);
      if h.Some? {
        added := added + [h.value];
      }
      assert PropertyHeaders(m, [propId]) == AsSeq(h) by {
        assert [propId][1..] == [];
      }
      PropertyHeadersAppend(m, tags[..j], [propId]);
      assert tags[..j + 1] == tags[..j] + [propId];
      j := j + 1;
    }
    assert tags[..j] == tags;
  }

  /** `DumpMapiProperties` (lines 251-341): both loops append custom headers
      to the outgoing message; a message without transport headers gets
      neither. */
  method DumpMapiProperties(m: MapiMessage, outMsg: OutMessage) returns (r: OutMessage)
    ensures r == outMsg.(headers := outMsg.headers + DumpHeaders(m))
  {
    var xportHdrs := StringProp(m, PrTransportMessageHeaders);
    if xportHdrs.None? {
      return outMsg;
    }
    var kept := KeepTransportHeaders(ParseHeaders(xportHdrs.value));
    var dumped := DumpProperties(m, m.propList);
    r := outMsg.(headers := outMsg.headers + kept + dumped);
  }
}
