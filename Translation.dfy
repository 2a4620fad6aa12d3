/** `MaildirWriter.ProcessMailMessage` and `CopyAttachments`: how an
    `IPM.Note` message becomes the outgoing message (sender, reply-to,
    subject, recipients, bodies, attachments and the header dump). */
module Translation {
  import opened Text
  import opened MapiProps
  import opened Mail
  import opened Headers
  import opened Rtf

  // ---------------------------------------------------------------------
  // Recipients (lines 353-392)

  /** `PR_RECIPIENT_TYPE` values `MAPI_TO`, `MAPI_CC` and `MAPI_BCC`. */
  const MAPI_TO: int32 := 1
  const MAPI_CC: int32 := 2
  const MAPI_BCC: int32 := 3

  /** The `switch` on the recipient type: an unknown type keeps the default
      `To`. */
  function KindOf(recipType: int32): (r: AddressKind)
    ensures r == Cc <==> recipType == MAPI_CC
    ensures r == Bcc <==> recipType == MAPI_BCC
    ensures r == To <==> recipType != MAPI_CC && recipType != MAPI_BCC
  {
    if recipType == MAPI_TO then To
    else if recipType == MAPI_CC then Cc
    else if recipType == MAPI_BCC then Bcc
    else To
  }

  /** A cell read with `is MapiString`: its text, or null. */
  function CellString(c: Cell): (r: Option<string>)
    ensures r.Some? <==> c.Some? && c.value.Str?
    ensures r.Some? ==> c == Some(Str(r.value))
  {
    if c.Some? && c.value.Str? then Some(c.value.s) else None
  }

  /** The cast `(MapiInt32)rows[0,0]` succeeds. */
  predicate TypeIsInt(row: RecipientRow) {
    row.recipType.Some? && row.recipType.value.Int32?
  }

  function RecipientFor(row: RecipientRow): Recipient
    requires TypeIsInt(row)
  {
    Recipient(Address(CellString(row.email), CellString(row.displayName)), KindOf(row.recipType.value.i))
  }

  /** The recipient loop: one recipient per row, in row order, unless some
      row's type is not an integer, in which case the cast throws. */
  function RecipientsOf(rows: seq<RecipientRow>): (r: Outcome<seq<Recipient>>)
    ensures r.Threw? <==> exists i :: 0 <= i < |rows| && !TypeIsInt(rows[i])
    ensures r.Ok? ==>
      |r.value| == |rows| && forall i :: 0 <= i < |rows| ==> TypeIsInt(rows[i]) && r.value[i] == RecipientFor(rows[i])
  {
    if rows == [] then Ok([])
    else if !TypeIsInt(rows[0]) then Threw
    else match RecipientsOf(rows[1..])
      case Threw =>
        assert forall i :: 0 <= i < |rows| - 1 ==> rows[1..][i] == rows[i + 1];
        Threw
      case Ok(rest) =>
        assert forall i :: 1 <= i < |rows| ==> rows[i] == rows[1..][i - 1];
        Ok([RecipientFor(rows[0])] + rest)
  }

  /** The `for (; QueryRows ...; )` loop of lines 361-391. */
  method CopyRecipients(rows: seq<RecipientRow>, outMsg: OutMessage) returns (r: Outcome<OutMessage>)
    ensures r.Threw? <==> RecipientsOf(rows).Threw?
    ensures r.Ok? ==> r.value == outMsg.(recipients := outMsg.recipients + RecipientsOf(rows).value)
  {
    var added: seq<Recipient> := [];
    var i := 0;
    while i < |rows|
      invariant 0 <= i <= |rows|
      invariant forall k :: 0 <= k < i ==> TypeIsInt(rows[k])
      invariant |added| == i && forall k :: 0 <= k < i ==> added[k] == RecipientFor(rows[k])
    {
      if !TypeIsInt(rows[i]) {
        return Threw;
      }
      var emailAddr := CellString(rows[i].email);
      var emailName := CellString(rows[i].displayName);
      var kind := KindOf(rows[i].recipType.value.i);
      added := added + [Recipient(Address(emailAddr, emailName), kind)];
      i := i + 1;
    }
    assert added == RecipientsOf(rows).value;
    r := Ok(outMsg.(recipients := outMsg.recipients + added));
  }

  // ---------------------------------------------------------------------
  // Bodies (lines 421-436)

  datatype Bodies = Bodies(body: Option<string>, html: Option<string>)

  /** The body decision as written. `GetLongStringProperty` never returns
      null, so both null tests pass: the plain body is the `PR_BODY` stream
      text or its error text, and whenever HTML was recovered from the RTF it
      is replaced by the `PR_BODY_HTML` stream text or its error text. */
  function ResolveBodiesAsWritten(m: MapiMessage): (r: Bodies)
    ensures r.body == Some(LongStringProp(m, PrBody))
    ensures r.html.Some? <==> m.rtf.Some? && RtfToHtml(m.rtf.value).Some?
    ensures r.html.Some? ==> r.html.value == LongStringProp(m, PrBodyHtml)
  {
    var body := Some(LongStringProp(m, PrBody));
    if m.rtf.None? then Bodies(body, None)
    else
      var html := RtfToHtml(m.rtf.value);
      if html.None? then Bodies(body, None) else Bodies(body, Some(LongStringProp(m, PrBodyHtml)))
  }

  /** As written, the HTML recovered from the RTF is never used: for an
      HTML-derived RTF body and no `PR_BODY_HTML`, the HTML body is the
      not-found error text rather than the recovered HTML. */
  lemma RecoveredHtmlIsDiscarded(m: MapiMessage)
    requires m.rtf.Some? && RtfToHtml(m.rtf.value).Some? && PrBodyHtml !in m.streams
    ensures ResolveBodiesAsWritten(m).html == Some(LongStringError(PrBodyHtml, NotFound))
    ensures ResolveBodiesAsWritten(m).html != RtfToHtml(m.rtf.value)
  {
    var e := LongStringError(PrBodyHtml, NotFound);
    assert e[0] == 'E';
  }

  /** The text of a stream that opened, or null. */
  function OpenedText(o: StreamOpen<string>): (r: Option<string>)
    ensures r.Some? <==> o.Opened?
    ensures r.Some? ==> r.value == o.content
  {
    if o.Opened? then Some(o.content) else None
  }

  /** The decision the comment of lines 417-420 describes, with an
      unreadable property treated as the null it was meant to be. */
  function ResolveBodies(m: MapiMessage): (r: Bodies)
    ensures r.body == OpenedText(Stream(m, PrBody))
    ensures m.rtf.None? || RtfToHtml(m.rtf.value).None? ==> r.html.None?
    ensures m.rtf.Some? && RtfToHtml(m.rtf.value).Some? && Stream(m, PrBodyHtml).Opened? ==>
      r.html == Some(Stream(m, PrBodyHtml).content)
    ensures m.rtf.Some? && RtfToHtml(m.rtf.value).Some? && !Stream(m, PrBodyHtml).Opened? ==>
      r.html == RtfToHtml(m.rtf.value)
  {
    var body := OpenedText(Stream(m, PrBody));
    if m.rtf.None? then Bodies(body, None)
    else
      var html := RtfToHtml(m.rtf.value);
      if html.None? then Bodies(body, None)
      else
        var fromProp := OpenedText(Stream(m, PrBodyHtml));
        Bodies(body, if fromProp.Some? then fromProp else html)
  }

  /** The corrected decision differs from the written one only where a
      stream failed to open: with both streams readable they agree. */
  lemma ResolveBodiesAgreesWhenReadable(m: MapiMessage)
    requires Stream(m, PrBody).Opened? && Stream(m, PrBodyHtml).Opened?
    ensures ResolveBodies(m) == ResolveBodiesAsWritten(m)
  {
  }

  /** A corrected HTML body is never an error text: it is either the
      `PR_BODY_HTML` text or recovered HTML, which starts with `<`. */
  lemma CorrectedHtmlIsNeverErrorText(m: MapiMessage)
    requires ResolveBodies(m).html.Some?
    ensures var h := ResolveBodies(m).html.value;
      (Stream(m, PrBodyHtml).Opened? && h == Stream(m, PrBodyHtml).content) || (|h| > 0 && h[0] == '<')
  {
  }

  // ---------------------------------------------------------------------
  // Attachments (lines 463-547)

  const DEFAULT_MIME := "application/x-octet-stream"

  /** `Encoding.ASCII.GetBytes`: a character outside ASCII becomes `?`. */
  function AsciiBytes(t: string): (r: seq<byte>)
    ensures |r| == |t|
    ensures forall i :: 0 <= i < |t| ==> r[i] == (if t[i] as int < 128 then t[i] as int as byte else 63)
  {
    if t == [] then []
    else [if t[0] as int < 128 then t[0] as int as byte else 63] + AsciiBytes(t[1..])
  }

  function AsciiText(b: seq<byte>): (r: string)
    ensures |r| == |b|
  {
    if b == [] then [] else [b[0] as int as char] + AsciiText(b[1..])
  }

  predicate IsAscii(t: string) {
    forall i :: 0 <= i < |t| ==> t[i] as int < 128
  }

  /** ASCII text survives the encoding unchanged. */
  lemma {:induction false} AsciiRoundTrip(t: string)
    requires IsAscii(t)
    ensures AsciiText(AsciiBytes(t)) == t
  {
    if t != [] {
      AsciiRoundTrip(t[1..]);
      assert AsciiBytes(t)[1..] == AsciiBytes(t[1..]);
    }
  }

  /** The file name used for an attachment: its own, or `Attach<idx>.dat`. */
  function AttachFilename(cell: Cell, idx: nat): (r: string)
    ensures cell.Some? && cell.value.Str? ==> r == cell.value.s
    ensures !(cell.Some? && cell.value.Str?) ==> r == "Attach" + NatToString(idx) + ".dat"
  {
    match CellString(cell)
    case Some(s) => s
    case None => "Attach" + NatToString(idx) + ".dat"
  }

  /** Default names of different rows differ: each carries its row number. */
  lemma DefaultFilenamesDiffer(a: nat, b: nat)
    requires a != b
    ensures "Attach" + NatToString(a) + ".dat" != "Attach" + NatToString(b) + ".dat"
  {
    var x := "Attach" + NatToString(a) + ".dat";
    var y := "Attach" + NatToString(b) + ".dat";
    ParseNatToString(a);
    ParseNatToString(b);
    assert x[6..|x| - 4] == NatToString(a);
    assert y[6..|y| - 4] == NatToString(b);
  }

  function AttachMimeTag(cell: Cell): (r: string)
    ensures cell.Some? && cell.value.Str? ==> r == cell.value.s
    ensures !(cell.Some? && cell.value.Str?) ==> r == DEFAULT_MIME
  {
    match CellString(cell)
    case Some(s) => s
    case None => DEFAULT_MIME
  }

  /** The data stream actually used: `PR_ATTACH_DATA_OBJ` is tried only when
      `PR_ATTACH_DATA_BIN` is not found. */
  function DataStream(dataBin: StreamOpen<seq<byte>>, dataObj: StreamOpen<seq<byte>>): (r: StreamOpen<seq<byte>>)
    ensures dataBin.Opened? ==> r == dataBin
    ensures dataBin.OpenFailed? && dataBin.hr.value == NotFound.value ==> r == dataObj
    ensures dataBin.OpenFailed? && dataBin.hr.value != NotFound.value ==> r == dataBin
  {
    if dataBin.OpenFailed? && dataBin.hr.value == NotFound.value then dataObj else dataBin
  }

  function AttachErrorText(filename: string, hr: ErrorCode): string {
    "Error getting contents of attachment '" + filename + "' due to error '" + hr.name + "'"
  }

  /** The payload: the stream's bytes, or the ASCII error text. */
  function AttachData(s: StreamOpen<seq<byte>>, filename: string): (r: seq<byte>)
    ensures s.Opened? ==> r == s.content
    ensures s.OpenFailed? ==> r == AsciiBytes(AttachErrorText(filename, s.hr))
  {
    match s
    case Opened(bytes) => bytes
    case OpenFailed(hr) => AsciiBytes(AttachErrorText(filename, hr))
  }

  /** A failed payload decodes back to the error text naming the attachment
      and the status, when both names are ASCII. */
  lemma FailedPayloadReadsBack(s: StreamOpen<seq<byte>>, filename: string)
    requires s.OpenFailed? && IsAscii(filename) && IsAscii(s.hr.name)
    ensures AsciiText(AttachData(s, filename)) == AttachErrorText(filename, s.hr)
  {
    var t := AttachErrorText(filename, s.hr);
    var a := "Error getting contents of attachment '";
    var b := "' due to error '";
    assert t == a + filename + b + s.hr.name + "'";
    assert IsAscii(t) by {
      forall i | 0 <= i < |t| ensures t[i] as int < 128 {
        if i < |a| {
          assert t[i] == a[i];
        } else if i < |a| + |filename| {
          assert t[i] == filename[i - |a|];
        } else if i < |a| + |filename| + |b| {
          assert t[i] == b[i - |a| - |filename|];
        } else if i < |a| + |filename| + |b| + |s.hr.name| {
          assert t[i] == s.hr.name[i - |a| - |filename| - |b|];
        } else {
          assert t[i] == '\'';
        }
      }
    }
    AsciiRoundTrip(t);
  }

  /** What one row of the attachment table yields inside its own
      `try`/`catch`: a failed cast of the attachment number, or a null
      attachment object, makes the row fail and be skipped. */
  datatype RowOutcome = Added(attachment: Attachment) | RowFailed

  function AttachmentFor(row: AttachmentRow, idx: nat): RowOutcome {
    if !(row.attachNum.Some? && row.attachNum.value.Int32?) then RowFailed
    else match row.attachObj
      case NoObject => RowFailed
      case AttachObj(dataBin, dataObj) =>
        var filename := AttachFilename(row.filename, idx);
        Added(Attachment(AttachData(DataStream(dataBin, dataObj), filename),
          filename, AttachMimeTag(row.mimeTag), CellString(row.contentId)))
  }

  /** A row fails exactly when its attachment number is not an integer or
      its attachment object is null; otherwise each field takes the row's
      value or its default, and the payload comes from the chosen stream. */
  lemma AttachmentForRow(row: AttachmentRow, idx: nat)
    ensures var r := AttachmentFor(row, idx);
      (r.RowFailed? <==> !(row.attachNum.Some? && row.attachNum.value.Int32?) || row.attachObj.NoObject?)
      && (r.Added? ==>
        r.attachment.filename == AttachFilename(row.filename, idx)
        && r.attachment.mimeType == AttachMimeTag(row.mimeTag)
        && r.attachment.contentId == CellString(row.contentId)
        && r.attachment.data
           == AttachData(DataStream(row.attachObj.dataBin, row.attachObj.dataObj), r.attachment.filename))
  {
  }

  function AddedSeq(o: RowOutcome): seq<Attachment> {
    if o.Added? then [o.attachment] else []
  }

  /** The attachments from the rows, numbering the first row `idx`. */
  function AttachmentsFrom(rows: seq<AttachmentRow>, idx: nat): (r: seq<Attachment>)
    ensures |r| <= |rows|
  {
    if rows == [] then [] else AddedSeq(AttachmentFor(rows[0], idx)) + AttachmentsFrom(rows[1..], idx + 1)
  }

  /** Rows are numbered by position whether or not earlier rows failed, and
      a failing row does not affect the rows after it. */
  lemma {:induction false} AttachmentsAppend(a: seq<AttachmentRow>, b: seq<AttachmentRow>, idx: nat)
    ensures AttachmentsFrom(a + b, idx) == AttachmentsFrom(a, idx) + AttachmentsFrom(b, idx + |a|)
  {
    if a == [] {
      assert a + b == b;
    } else {
      var first := AddedSeq(AttachmentFor(a[0], idx));
      assert (a + b)[0] == a[0];
      assert (a + b)[1..] == a[1..] + b;
      calc {
        AttachmentsFrom(a + b, idx);
        first + AttachmentsFrom(a[1..] + b, idx + 1);
        { AttachmentsAppend(a[1..], b, idx + 1); }
        first + (AttachmentsFrom(a[1..], idx + 1) + AttachmentsFrom(b, idx + |a|));
        { ConcatAssoc(first, AttachmentsFrom(a[1..], idx + 1), AttachmentsFrom(b, idx + |a|)); }
        AttachmentsFrom(a, idx) + AttachmentsFrom(b, idx + |a|);
      }
    }
  }

  /** The `k`-th row (from 0) is attachment number `k + 1`: whatever the
      rows before it did, it contributes exactly `AttachmentFor(rows[k], k + 1)`. */
  lemma RowKeepsItsNumber(rows: seq<AttachmentRow>, k: nat)
    requires k < |rows|
    ensures AttachmentsFrom(rows, 1) ==
      AttachmentsFrom(rows[..k], 1) + AddedSeq(AttachmentFor(rows[k], k + 1)) + AttachmentsFrom(rows[k + 1..], k + 2)
  {
    var tail := rows[k..];
    var here := AddedSeq(AttachmentFor(rows[k], k + 1));
    assert rows == rows[..k] + tail;
    AttachmentsAppend(rows[..k], tail, 1);
    assert tail[0] == rows[k];
    assert tail[1..] == rows[k + 1..];
    assert AttachmentsFrom(tail, k + 1) == here + AttachmentsFrom(rows[k + 1..], k + 2);
    ConcatAssoc(AttachmentsFrom(rows[..k], 1), here, AttachmentsFrom(rows[k + 1..], k + 2));
  }

  /** The loop of lines 473-545, with `attachIdx` counting every row. */
  method CopyAttachments(rows: seq<AttachmentRow>, outMsg: OutMessage) returns (r: OutMessage)
    ensures r == outMsg.(attachments := outMsg.attachments + AttachmentsFrom(rows, 1))
  {
    var added: seq<Attachment> := [];
    var attachIdx := 0;
    var i := 0;
    while i < |rows|
      invariant 0 <= i <= |rows| && attachIdx == i
      invariant added == AttachmentsFrom(rows[..i], 1)
    {
      attachIdx := attachIdx + 1;
      var outcome := AttachmentFor(rows[i], attachIdx);
      if outcome.Added? {
        added := added + [outcome.attachment];
      }
      AttachmentsAppend(rows[..i], [rows[i]], 1);
      assert AttachmentsFrom([rows[i]], 1 + i) == AddedSeq(outcome) by {
        assert [rows[i]][1..] == [];
      }
      assert rows[..i + 1] == rows[..i] + [rows[i]];
      i := i + 1;
    }
    assert rows[..i] == rows;
    r := outMsg.(attachments := outMsg.attachments + added);
  }

  // ---------------------------------------------------------------------
  // The whole translation (lines 343-443)

  /** `ProcessMailMessage` as a function of the message and the outgoing
      message it fills in. */
  function TranslateMail(m: MapiMessage, outMsg: OutMessage): Outcome<OutMessage> {
    var sentName := StringProp(m, PtagSentRepresentingName);
    var o := outMsg.(
      from := Some(Address(StringProp(m, PrSenderEmailAddress), StringProp(m, PrSenderName))),
      replyTo := if sentName.Some? then Some(Address(StringProp(m, PtagSentRepresentingEmailAddr), sentName))
                 else outMsg.replyTo,
      subject := StringProp(m, PrSubject));
    match RecipientsOf(m.recipients)
    case Threw => Threw
    case Ok(rs) =>
      var b := ResolveBodiesAsWritten(m);
      Ok(o.(
        recipients := o.recipients + rs,
        body := if b.body.Some? then b.body else o.body,
        htmlBody := if m.rtf.Some? then b.html else o.htmlBody,
        attachments := o.attachments + AttachmentsFrom(m.attachments, 1),
        headers := o.headers + DumpHeaders(m)))
  }

  /** As written, the body is always the `PR_BODY` result, error text
      included; the HTML body changes only for a message with RTF, and is
      then absent when the RTF yields no HTML and the `PR_BODY_HTML` result
      otherwise, error text included. */
  lemma TranslationBodiesAsWritten(m: MapiMessage, outMsg: OutMessage)
    requires TranslateMail(m, outMsg).Ok?
    ensures var o := TranslateMail(m, outMsg).value;
      o.body == Some(LongStringProp(m, PrBody))
      && (m.rtf.None? ==> o.htmlBody == outMsg.htmlBody)
      && (m.rtf.Some? && RtfToHtml(m.rtf.value).None? ==> o.htmlBody.None?)
      && (m.rtf.Some? && RtfToHtml(m.rtf.value).Some? ==> o.htmlBody == Some(LongStringProp(m, PrBodyHtml)))
  {
  }

  /** The translation throws exactly when some recipient row's type is not
      an integer. */
  lemma TranslationThrowsOnBadRecipientType(m: MapiMessage, outMsg: OutMessage)
    ensures TranslateMail(m, outMsg).Threw?
      <==> exists i :: 0 <= i < |m.recipients| && !TypeIsInt(m.recipients[i])
  {
    assert TranslateMail(m, outMsg).Threw? <==> RecipientsOf(m.recipients).Threw?;
  }

  /** What a translation adds: one recipient per row, at most one
      attachment per row, and headers none of which has a reserved name. */
  lemma TranslationAdds(m: MapiMessage, outMsg: OutMessage)
    requires TranslateMail(m, outMsg).Ok?
    ensures var o := TranslateMail(m, outMsg).value;
      o.date == outMsg.date
      && |o.recipients| == |outMsg.recipients| + |m.recipients|
      && |outMsg.attachments| <= |o.attachments| <= |outMsg.attachments| + |m.attachments|
      && o.headers[..|outMsg.headers|] == outMsg.headers
      && forall k :: |outMsg.headers| <= k < |o.headers| ==> !Reserved(o.headers[k].name)
  {
    var o := TranslateMail(m, outMsg).value;
    DumpHasNoReservedName(m);
    assert o.headers == outMsg.headers + DumpHeaders(m);
    forall k | |outMsg.headers| <= k < |o.headers| ensures !Reserved(o.headers[k].name) {
      assert o.headers[k] == DumpHeaders(m)[k - |outMsg.headers|];
    }
  }

  /** `ProcessMailMessage` (lines 343-443), statement by statement. */
  method ProcessMailMessage(m: MapiMessage, outMsg: OutMessage) returns (r: Outcome<OutMessage>)
    ensures r == TranslateMail(m, outMsg)
  {
    var o := outMsg.(from := Some(Address(StringProp(m, PrSenderEmailAddress), StringProp(m, PrSenderName))));
    if StringProp(m, PtagSentRepresentingName).Some? {
      o := o.(replyTo := Some(Address(StringProp(m, PtagSentRepresentingEmailAddr),
                                      StringProp(m, PtagSentRepresentingName))));
    }
    o := o.(subject := StringProp(m, PrSubject));
    var withRecipients := CopyRecipients(m.recipients, o);
    if withRecipients.Threw? {
      return Threw;
    }
    o := withRecipients.value;
    // `GetLongStringProperty` yields a string in every case, so the
    // `!= null` tests of lines 422 and 432 always pass.
    var propVal := LongStringProp(m, PrBody);
    o := o.(body := Some(propVal));
    if m.rtf.Some? {
      var html := BodyRtfToHtml(m.rtf.value);
      o := o.(htmlBody := html);
      if html.Some? {
        propVal := LongStringProp(m, PrBodyHtml);
        o := o.(htmlBody := Some(propVal));
      }
    }
    o := CopyAttachments(m.attachments, o);
    o := DumpMapiProperties(m, o);
    r := Ok(o);
  }
}
