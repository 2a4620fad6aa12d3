/** The message store as seen through MapiUtils.cs: property tags, typed
    property values, what a single-property fetch can come back with, and the
    helpers that turn that outcome into a value, a sentinel or a text. */
module MapiProps {
  import opened Text

  type int32 = i: int | -0x8000_0000 <= i < 0x8000_0000
  type uint32 = n: nat | n < 0x1_0000_0000
  newtype byte = b: int | 0 <= b < 256

  const INT32_MIN: int32 := -0x8000_0000

  /** `MapiException.MAPI_E_NOT_FOUND` and `MAPI_E_OUT_OF_MEMORY`. */
  const MAPI_E_NOT_FOUND: uint32 := 0x8004_010F
  const MAPI_E_OUT_OF_MEMORY: uint32 := 0x8007_000E

  /** `DateTime.MinValue`, in ticks. */
  const MIN_TICKS: nat := 0

  /** The tags the translator refers to by name; any other tag is `Other`,
      carrying the name the tag enumeration gives it, if any. */
  datatype Tag =
    | PrMessageClass | PrMessageSize | PrMessageFlags | PtagMsgDeliveryTime
    | PrSenderEmailAddress | PrSenderName
    | PtagSentRepresentingName | PtagSentRepresentingEmailAddr
    | PrSubject | PrDisplayName
    | PrBody | PrBodyHtml | PtagBody | PtagBodyHtml | PtagHtml
    | PrRtfCompressed | PrTransportMessageHeaders
    | Other(id: nat, enumName: Option<string>)

  /** The tag's `ToString()`: its enumeration name, or its number when the
      enumeration has no name for it. */
  function TagName(t: Tag): (r: string)
    ensures |r| > 0
  {
    match t
    case PrMessageClass => "PR_MESSAGE_CLASS"
    case PrMessageSize => "PR_MESSAGE_SIZE"
    case PrMessageFlags => "PR_MESSAGE_FLAGS"
    case PtagMsgDeliveryTime => "ptagMsgDeliveryTime"
    case PrSenderEmailAddress => "PR_SENDER_EMAIL_ADDRESS"
    case PrSenderName => "PR_SENDER_NAME"
    case PtagSentRepresentingName => "ptagSentRepresentingName"
    case PtagSentRepresentingEmailAddr => "ptagSentRepresentingEmailAddr"
    case PrSubject => "PR_SUBJECT"
    case PrDisplayName => "PR_DISPLAY_NAME"
    case PrBody => "PR_BODY"
    case PrBodyHtml => "PR_BODY_HTML"
    case PtagBody => "ptagBody"
    case PtagBodyHtml => "ptagBodyHtml"
    case PtagHtml => "ptagHtml"
    case PrRtfCompressed => "PR_RTF_COMPRESSED"
    case PrTransportMessageHeaders => "PR_TRANSPORT_MESSAGE_HEADERS"
    case Other(id, name) => if name.Some? && |name.value| > 0 then name.value else NatToString(id)
  }

  /** A property value. The store's own text rendering of time and binary
      values is carried with them. */
  datatype PropValue =
    | Str(s: string)
    | Int32(i: int32)
    | SysTime(ticks: nat, text: string)
    | Binary(bytes: seq<byte>, text: string)

  /** `Value.ToString()`. */
  function ValueText(v: PropValue): string {
    match v
    case Str(s) => s
    case Int32(i) => IntToString(i)
    case SysTime(_, text) => text
    case Binary(_, text) => text
  }

  /** A member of the store's `Error` enumeration: its numeric value and the
      name its `ToString()` gives. */
  datatype ErrorCode = ErrorCode(value: int32, name: string)

  const NotFound: ErrorCode := ErrorCode(MAPI_E_NOT_FOUND as int - 0x1_0000_0000, "NotFound")

  /** The error's value as the unsigned 32-bit pattern the `X` format prints. */
  function Unsigned(e: ErrorCode): (r: uint32)
    ensures e.value >= 0 ==> r == e.value
    ensures e.value < 0 ==> r == e.value + 0x1_0000_0000
  {
    if e.value < 0 then e.value + 0x1_0000_0000 else e.value
  }

  /** What a one-property `GetProps` call comes back with. */
  datatype PropSlot =
    | Value(v: PropValue)          // success
    | PropError(code: uint32)      // ErrorsReturned, with the property's own error code
    | CallFailed(hr: ErrorCode)    // any other failing status of the call
    | Thrown(message: string)      // an exception raised inside the call

  /** Opening a property as a stream. */
  datatype StreamOpen<T> = Opened(content: T) | OpenFailed(hr: ErrorCode)

  /** The message of `MapiException(uint errNo)`. */
  function ErrnoMessage(code: uint32): string {
    "Error 0x" + NatToHex(code, false)
    + (if code == MAPI_E_OUT_OF_MEMORY then " (Out of memory; property value likely too long)" else "")
  }

  /** The message of `MapiException(Error hr)`. */
  function HrMessage(hr: ErrorCode): string {
    "Error " + IntToString(hr.value) + ": " + hr.name
  }

  /** `MapiUtils.GetProperty`: absent (null) only for a not-found property;
      every other failure becomes a string value instead of an exception. */
  function GetProperty(slot: PropSlot): (r: Option<PropValue>)
    ensures r.None? <==> slot == PropError(MAPI_E_NOT_FOUND)
    ensures slot.Value? ==> r == Some(slot.v)
    ensures !slot.Value? && r.Some? ==> r.value.Str? && StartsWith(r.value.s, "Exception: ")
  {
    match slot
    case Value(v) => Some(v)
    case PropError(code) =>
      if code == MAPI_E_NOT_FOUND then None else Some(Str("Exception: " + ErrnoMessage(code)))
    case CallFailed(hr) => Some(Str("Exception: " + HrMessage(hr)))
    case Thrown(message) => Some(Str("Exception: " + message))
  }

  /** `MapiUtils.GetStringProperty`. */
  function GetStringProperty(slot: PropSlot): (r: Option<string>)
    ensures r.None? <==> GetProperty(slot).None?
    ensures slot.Value? && slot.v.Str? ==> r == Some(slot.v.s)
  {
    match GetProperty(slot)
    case None => None
    case Some(v) => Some(ValueText(v))
  }

  /** The outcome of a typed getter that casts the fetched value: the cast
      throws `InvalidCastException` when the value has another type. */
  datatype Cast<T> = Got(value: T) | InvalidCast

  /** `MapiUtils.GetLongProperty`: `Int32.MinValue` when absent. */
  function GetLongProperty(slot: PropSlot): (r: Cast<int32>)
    ensures GetProperty(slot).None? ==> r == Got(INT32_MIN)
    ensures r.Got? && r.value != INT32_MIN ==> slot == Value(Int32(r.value))
    ensures r.InvalidCast? <==> GetProperty(slot).Some? && !GetProperty(slot).value.Int32?
  {
    match GetProperty(slot)
    case None => Got(INT32_MIN)
    case Some(v) => if v.Int32? then Got(v.i) else InvalidCast
  }

  /** `MapiUtils.GetSysTimeProperty`: `DateTime.MinValue` when absent. */
  function GetSysTimeProperty(slot: PropSlot): (r: Cast<nat>)
    ensures GetProperty(slot).None? ==> r == Got(MIN_TICKS)
    ensures r.Got? && r.value != MIN_TICKS ==> slot.Value? && slot.v.SysTime? && slot.v.ticks == r.value
    ensures r.InvalidCast? <==> GetProperty(slot).Some? && !GetProperty(slot).value.SysTime?
  {
    match GetProperty(slot)
    case None => Got(MIN_TICKS)
    case Some(v) => if v.SysTime? then Got(v.ticks) else InvalidCast
  }

  /** `MapiUtils.GetLongStringProperty`: the stream's text, or an error text
      naming the tag and the status in eight upper-case hexadecimal digits. */
  function GetLongStringProperty(tag: Tag, open: StreamOpen<string>): (r: string)
    ensures open.Opened? ==> r == open.content
    ensures open.OpenFailed? ==> StartsWith(r, "Error getting ")
  {
    match open
    case Opened(text) => text
    case OpenFailed(hr) => LongStringError(tag, hr)
  }

  function LongStringError(tag: Tag, hr: ErrorCode): string {
    "Error getting " + TagName(tag) + ": " + NatToHexWidth(Unsigned(hr), 8, true)
  }

  /** The status printed in a long-string error text reads back as the
      status the stream open failed with. */
  lemma LongStringErrorNamesStatus(tag: Tag, hr: ErrorCode)
    ensures var r := LongStringError(tag, hr);
      var k := |"Error getting " + TagName(tag) + ": "|;
      k <= |r| && AllHex(r[k..], true) && ParseHex(r[k..], true) == Unsigned(hr)
      && |r[k..]| == 8
  {
    var h := NatToHexWidth(Unsigned(hr), 8, true);
    ParseNatToHexWidth(Unsigned(hr), 8, true);
    HexWidthOfUint32(Unsigned(hr));
    var prefix := "Error getting " + TagName(tag) + ": ";
    assert LongStringError(tag, hr)[|prefix|..] == h;
  }

  /** A 32-bit value needs no more than eight hexadecimal digits. */
  lemma HexWidthOfUint32(n: uint32)
    ensures |NatToHexWidth(n, 8, true)| == 8
  {
    HexLength(n, 8);
  }

  lemma {:induction false} HexLength(n: nat, k: nat)
    requires n < Pow16(k) && k > 0
    ensures |NatToHex(n, true)| <= k
  {
    if n >= 16 {
      HexLength(n / 16, k - 1);
    }
  }

  /** The message as the store exposes it to the translator. */
  datatype MapiMessage = MapiMessage(
    props: map<Tag, PropSlot>,              // single-property fetches
    propList: seq<Tag>,                     // `GetPropList`, in its order
    streams: map<Tag, StreamOpen<string>>,  // properties opened as text streams
    rtf: Option<string>,                    // `GetBodyRtf`, decoded; None for null
    recipients: seq<RecipientRow>,
    attachments: seq<AttachmentRow>)

  /** A table cell: a value, or `None` when the row holds an error for it. */
  type Cell = Option<PropValue>

  datatype RecipientRow = RecipientRow(recipType: Cell, email: Cell, displayName: Cell)

  /** An attachment-table row and what opening its attachment object yields:
      `NoObject` when `OpenAttach` leaves the object null. */
  datatype AttachmentRow = AttachmentRow(
    filename: Cell, contentId: Cell, mimeTag: Cell, attachNum: Cell,
    attachObj: AttachObject)

  datatype AttachObject =
    | NoObject
    | AttachObj(dataBin: StreamOpen<seq<byte>>, dataObj: StreamOpen<seq<byte>>)

  /** `GetProps` on a property the message does not have reports not-found. */
  function Slot(m: MapiMessage, t: Tag): PropSlot {
    if t in m.props then m.props[t] else PropError(MAPI_E_NOT_FOUND)
  }

  /** `OpenProperty` on a property the message does not have fails with not-found. */
  function Stream(m: MapiMessage, t: Tag): StreamOpen<string> {
    if t in m.streams then m.streams[t] else OpenFailed(NotFound)
  }

  function StringProp(m: MapiMessage, t: Tag): Option<string> {
    GetStringProperty(Slot(m, t))
  }

  function LongStringProp(m: MapiMessage, t: Tag): string {
    GetLongStringProperty(t, Stream(m, t))
  }
}
