/** The outgoing message as the translator builds it (the `MailMessage`
    wrapper of MailMessage.cs): a plain record whose header, recipient and
    attachment lists only ever grow. Serialising it is done by a library
    outside this model and appears as a function parameter where needed. */
module Mail {
  import opened Text
  import opened MapiProps

  datatype Header = Header(name: string, value: string)

  /** `MailMessage.CreateEmailAddress(addr, name)`: either part may be null. */
  datatype Address = Address(email: Option<string>, name: Option<string>)

  /** `AddressType`. */
  datatype AddressKind = To | Cc | Bcc

  datatype Recipient = Recipient(address: Address, kind: AddressKind)

  datatype Attachment = Attachment(
    data: seq<byte>, filename: string, mimeType: string, contentId: Option<string>)

  datatype OutMessage = OutMessage(
    date: nat,                    // `Date`, in ticks
    from: Option<Address>,
    replyTo: Option<Address>,
    subject: Option<string>,
    body: Option<string>,
    htmlBody: Option<string>,
    headers: seq<Header>,         // `AddCustomHeader`, in call order
    recipients: seq<Recipient>,   // `AddRecipient`, in call order
    attachments: seq<Attachment>) // `AddAttachment`, in call order

  /** `new MailMessage()` followed by `Date = ticks`. */
  function NewMessage(ticks: nat): (r: OutMessage)
    ensures r.date == ticks && r.headers == [] && r.recipients == [] && r.attachments == []
    ensures r.body.None? && r.htmlBody.None? && r.from.None? && r.replyTo.None? && r.subject.None?
  {
    OutMessage(ticks, None, None, None, None, None, [], [], [])
  }

  /** An exception escaping a translation step. */
  datatype Outcome<T> = Ok(value: T) | Threw
}
