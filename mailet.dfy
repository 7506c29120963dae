/**
 * The mailet API's values: mail addresses, the MIME part tree of a message,
 * and the Mail object that mailets and the mailet context hand around.
 */
module Mailet {
  import opened Wrappers
  import opened JavaStrings

  /** A domain name, as the domain list stores it. */
  type Domain = string

  /** A mailbox: local part and domain. */
  datatype MailAddress = MailAddress(localPart: string, domain: Domain)

  /** The envelope sender of a mail: none set, the null reverse path `<>`, or an address. */
  datatype MaybeSender = NoSender | NullSender | Sender(address: MailAddress)
  {
    /** Mail.hasSender: an actual address is set. */
    predicate HasSender() { Sender? }
  }

  /** Mail.DEFAULT: the state of a mail ready for processing from the root processor. */
  const DEFAULT: string := "root"

  /** A parsed Content-Type, `primaryType/subType`. */
  datatype ContentType = ContentType(primaryType: string, subType: string)

  /** Part.isMimeType: types compare without regard to case, and a sub-type of
      `*` matches every sub-type. */
  predicate IsMimeType(t: ContentType, primaryType: string, subType: string) {
    EqualsIgnoreCase(t.primaryType, primaryType) && (subType == "*" || EqualsIgnoreCase(t.subType, subType))
  }

  /** A body part (or the body of a message): its type and its content as
      Part.getContent returns it. */
  datatype Part = Part(contentType: ContentType, content: Content)

  /** A String for text types, a Multipart for the multipart types, an attached
      message for `message/rfc822`, raw bytes for everything else. */
  datatype Content =
    | Text(text: string)
    | Multipart(parts: seq<Part>)
    | Embedded(message: MimeMessage)
    | Bytes(data: seq<bv8>)

  /** A MIME message: the addresses of its From and recipient headers, and its body. */
  datatype MimeMessage = MimeMessage(from: seq<MailAddress>, recipients: seq<MailAddress>, body: Part)

  /** The delivery-status report a bounce sends back: the explanation as a
      text part and the original message attached. */
  function BounceReport(explanation: string, original: MimeMessage, sender: MailAddress): (m: MimeMessage)
    ensures m.recipients == [sender] && m.from == []
  {
    MimeMessage([], [sender],
      Part(ContentType("multipart", "mixed"), Multipart([
        Part(ContentType("text", "plain"), Text(explanation)),
        Part(ContentType("message", "rfc822"), Embedded(original))])))
  }

  /** A mail in processing: the envelope, the message, and the processor state. */
  class Mail {
    const name: string
    const sender: MaybeSender
    const recipients: seq<MailAddress>
    var message: MimeMessage
    /** Mail.getState: None until a state is set. */
    var state: Option<string>

    constructor (name: string, sender: MaybeSender, recipients: seq<MailAddress>,
                 message: MimeMessage, state: Option<string>)
      ensures this.name == name && this.sender == sender && this.recipients == recipients
      ensures this.message == message && this.state == state
    {
      this.name := name;
      this.sender := sender;
      this.recipients := recipients;
      this.message := message;
      this.state := state;
    }
  }
}
