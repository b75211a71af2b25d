/** How `handleClient` turns one received message into the text it broadcasts: the `/msg`
    command test, the search for the space after the recipient, and the two output formats. */
module MessageDispatch {
  import opened Wrappers
  import opened CppString

  /** The four characters compared by `message.substr(0, 4) == "/msg"`. */
  const MsgCommand: string := "/msg"

  /** The three outcomes of classifying a message. The recipient of a `/msg` command is
      parsed but never used for delivery. */
  datatype Command =
    | Private(recipient: string, text: string)
    | Malformed
    | Chat(text: string)

  /** The message's first four characters are `/msg`; the fifth is not looked at. */
  predicate StartsWithMsg(message: string) {
    |message| >= 4 && message[..4] == MsgCommand
  }

  /** No space at index 5 or later: the case in which `find(' ', 5)` yields `npos`. */
  predicate NoSpaceFrom5(message: string) {
    forall i :: 5 <= i < |message| ==> message[i] != ' '
  }

  function Classify(message: string): (c: Command)
    ensures c.Chat? <==> !StartsWithMsg(message)
    ensures c.Chat? ==> c.text == message
    ensures c.Malformed? <==> StartsWithMsg(message) && NoSpaceFrom5(message)
    ensures c.Private? ==> ' ' !in c.recipient && message == message[..5] + c.recipient + " " + c.text
  {
    var head := Substr(message, 0, 4);
    assert |message| >= 4 ==> head == message[..4];
    if head == MsgCommand then
      match Find(message, ' ', 5)
      case None => Malformed
      case Some(pos) =>
        var recipient := Substr(message, 5, pos - 5);
        var text := Substr(message, pos + 1, |message|);
        assert recipient == message[5..pos];
        assert text == message[pos + 1..];
        assert message == message[..5] + message[5..pos] + [message[pos]] + message[pos + 1..];
        Private(recipient, text)
    else
      Chat(message)
  }

  /** The text broadcast for a classified message from `name`; nothing for a dropped command. */
  function Payload(name: string, c: Command): Option<string> {
    match c
    case Private(_, text) => Some("[Private from " + name + "]: " + text + "\n")
    case Malformed => None
    case Chat(text) => Some(name + ": " + text + "\n")
  }

  /** What one message from `name` puts on the wire, if anything. */
  function Outgoing(name: string, message: string): (r: Option<string>)
    ensures r.None? <==> StartsWithMsg(message) && NoSpaceFrom5(message)
    ensures !StartsWithMsg(message) ==> r == Some(name + ": " + message + "\n")
    ensures StartsWithMsg(message) && r.Some? ==>
      exists p :: 5 <= p < |message| && message[p] == ' ' && ' ' !in message[5..p]
        && r.value == "[Private from " + name + "]: " + message[p + 1..] + "\n"
  {
    var c := Classify(message);
    assert c.Private? ==>
      var p := 5 + |c.recipient|;
      message[5..p] == c.recipient && message[p] == ' ' && message[p + 1..] == c.text;
    Payload(name, c)
  }

  /** A command with recipient token `recipient` (no spaces) and body `text` classifies back
      to exactly that pair, whatever sits at index 4. */
  lemma ClassifyPrivateRoundTrip(fifth: char, recipient: string, text: string)
    requires ' ' !in recipient
    ensures Classify(MsgCommand + [fifth] + recipient + " " + text) == Private(recipient, text)
  {
    var m := MsgCommand + [fifth] + recipient + " " + text;
    var p := 5 + |recipient|;
    assert m[..4] == MsgCommand;
    assert m[5..p] == recipient;
    assert m[p] == ' ';
    assert forall i :: 5 <= i < p ==> m[i] != ' ' by {
      forall i | 5 <= i < p ensures m[i] != ' ' {
        assert m[i] == recipient[i - 5];
      }
    }
    var f := Find(m, ' ', 5);
    assert f == Some(p);
    assert m[p + 1..] == text;
  }

  /** The recipient token does not change what is sent: every `/msg` command with the same body
      broadcasts the same private-style line. */
  lemma PrivatePayloadIgnoresRecipient(name: string, fifth: char, recipient: string, text: string)
    requires ' ' !in recipient
    ensures Outgoing(name, MsgCommand + [fifth] + recipient + " " + text)
         == Some("[Private from " + name + "]: " + text + "\n")
  {
    ClassifyPrivateRoundTrip(fifth, recipient, text);
  }

  /** A `/msg` command of at most five characters can hold no space at index 5: it is dropped. */
  lemma ShortCommandDropped(name: string, message: string)
    requires StartsWithMsg(message) && |message| <= 5
    ensures Outgoing(name, message) == None
  {
  }

}
