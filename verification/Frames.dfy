/** The payloads of an exchange, as a server reads them off the wire. */
module Frames {
  import opened Bytes
  import opened Scanner
  import opened Printer
  import opened Exchange
  import Base64
  import Command
  import CommandLine
  import RoundTrip

  /** A client response is one line, which scans back to one string, its
      encoded payload, if and only if that string is within the ceiling. */
  lemma ClientResponseScansBack(payload: bytes, tail: bytes)
    ensures |Base64.Encode(payload)| <= MAX_LITERAL <==>
            Scan(ClientResponse(payload) + tail) ==
            Parsed([String(Base64.Encode(payload))], |ClientResponse(payload)|)
    ensures |Base64.Encode(payload)| > MAX_LITERAL ==> Scan(ClientResponse(payload) + tail).Failed?
  {
    hide Scan, Render, Tokens, Base64.Encode, Command.StringItem, StringOf;
    var text := Base64.Encode(payload);
    var piece := Piece(0, Command.StringItem(text));
    var pieces := [piece];
    Command.StringItemText(text);
    Command.RenderOne(piece);
    Command.Gaps();
    assert [] + StringOf(text) == StringOf(text);
    OnePieceFits(text, pieces);
    RoundTrip.ScanUndoesPrinting(pieces, tail);
  }

  lemma OnePieceFits(text: bytes, pieces: seq<Piece>)
    requires pieces == [Piece(0, Command.StringItem(text))]
    ensures ValidLine(pieces)
    ensures Fits(pieces) <==> |text| <= MAX_LITERAL
  {
    hide Command.StringItem;
    Command.StringItemText(text);
    assert Fits(pieces) <==> (pieces[0].item.LiteralText? ==> |pieces[0].item.octets| <= MAX_LITERAL);
  }

  /** The payload a server reads in a line of one string. */
  function Heard(line: bytes): Option<bytes> {
    match Scan(line)
    case Parsed(tokens, _) =>
      if |tokens| == 1 && tokens[0].String? then Base64.Decode(tokens[0].octets) else None
    case _ => None
  }

  /** The server hears the exact payload, whatever follows, if and only if its
      encoding is within the ceiling of a scanner. */
  lemma PayloadIsHeard(payload: bytes, tail: bytes)
    ensures Heard(ClientResponse(payload) + tail) == Some(payload) <==> |Base64.Encode(payload)| <= MAX_LITERAL
  {
    hide Scan, ClientResponse, Base64.Encode, Base64.Decode;
    ClientResponseScansBack(payload, tail);
    Base64.DecodeOfEncode(payload);
  }

  /** The initial payload a server reads in an AUTHENTICATE command. */
  function HeardAtOnce(line: bytes): Option<bytes> {
    match CommandLine.SecondArgument(line)
    case Some(text) => Base64.Decode(text)
    case None => None
  }

  /** So it is of a payload the command carries. */
  lemma InitialPayloadIsHeard(name: Command.MechanismName, payload: bytes, tail: bytes)
    ensures HeardAtOnce(Command.Command.Authenticate(name, Some(payload)).Serialize() + tail) == Some(payload)
            <==> |Base64.Encode(payload)| <= MAX_LITERAL
  {
    hide Scan, Base64.Encode, Base64.Decode, Command.Command.Serialize, Command.Command.Keyword;
    var c := Command.Command.Authenticate(name, Some(payload));
    CommandLine.CommandScansBack(c, tail);
    Base64.DecodeOfEncode(payload);
    CommandFits(name, payload);
  }

  lemma CommandFits(name: Command.MechanismName, payload: bytes)
    ensures Command.Command.Authenticate(name, Some(payload)).WithinCeiling() <==>
            |Base64.Encode(payload)| <= MAX_LITERAL
  {
    hide Base64.Encode, Command.MechanismName.Registered;
    NamesFit(name);
    var arguments := Command.Command.Authenticate(name, Some(payload)).Arguments();
    assert arguments[0] == String(name.Registered()) && arguments[1] == String(Base64.Encode(payload));
  }

  lemma NamesFit(name: Command.MechanismName)
    ensures |name.Registered()| <= MAX_LITERAL
  {
  }
}
