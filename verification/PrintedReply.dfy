/** Replies a server prints, read back. */
module PrintedReply {
  import opened Bytes
  import opened Scanner
  import opened Response
  import opened Printer
  import Command
  import RoundTrip

  const OK_LINE: bytes := Ascii("OK") + CRLF

  const PLAIN_OK := Completion(Ok, None, None)

  lemma OkTokens()
    ensures Classify([Atom(Ascii("OK"))]) == Success(Final(PLAIN_OK))
  {
  }

  /** The bare OK line, whatever follows it. */
  lemma OkReads(tail: bytes)
    ensures ReadLine(OK_LINE + tail) == Parsed(Final(PLAIN_OK), 4)
    ensures ReadResponse(OK_LINE + tail) == Parsed(Response([], PLAIN_OK), 4)
  {
    hide Scan, Classify, Render, Tokens;
    var pieces := [Piece(0, Item.Word(Ascii("OK")))];
    Command.NoArguments(Ascii("OK"));
    Command.CapitalsAreAWord("OK");
    RoundTrip.ScanUndoesPrinting(pieces, tail);
    OkTokens();
  }

  /** A string on a line of its own, written as a literal, and then a bare
      OK. */
  function ScriptReply(script: bytes, plus: bool): bytes {
    Literal(script, plus) + CRLF + OK_LINE
  }

  /** The client reads the octets back, and takes the reply whole. */
  lemma {:induction false} ScriptReplyReads(script: bytes, plus: bool)
    requires |script| <= MAX_LITERAL
    ensures ReadResponse(ScriptReply(script, plus)) ==
            Parsed(Response([DataLine([DataToken.Text(script)])], PLAIN_OK), |ScriptReply(script, plus)|)
  {
    hide Scan, ReadLine, Render, Tokens, Literal, ReadData;
    var item := LiteralText(script, plus);
    var pieces := [Piece(0, item)];
    Command.RenderOne(Piece(0, item));
    Command.Gaps();
    assert [] + Literal(script, plus) == Literal(script, plus);
    var line := Literal(script, plus) + CRLF;
    RoundTrip.ScanUndoesPrinting(pieces, OK_LINE);
    assert Scan(line + OK_LINE) == Parsed([String(script)], |line|);
    LiteralLine(script, line);
    OkReads([]);
    assert OK_LINE + [] == OK_LINE;
    assert (line + OK_LINE)[|line|..] == OK_LINE;
    assert [DataLine([DataToken.Text(script)])] + [] == [DataLine([DataToken.Text(script)])];
  }

  lemma LiteralLine(script: bytes, line: bytes)
    requires Scan(line + OK_LINE) == Parsed([String(script)], |line|)
    ensures ReadLine(line + OK_LINE) == Parsed(Data(DataLine([DataToken.Text(script)])), |line|)
  {
    hide Scan;
    assert [String(script)][1..] == [];
    assert ReadData([String(script)]) == Success([DataToken.Text(script)] + []);
    assert [DataToken.Text(script)] + [] == [DataToken.Text(script)];
    assert Classify([String(script)]) == Success(Data(DataLine([DataToken.Text(script)])));
  }
}
