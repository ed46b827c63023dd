/** What the tokens of a line mean, and how lines add up to the reply of a
    server (src/rfc5804/response.rs). Text is kept as octets. */
module Response {
  import opened Bytes
  import opened Scanner

  datatype Status = Ok | No | Bye

  datatype Quota = MaxScripts | MaxSize

  datatype Code =
    | AuthTooWeak
    | EncryptNeeded
    | QuotaReached(detail: Option<Quota>)
    | Referral(url: bytes)
    | Sasl(data: bytes)
    | TransitionNeeded
    | TryLater
    | Active
    | Nonexistent
    | AlreadyExists
    | Warnings
    | Tag(tag: bytes)
    | Other(name: bytes)

  datatype DataToken = Text(octets: bytes) | Word(octets: bytes)

  datatype DataLine = DataLine(tokens: seq<DataToken>) {
    /** The octets of token `index`, provided it is a string. */
    function StringAt(index: nat): Option<bytes> {
      if index < |tokens| && tokens[index].Text? then Some(tokens[index].octets) else None
    }

    predicate HasAtom(atom: bytes) {
      exists i :: 0 <= i < |tokens| && tokens[i].Word? && EqIgnoreCase(tokens[i].octets, atom)
    }
  }

  datatype Completion = Completion(status: Status, code: Option<Code>, text: Option<bytes>) {
    /** The warning text attached to an accepted script. */
    function WarningText(): Option<bytes> {
      if code == Some(Warnings) then text else None
    }
  }

  datatype Line = Data(line: DataLine) | Final(completion: Completion)

  datatype Response = Response(data: seq<DataLine>, completion: Completion)

  /** The data tokens of a line, or its first parenthesis as an error. */
  function ReadData(tokens: seq<Token>): (r: Result<seq<DataToken>, ParseError>)
    ensures r.Success? ==> |r.value| == |tokens|
  {
    if tokens == [] then Success([])
    else
      match tokens[0]
      case Open => Failure(UnexpectedByte(LPAREN))
      case Close => Failure(UnexpectedByte(RPAREN))
      case String(octets) =>
        (match ReadData(tokens[1..])
         case Failure(e) => Failure(e)
         case Success(rest) => Success([Text(octets)] + rest))
      case Atom(octets) =>
        (match ReadData(tokens[1..])
         case Failure(e) => Failure(e)
         case Success(rest) => Success([Word(octets)] + rest))
  }

  /** The first closing parenthesis. */
  function FirstClose(tokens: seq<Token>): (r: Option<nat>)
    ensures r.Some? ==> r.value < |tokens| && tokens[r.value] == Close && Close !in tokens[..r.value]
    ensures r.None? ==> Close !in tokens
  {
    if tokens == [] then None
    else if tokens[0] == Close then Some(0)
    else
      match FirstClose(tokens[1..])
      case None => None
      case Some(i) =>
        assert tokens[..i + 1] == [tokens[0]] + tokens[1..][..i];
        Some(i + 1)
  }

  function ReadStatus(word: bytes): Option<Status> {
    if EqIgnoreCase(word, Ascii("OK")) then Some(Ok)
    else if EqIgnoreCase(word, Ascii("NO")) then Some(No)
    else if EqIgnoreCase(word, Ascii("BYE")) then Some(Bye)
    else None
  }

  /** A code named `head`, refined by `detail`, with the first string that
      follows the name. A detail is only read under QUOTA. */
  function NamedCode(name: bytes, head: bytes, detail: Option<bytes>, argument: bytes): Code {
    if EqIgnoreCase(head, Ascii("AUTH-TOO-WEAK")) then AuthTooWeak
    else if EqIgnoreCase(head, Ascii("ENCRYPT-NEEDED")) then EncryptNeeded
    else if EqIgnoreCase(head, Ascii("QUOTA")) then
      QuotaReached(
        if detail.Some? && EqIgnoreCase(detail.value, Ascii("MAXSCRIPTS")) then Some(MaxScripts)
        else if detail.Some? && EqIgnoreCase(detail.value, Ascii("MAXSIZE")) then Some(MaxSize)
        else None)
    else if EqIgnoreCase(head, Ascii("REFERRAL")) then Referral(argument)
    else if EqIgnoreCase(head, Ascii("SASL")) then Sasl(argument)
    else if EqIgnoreCase(head, Ascii("TRANSITION-NEEDED")) then TransitionNeeded
    else if EqIgnoreCase(head, Ascii("TRYLATER")) then TryLater
    else if EqIgnoreCase(head, Ascii("ACTIVE")) then Active
    else if EqIgnoreCase(head, Ascii("NONEXISTENT")) then Nonexistent
    else if EqIgnoreCase(head, Ascii("ALREADYEXISTS")) then AlreadyExists
    else if EqIgnoreCase(head, Ascii("WARNINGS")) then Warnings
    else if EqIgnoreCase(head, Ascii("TAG")) then Tag(argument)
    else Other(name)
  }

  /** A code from its tokens, parentheses left out. */
  function ReadCode(tokens: seq<Token>): Result<Code, ParseError> {
    if tokens == [] || !tokens[0].Atom? then Failure(EmptyResponseCode)
    else
      var name := tokens[0].octets;
      var argument := if |tokens| > 1 && tokens[1].String? then tokens[1].octets else [];
      match IndexOf(name, SLASH)
      case None => Success(NamedCode(name, name, None, argument))
      case Some(slash) => Success(NamedCode(name, name[..slash], Some(name[slash + 1..]), argument))
  }

  /** The text right after the status and its code; anything else is ignored. */
  function LeadingText(tokens: seq<Token>): Option<bytes> {
    if tokens != [] && tokens[0].String? then Some(tokens[0].octets) else None
  }

  function ReadCompletion(tokens: seq<Token>): Result<Completion, ParseError> {
    if tokens == [] then Failure(EmptyLine)
    else if !tokens[0].Atom? then Failure(UnexpectedByte(LPAREN))
    else
      match ReadStatus(tokens[0].octets)
      case None => Failure(UnknownStatus(tokens[0].octets))
      case Some(status) =>
        if |tokens| > 1 && tokens[1] == Open then
          match FirstClose(tokens[2..])
          case None => Failure(UnterminatedResponseCode)
          case Some(end) =>
            (match ReadCode(tokens[2..2 + end])
             case Failure(e) => Failure(e)
             case Success(code) => Success(Completion(status, Some(code), LeadingText(tokens[3 + end..]))))
        else Success(Completion(status, None, LeadingText(tokens[1..])))
  }

  /** A line opening on a string is data; any other is a completion. */
  function Classify(tokens: seq<Token>): Result<Line, ParseError> {
    if tokens != [] && tokens[0].String? then
      match ReadData(tokens)
      case Failure(e) => Failure(e)
      case Success(data) => Success(Data(DataLine(data)))
    else
      match ReadCompletion(tokens)
      case Failure(e) => Failure(e)
      case Success(completion) => Success(Final(completion))
  }

  /** The line `buf` opens with. */
  function ReadLine(buf: bytes): (p: Parsed<Line>)
    ensures p.Parsed? ==> 0 < p.consumed <= |buf|
  {
    match Scan(buf)
    case Incomplete => Incomplete
    case Failed(e) => Failed(e)
    case Parsed(tokens, n) =>
      match Classify(tokens)
      case Failure(e) => Failed(e)
      case Success(line) => Parsed(line, n)
  }

  function PrependData(data: seq<DataLine>, taken: nat, p: Parsed<Response>): Parsed<Response> {
    match p
    case Parsed(r, n) => Parsed(Response(data + r.data, r.completion), taken + n)
    case other => other
  }

  /** One response from the front of `buf`: data lines up to a completion. */
  function ReadResponse(buf: bytes): (p: Parsed<Response>)
    ensures p.Parsed? ==> 0 < p.consumed <= |buf|
    decreases |buf|
  {
    match ReadLine(buf)
    case Incomplete => Incomplete
    case Failed(e) => Failed(e)
    case Parsed(Final(completion), n) => Parsed(Response([], completion), n)
    case Parsed(Data(line), n) => PrependData([line], n, ReadResponse(buf[n..]))
  }

  method ParseLine(buf: bytes) returns (r: Parsed<Line>)
    requires |buf| <= ISIZE_MAX
    ensures r == ReadLine(buf)
  {
    hide Scan, Classify;
    var scanned := ScanLine(buf);
    match scanned {
      case Incomplete => return Incomplete;
      case Failed(e) => return Failed(e);
      case Parsed(tokens, consumed) =>
        match Classify(tokens) {
          case Failure(e) => return Failed(e);
          case Success(line) => return Parsed(line, consumed);
        }
    }
  }

  lemma PrependDataTwice(a: seq<DataLine>, i: nat, b: seq<DataLine>, j: nat, p: Parsed<Response>)
    ensures PrependData(a, i, PrependData(b, j, p)) == PrependData(a + b, i + j, p)
  {
    if p.Parsed? {
      assert a + (b + p.value.data) == (a + b) + p.value.data;
    }
  }

  lemma PrependNoData(p: Parsed<Response>)
    ensures PrependData([], 0, p) == p
  {
    if p.Parsed? {
      assert [] + p.value.data == p.value.data;
    }
  }

  /** Reads one response, walking the buffer a line at a time. */
  method ParseResponse(buf: bytes) returns (r: Parsed<Response>)
    requires |buf| <= ISIZE_MAX
    ensures r == ReadResponse(buf)
  {
    hide ReadLine;
    var data: seq<DataLine> := [];
    var consumed := 0;
    assert buf[0..] == buf;
    PrependNoData(ReadResponse(buf));
    while true
      invariant 0 <= consumed <= |buf|
      invariant ReadResponse(buf) == PrependData(data, consumed, ReadResponse(buf[consumed..]))
      decreases |buf| - consumed
    {
      var parsed := ParseLine(buf[consumed..]);
      match parsed {
        case Incomplete => return Incomplete;
        case Failed(e) => return Failed(e);
        case Parsed(Final(completion), n) =>
          assert data + [] == data;
          return Parsed(Response(data, completion), consumed + n);
        case Parsed(Data(line), n) =>
          assert buf[consumed..][n..] == buf[consumed + n..];
          PrependDataTwice(data, consumed, [line], n, ReadResponse(buf[consumed + n..]));
          data := data + [line];
          consumed := consumed + n;
      }
    }
  }
}
