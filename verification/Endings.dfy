/** How every AUTHENTICATE exchange ends, said of the lines of the server and
    the replies of the mechanism alone. */
module Endings {
  import opened Bytes
  import opened Scanner
  import opened Response
  import opened Reader
  import opened Replies
  import opened Exchange
  import opened ExchangeRun
  import opened Consent
  import Command
  import Base64
  import ResponsePrefix

  // -------------------------------------------------------------------------
  // The lines answered
  // -------------------------------------------------------------------------

  /** The stream opens with these data lines, which take up `n` octets. */
  predicate OpensWith(stream: bytes, data: seq<DataLine>, n: nat)
    decreases |data|
  {
    && n <= |stream|
    && if data == [] then n == 0
       else
         && ReadLine(stream).Parsed? && ReadLine(stream).value == Data(data[0])
         && ReadLine(stream).consumed <= n
         && OpensWith(stream[ReadLine(stream).consumed..], data[1..], n - ReadLine(stream).consumed)
  }

  /** Every one of them was answered: each that was fed to the mechanism decodes
      and was not refused. */
  predicate Engaged(m: Mechanism, heard: seq<SaslArg>, pending: Option<bytes>, data: seq<DataLine>) {
    && DecodeAll(Fed(pending, data)).Some?
    && Accepts(m, heard, DecodeAll(Fed(pending, data)).value)
  }

  /** What the mechanism has been told after them. */
  function ToldBy(heard: seq<SaslArg>, pending: Option<bytes>, data: seq<DataLine>): seq<SaslArg>
    requires DecodeAll(Fed(pending, data)).Some?
  {
    heard + Inputs(DecodeAll(Fed(pending, data)).value)
  }

  /** What was written to them: what was held back, and an answer to each of the
      others. */
  function WrittenTo(m: Mechanism, heard: seq<SaslArg>, pending: Option<bytes>, data: seq<DataLine>): seq<bytes>
    requires DecodeAll(Fed(pending, data)).Some?
  {
    (if pending.Some? && data != [] then [ClientResponse(pending.value)] else [])
    + Answers(m, heard, DecodeAll(Fed(pending, data)).value)
  }

  /** What is held back waits for the first of them. */
  function StillHeld(pending: Option<bytes>, data: seq<DataLine>): Option<bytes> {
    if data == [] then pending else None
  }

  // -------------------------------------------------------------------------
  // The line that ends it
  // -------------------------------------------------------------------------

  /** The mechanism refused the last thing it was told, and that is the outcome. */
  predicate RefusedLast(m: Mechanism, t: Transcript) {
    && m.react(t.heard).Refuse?
    && t.result == Failure(RefusedBy(m.react(t.heard).reason))
  }

  /** Told `closing` piece by piece, it refused the piece that ends at `i`, and
      none before. */
  predicate RefusedAt(m: Mechanism, told: seq<SaslArg>, closing: seq<SaslArg>, i: nat, last: Transcript) {
    && 0 < i <= |closing| && last.heard == told + closing[..i] && RefusedLast(m, last)
    && forall j :: 0 < j < i ==> !m.react(told + closing[..j]).Refuse?
  }

  /** A completion ends the exchange: a rejection is reported whole; an OK is
      unexpected while a word is held back; its data must decode, and the
      mechanism accept it and the end; the capabilities are refreshed on demand. */
  ghost predicate CompletionEnds(m: Mechanism, opts: Options, told: seq<SaslArg>, held: bool, c: Completion,
                           last: Transcript, refresh: AuthResult) {
    if c.status != Ok then last == Transcript([], told, Failure(RejectedBy(c)))
    else if held then last == Transcript([], told, Failure(UnexpectedOk))
    else if Closing(c).None? then last == Transcript([], told, Failure(InvalidBase64))
    else if !AcceptsClosing(m, told, c) then
      last.writes == [] && exists i: nat :: RefusedAt(m, told, Closing(c).value, i, last)
    else
      && last.heard == told + Closing(c).value
      && (if opts.ensureCapabilities then last.writes == [Ascii("CAPABILITY\r\n")] && last.result == refresh
          else last.writes == [] && last.result == Success(Capabilities([])))
  }

  /** A challenge cancels the exchange: it does not decode, or the mechanism
      refuses its payload. */
  predicate ChallengeEnds(m: Mechanism, told: seq<SaslArg>, line: DataLine, last: Transcript) {
    && last.writes == [Ascii("\"*\"\r\n")]
    && (if DecodeAll([line]).None? then last.heard == told && last.result == Failure(InvalidBase64)
        else last.heard == told + Inputs(DecodeAll([line]).value) && RefusedLast(m, last))
  }

  /** The rest of the stream ends the exchange. */
  ghost predicate EndsOn(m: Mechanism, opts: Options, told: seq<SaslArg>, held: bool, rest: bytes, last: Transcript,
                   refresh: AuthResult) {
    match ReadLine(rest)
    case Incomplete =>
      last == Transcript([], told, Failure(Broken(if |rest| > MAX_RESPONSE then ResponseTooLarge else Eof)))
    case Failed(e) => last == Transcript([], told, Failure(MalformedLine(e)))
    case Parsed(Final(c), _) => CompletionEnds(m, opts, told, held, c, last, refresh)
    case Parsed(Data(line), _) => !held && ChallengeEnds(m, told, line, last)
  }

  /** The exchange answered `data` and ended on what follows. */
  ghost predicate Ends(m: Mechanism, opts: Options, heard: seq<SaslArg>, pending: Option<bytes>, stream: bytes,
                 refresh: AuthResult, data: seq<DataLine>, n: nat, last: Transcript) {
    && OpensWith(stream, data, n) && Engaged(m, heard, pending, data)
    && EndsOn(m, opts, ToldBy(heard, pending, data), StillHeld(pending, data).Some?, stream[n..], last, refresh)
  }

  /** Its transcript. */
  function Told(m: Mechanism, heard: seq<SaslArg>, pending: Option<bytes>, data: seq<DataLine>,
                last: Transcript): Transcript
    requires DecodeAll(Fed(pending, data)).Some?
  {
    Transcript(WrittenTo(m, heard, pending, data) + last.writes, last.heard, last.result)
  }

  // -------------------------------------------------------------------------
  // One line
  // -------------------------------------------------------------------------

  /** What a completion leads to, as a transcript. */
  function Concluded(r: Reaction, refresh: AuthResult): Transcript
    requires !r.Answer?
  {
    match r
    case Cancel(cause, told) => Transcript([CANCEL_LINE], told, Failure(cause))
    case Stop(result, told) => Transcript([], told, result)
    case Refresh(told) => Transcript([Command.Command.Capability.Serialize()], told, refresh)
  }

  lemma WiredLines()
    ensures CANCEL_LINE == Ascii("\"*\"\r\n")
    ensures Command.Command.Capability.Serialize() == Ascii("CAPABILITY\r\n")
  {
  }

  /** Told the end, or the last data and then the end, the mechanism accepts
      both or refuses one of them first. */
  lemma ClosingRefused(m: Mechanism, told: seq<SaslArg>, c: Completion, last: Transcript)
    requires Closing(c).Some?
    ensures var closing := Closing(c).value;
            var first := m.react(told + closing[..1]).Refuse?;
            && |closing| >= 1 && closing[..|closing|] == closing
            && (AcceptsClosing(m, told, c) <==> !first && !m.react(told + closing).Refuse?)
            && ((exists i: nat :: RefusedAt(m, told, closing, i, last)) <==>
                RefusedLast(m, last) && last.heard == told + if first then closing[..1] else closing)
  {
    hide Base64.Decode, RefusedLast;
    var closing := Closing(c).value;
    assert closing[..|closing|] == closing && 1 <= |closing| <= 2;
    if m.react(told + closing[..1]).Refuse? {
      if RefusedLast(m, last) && last.heard == told + closing[..1] {
        assert RefusedAt(m, told, closing, 1, last);
      }
    } else if RefusedLast(m, last) && last.heard == told + closing {
      assert m.react(last.heard).Refuse? by { RefusesLast(m, last); }
      assert RefusedAt(m, told, closing, |closing|, last);
    }
    forall i: nat | RefusedAt(m, told, closing, i, last)
      ensures RefusedLast(m, last) && m.react(told + closing[..i]).Refuse?
    {
      RefusesLast(m, last);
    }
  }

  lemma RefusesLast(m: Mechanism, last: Transcript)
    requires RefusedLast(m, last)
    ensures m.react(last.heard).Refuse?
  {
  }

  lemma CompletionConcludes(m: Mechanism, opts: Options, told: seq<SaslArg>, pending: Option<bytes>, c: Completion,
                            last: Transcript, refresh: AuthResult)
    ensures var r := OnCompletion(m, opts, told, pending, c);
            !r.Answer?
            && (Concluded(r, refresh) == last <==> CompletionEnds(m, opts, told, pending.Some?, c, last, refresh))
  {
    hide Base64.Decode, Ascii, Command.Command.Serialize, CANCEL_LINE, AcceptsClosing, RefusedAt;
    WiredLines();
    if c.status == Ok && pending.None? && Closing(c).Some? {
      ClosingRefused(m, told, c, last);
      var closing := Closing(c).value;
      if |closing| == 2 {
        assert told + closing[..1] == told + [closing[0]] && told + [closing[0]] + [Done] == told + closing;
      } else {
        assert told + closing[..1] == told + [Done] == told + closing;
      }
    }
  }

  /** What a challenge leads to: an answer exactly when it engages. */
  lemma ChallengeConcludes(m: Mechanism, opts: Options, told: seq<SaslArg>, pending: Option<bytes>, line: DataLine,
                           last: Transcript, refresh: AuthResult)
    requires line.StringAt(0).Some?
    ensures var r := OnLine(m, opts, told, pending, Data(line));
            if r.Answer? then
              && Engaged(m, told, pending, [line])
              && r.heard == ToldBy(told, pending, [line]) && WrittenTo(m, told, pending, [line]) == [r.octets]
              && (pending.Some? || !ChallengeEnds(m, told, line, last))
            else
              && !Engaged(m, told, pending, [line]) && pending.None?
              && (Concluded(r, refresh) == last <==> ChallengeEnds(m, told, line, last))
  {
    hide Base64.Decode, Ascii, ClientResponse, Accepts, Command.Command.Serialize, CANCEL_LINE;
    WiredLines();
    var challenge := line.StringAt(0).value;
    assert [line][1..] == [];
    if pending.Some? {
      NothingFed(m, told);
    } else if Base64.Decode(challenge).Some? {
      OneFed(m, told, Base64.Decode(challenge).value);
      assert DecodeAll([line]) == Some([Base64.Decode(challenge).value] + []);
    }
  }

  lemma NothingFed(m: Mechanism, told: seq<SaslArg>)
    ensures Accepts(m, told, []) && told + Inputs([]) == told && Answers(m, told, []) == []
  {
  }

  lemma OneFed(m: Mechanism, told: seq<SaslArg>, p: bytes)
    ensures [p] + [] == [p] && told + Inputs([p]) == told + [Input(p)]
    ensures Accepts(m, told, [p]) <==> !m.react(told + [Input(p)]).Refuse?
    ensures Answers(m, told, [p]) == [ClientResponse(Payload(m, told + [Input(p)]))]
  {
    hide Inputs, Answers, Accepts, ClientResponse, Payload;
    assert [p] + [] == [p];
    AcceptsCons(m, told, p, []);
    InputsCons(told, p, []);
    AnswersCons(m, told, p, []);
    NothingFed(m, told + [Input(p)]);
  }

  /** Lines are answered one after the other. */
  lemma EngagedCons(m: Mechanism, heard: seq<SaslArg>, pending: Option<bytes>, line: DataLine, rest: seq<DataLine>)
    requires Engaged(m, heard, pending, [line])
    ensures var told := ToldBy(heard, pending, [line]);
            && (Engaged(m, heard, pending, [line] + rest) <==> Engaged(m, told, None, rest))
            && (Engaged(m, told, None, rest) ==>
                  && ToldBy(heard, pending, [line] + rest) == ToldBy(told, None, rest)
                  && WrittenTo(m, heard, pending, [line] + rest) ==
                     WrittenTo(m, heard, pending, [line]) + WrittenTo(m, told, None, rest))
  {
    hide Base64.Decode, Accepts, ClientResponse, Inputs, Answers;
    var told := ToldBy(heard, pending, [line]);
    assert ([line] + rest)[1..] == rest && [line][1..] == [];
    NothingFed(m, heard);
    if pending.None? {
      var p := Base64.Decode(line.StringAt(0).value).value;
      OneFed(m, heard, p);
      if DecodeAll(rest).Some? {
        var more := DecodeAll(rest).value;
        assert DecodeAll([line] + rest) == Some([p] + more);
        AcceptsCons(m, heard, p, more);
        InputsCons(heard, p, more);
        AnswersCons(m, heard, p, more);
      }
    }
  }

  // -------------------------------------------------------------------------
  // A stream
  // -------------------------------------------------------------------------

  /** One line of the reference. */
  lemma ReferenceLine(m: Mechanism, opts: Options, heard: seq<SaslArg>, pending: Option<bytes>, stream: bytes,
                      refresh: AuthResult)
    requires ReadLine(stream).Parsed?
    ensures var r := OnLine(m, opts, heard, pending, ReadLine(stream).value);
            Reference(m, opts, heard, pending, stream, refresh) ==
            if r.Answer? then
              After(r.octets, Reference(m, opts, r.heard, None, stream[ReadLine(stream).consumed..], refresh))
            else Concluded(r, refresh)
  {
    hide ReadLine, OnLine, Command.Command.Serialize;
  }

  /** The line at the front of a stream ends the exchange there and then. */
  lemma EndsAtOnce(m: Mechanism, opts: Options, heard: seq<SaslArg>, pending: Option<bytes>, stream: bytes,
                   refresh: AuthResult, last: Transcript)
    ensures EndsOn(m, opts, heard, pending.Some?, stream, last, refresh) ==>
              Reference(m, opts, heard, pending, stream, refresh) == last
    ensures var t := Reference(m, opts, heard, pending, stream, refresh);
            || (ReadLine(stream).Parsed? && OnLine(m, opts, heard, pending, ReadLine(stream).value).Answer?)
            || EndsOn(m, opts, heard, pending.Some?, stream, t, refresh)
  {
    hide ReadLine, OnLine, CompletionEnds, ChallengeEnds, Engaged, Concluded, ToldBy, WrittenTo;
    var t := Reference(m, opts, heard, pending, stream, refresh);
    match ReadLine(stream)
    case Parsed(line, n) =>
      ReferenceLine(m, opts, heard, pending, stream, refresh);
      LineConcludes(m, opts, heard, pending, stream, last, refresh);
      LineConcludes(m, opts, heard, pending, stream, t, refresh);
    case _ =>
  }

  lemma LineConcludes(m: Mechanism, opts: Options, heard: seq<SaslArg>, pending: Option<bytes>, stream: bytes,
                      last: Transcript, refresh: AuthResult)
    requires ReadLine(stream).Parsed?
    ensures var r := OnLine(m, opts, heard, pending, ReadLine(stream).value);
            if r.Answer? then !EndsOn(m, opts, heard, pending.Some?, stream, last, refresh)
            else Concluded(r, refresh) == last <==> EndsOn(m, opts, heard, pending.Some?, stream, last, refresh)
  {
    hide ReadLine, CompletionEnds, ChallengeEnds, Engaged, Concluded, ToldBy, WrittenTo, OnCompletion;
    match ReadLine(stream)
    case Parsed(Data(line), _) =>
      ResponsePrefix.LineOpensOnString(stream);
      ChallengeConcludes(m, opts, heard, pending, line, last, refresh);
    case Parsed(Final(c), _) =>
      CompletionConcludes(m, opts, heard, pending, c, last, refresh);
    case _ =>
  }

  lemma EngagedFirst(m: Mechanism, heard: seq<SaslArg>, pending: Option<bytes>, line: DataLine, rest: seq<DataLine>)
    requires Engaged(m, heard, pending, [line] + rest)
    ensures Engaged(m, heard, pending, [line])
  {
    hide Base64.Decode, Accepts, Inputs;
    assert ([line] + rest)[1..] == rest && [line][1..] == [];
    NothingFed(m, heard);
    if pending.None? {
      var p := Base64.Decode(line.StringAt(0).value).value;
      OneFed(m, heard, p);
      assert DecodeAll([line]) == Some([p] + []);
      assert DecodeAll([line] + rest) == Some([p] + DecodeAll(rest).value);
      AcceptsCons(m, heard, p, DecodeAll(rest).value);
    }
  }

  /** Nothing answered yet. */
  lemma NothingAnswered(m: Mechanism, heard: seq<SaslArg>, pending: Option<bytes>, last: Transcript)
    ensures Engaged(m, heard, pending, []) && ToldBy(heard, pending, []) == heard
    ensures Told(m, heard, pending, [], last) == last
  {
    hide Accepts, Answers, Inputs;
    NothingFed(m, heard);
  }

  /** One line answered, and then the others. */
  lemma OneMoreAnswered(m: Mechanism, opts: Options, heard: seq<SaslArg>, pending: Option<bytes>, stream: bytes,
                        refresh: AuthResult, line: DataLine, rest: seq<DataLine>, n: nat, last: Transcript)
    requires ReadLine(stream).Parsed? && ReadLine(stream).value == Data(line) && Engaged(m, heard, pending, [line])
    ensures var told, k := ToldBy(heard, pending, [line]), ReadLine(stream).consumed;
            k <= n && Ends(m, opts, told, None, stream[k..], refresh, rest, n - k, last) <==>
            Ends(m, opts, heard, pending, stream, refresh, [line] + rest, n, last)
  {
    hide ReadLine, EndsOn, Engaged, ToldBy, WrittenTo, DecodeAll;
    EngagedCons(m, heard, pending, line, rest);
    EngagedDecodes(m, heard, pending, [line]);
    EngagedDecodes(m, heard, pending, [line] + rest);
    EngagedDecodes(m, ToldBy(heard, pending, [line]), None, rest);
    var data, k := [line] + rest, ReadLine(stream).consumed;
    assert data[1..] == rest;
    if k <= n <= |stream| {
      assert stream[k..][n - k..] == stream[n..];
    }
  }

  lemma EngagedDecodes(m: Mechanism, heard: seq<SaslArg>, pending: Option<bytes>, data: seq<DataLine>)
    ensures Engaged(m, heard, pending, data) ==> DecodeAll(Fed(pending, data)).Some?
  {
    hide DecodeAll, Accepts;
  }

  /** An exchange on a stream ends in one way only. */
  lemma {:induction false} OnlyEnding(m: Mechanism, opts: Options, heard: seq<SaslArg>, pending: Option<bytes>,
                                      stream: bytes, refresh: AuthResult, data: seq<DataLine>, n: nat,
                                      last: Transcript)
    requires Ends(m, opts, heard, pending, stream, refresh, data, n, last)
    ensures Reference(m, opts, heard, pending, stream, refresh) == Told(m, heard, pending, data, last)
    decreases |data|
  {
    hide ReadLine, EndsOn, Engaged, ToldBy, WrittenTo, DecodeAll, Reference, OnLine, Told;
    if data == [] {
      NothingAnswered(m, heard, pending, last);
      assert stream[0..] == stream;
      EndsAtOnce(m, opts, heard, pending, stream, refresh, last);
    } else {
      var line, rest, k := data[0], data[1..], ReadLine(stream).consumed;
      assert data == [line] + rest;
      EngagedFirst(m, heard, pending, line, rest);
      EngagedDecodes(m, heard, pending, [line]);
      FrontAnswered(m, opts, heard, pending, stream, refresh, line, last);
      OneMoreAnswered(m, opts, heard, pending, stream, refresh, line, rest, n, last);
      OnlyEnding(m, opts, ToldBy(heard, pending, [line]), None, stream[k..], refresh, rest, n - k, last);
      ToldAfter(m, heard, pending, line, rest, last);
    }
  }

  /** The front line of a stream is answered. */
  lemma FrontAnswered(m: Mechanism, opts: Options, heard: seq<SaslArg>, pending: Option<bytes>, stream: bytes,
                      refresh: AuthResult, line: DataLine, last: Transcript)
    requires ReadLine(stream).Parsed? && ReadLine(stream).value == Data(line) && Engaged(m, heard, pending, [line])
    ensures |WrittenTo(m, heard, pending, [line])| == 1
    ensures var told, rest := ToldBy(heard, pending, [line]), stream[ReadLine(stream).consumed..];
            Reference(m, opts, heard, pending, stream, refresh) ==
            After(WrittenTo(m, heard, pending, [line])[0], Reference(m, opts, told, None, rest, refresh))
  {
    hide ReadLine, Engaged, ToldBy, WrittenTo, Reference, OnLine, Concluded, ChallengeEnds;
    ResponsePrefix.LineOpensOnString(stream);
    EngagedDecodes(m, heard, pending, [line]);
    ChallengeConcludes(m, opts, heard, pending, line, last, refresh);
    ReferenceLine(m, opts, heard, pending, stream, refresh);
  }

  lemma ToldAfter(m: Mechanism, heard: seq<SaslArg>, pending: Option<bytes>, line: DataLine, rest: seq<DataLine>,
                  last: Transcript)
    requires Engaged(m, heard, pending, [line]) && |WrittenTo(m, heard, pending, [line])| == 1
    requires Engaged(m, ToldBy(heard, pending, [line]), None, rest)
    ensures DecodeAll(Fed(pending, [line] + rest)).Some?
    ensures Told(m, heard, pending, [line] + rest, last) ==
            After(WrittenTo(m, heard, pending, [line])[0], Told(m, ToldBy(heard, pending, [line]), None, rest, last))
  {
    hide ToldBy, WrittenTo, Accepts, DecodeAll;
    EngagedCons(m, heard, pending, line, rest);
    var w, more := WrittenTo(m, heard, pending, [line]), WrittenTo(m, ToldBy(heard, pending, [line]), None, rest);
    assert w == [w[0]];
    assert w + more + last.writes == [w[0]] + (more + last.writes);
  }

  /** And it ends in one. */
  lemma {:induction false} SomeEnding(m: Mechanism, opts: Options, heard: seq<SaslArg>, pending: Option<bytes>,
                                      stream: bytes, refresh: AuthResult)
    returns (data: seq<DataLine>, n: nat, last: Transcript)
    ensures Ends(m, opts, heard, pending, stream, refresh, data, n, last)
    decreases |stream|
  {
    hide ReadLine, EndsOn, Engaged, ToldBy, WrittenTo, DecodeAll, Reference, OnLine, Told;
    data, n, last := [], 0, Reference(m, opts, heard, pending, stream, refresh);
    NothingAnswered(m, heard, pending, last);
    assert stream[0..] == stream;
    EndsAtOnce(m, opts, heard, pending, stream, refresh, last);
    if !EndsOn(m, opts, heard, pending.Some?, stream, last, refresh) {
      var line := AnsweredLine(m, opts, heard, pending, stream);
      var k := ReadLine(stream).consumed;
      EngagedDecodes(m, heard, pending, [line]);
      var rest: seq<DataLine>;
      var left: nat;
      rest, left, last := SomeEnding(m, opts, ToldBy(heard, pending, [line]), None, stream[k..], refresh);
      data, n := [line] + rest, k + left;
      OneMoreAnswered(m, opts, heard, pending, stream, refresh, line, rest, n, last);
    }
  }

  /** A line that is answered is a challenge that engages. */
  lemma AnsweredLine(m: Mechanism, opts: Options, heard: seq<SaslArg>, pending: Option<bytes>, stream: bytes)
    returns (line: DataLine)
    requires ReadLine(stream).Parsed? && OnLine(m, opts, heard, pending, ReadLine(stream).value).Answer?
    ensures ReadLine(stream).value == Data(line) && Engaged(m, heard, pending, [line])
  {
    hide ReadLine, Engaged, OnLine, Concluded, ChallengeEnds, ToldBy, WrittenTo, CompletionEnds;
    var last := Transcript([], [], Failure(UnexpectedOk));
    match ReadLine(stream).value
    case Data(data) =>
      line := data;
      ResponsePrefix.LineOpensOnString(stream);
      ChallengeConcludes(m, opts, heard, pending, line, last, last.result);
    case Final(c) =>
      CompletionConcludes(m, opts, heard, pending, c, last, last.result);
      FinalIsCompletion(m, opts, heard, pending, c);
  }

  lemma FinalIsCompletion(m: Mechanism, opts: Options, heard: seq<SaslArg>, pending: Option<bytes>, c: Completion)
    ensures OnLine(m, opts, heard, pending, Final(c)) == OnCompletion(m, opts, heard, pending, c)
  {
    hide OnCompletion;
  }

  // -------------------------------------------------------------------------
  // Whole exchanges
  // -------------------------------------------------------------------------

  /** The two mechanisms that are not carried. */
  predicate Uncarried(m: Mechanism) {
    m.name.Gssapi? || m.name.Gs2Krb5?
  }

  ghost predicate EndsWith(m: Mechanism, opts: Options, stream: bytes, refresh: AuthResult, t: Transcript,
                           data: seq<DataLine>, n: nat, last: Transcript) {
    && Ends(m, opts, [Begin], Held(m, opts), stream, refresh, data, n, last)
    && t == After(OpeningCommand(m, opts), Told(m, [Begin], Held(m, opts), data, last))
  }

  /** The transcript of an exchange on a stream: the mechanism is not carried, or
      refuses to begin, or else the command was written, some challenges were
      answered and the next line ended it. */
  ghost predicate Transcribes(m: Mechanism, opts: Options, stream: bytes, refresh: AuthResult, t: Transcript) {
    if Uncarried(m) then t == Transcript([], [], Failure(UnsupportedMechanism(m.name)))
    else if m.react([Begin]).Refuse? then t.writes == [] && t.heard == [Begin] && RefusedLast(m, t)
    else exists data, n: nat, last :: EndsWith(m, opts, stream, refresh, t, data, n, last)
  }

  /** Every exchange on a stream has exactly the transcript that its lines and
      the replies of its mechanism spell out. */
  lemma ExchangeTranscribes(m: Mechanism, opts: Options, stream: bytes, refresh: AuthResult, t: Transcript)
    ensures WholeExchange(m, opts, stream, refresh) == t <==> Transcribes(m, opts, stream, refresh, t)
  {
    hide Reference, Ends, Told, Command.Command.Serialize;
    if !Uncarried(m) && !m.react([Begin]).Refuse? {
      OpensWithCommand(m, opts);
      var data, n, last := SomeEnding(m, opts, [Begin], Held(m, opts), stream, refresh);
      OnlyEnding(m, opts, [Begin], Held(m, opts), stream, refresh, data, n, last);
      assert EndsWith(m, opts, stream, refresh, WholeExchange(m, opts, stream, refresh), data, n, last);
      forall d, k: nat, l | EndsWith(m, opts, stream, refresh, t, d, k, l)
        ensures t == WholeExchange(m, opts, stream, refresh)
      {
        OnlyEnding(m, opts, [Begin], Held(m, opts), stream, refresh, d, k, l);
      }
    }
  }

  lemma OpensWithCommand(m: Mechanism, opts: Options)
    requires !Uncarried(m) && !m.react([Begin]).Refuse?
    ensures OpenExchange(m, opts) == Opening(OpeningCommand(m, opts), Held(m, opts))
  {
    hide Command.Command.Serialize;
  }

  // -------------------------------------------------------------------------
  // On a response
  // -------------------------------------------------------------------------

  /** The data lines of a response, and its last line. */
  lemma {:induction false} ResponseOpensWith(stream: bytes) returns (n: nat)
    requires ReadResponse(stream).Parsed?
    ensures OpensWith(stream, ReadResponse(stream).value.data, n)
    ensures ReadLine(stream[n..]).Parsed? && ReadLine(stream[n..]).value == Final(ReadResponse(stream).value.completion)
    decreases |stream|
  {
    hide ReadLine;
    match ReadLine(stream)
    case Parsed(Final(_), _) =>
      n := 0;
      assert stream[0..] == stream;
    case Parsed(Data(_), k) =>
      n := ResponseOpensWith(stream[k..]);
      assert stream[k..][n..] == stream[k + n..];
      assert ReadResponse(stream).value.data[1..] == ReadResponse(stream[k..]).value.data;
      n := k + n;
    case _ =>
  }

  lemma {:induction false} OpensResponse(stream: bytes, data: seq<DataLine>, n: nat, c: Completion)
    requires OpensWith(stream, data, n)
    requires ReadLine(stream[n..]).Parsed? && ReadLine(stream[n..]).value == Final(c)
    ensures ReadResponse(stream).Parsed? && ReadResponse(stream).value == Response(data, c)
    decreases |data|
  {
    hide ReadLine, ReadResponse;
    if data == [] {
      assert stream[0..] == stream;
      FrontOfResponse(stream);
    } else {
      var k := ReadLine(stream).consumed;
      assert stream[k..][n - k..] == stream[n..];
      OpensResponse(stream[k..], data[1..], n - k, c);
      FrontOfResponse(stream);
      assert [data[0]] + data[1..] == data;
    }
  }

  lemma FrontOfResponse(stream: bytes)
    requires ReadLine(stream).Parsed?
    ensures var line, k := ReadLine(stream).value, ReadLine(stream).consumed;
            ReadResponse(stream) ==
            if line.Final? then Parsed(Response([], line.completion), k)
            else PrependData([line.line], k, ReadResponse(stream[k..]))
  {
    hide ReadLine;
  }

  /** An exchange that answers every challenge of a response ends on its
      completion. */
  lemma CompletionHasItsWay(m: Mechanism, opts: Options, stream: bytes, refresh: AuthResult) returns (last: Transcript)
    requires !Uncarried(m) && !m.react([Begin]).Refuse?
    requires ReadResponse(stream).Parsed? && Engaged(m, [Begin], Held(m, opts), ReadResponse(stream).value.data)
    ensures var data, held := ReadResponse(stream).value.data, Held(m, opts);
            && DecodeAll(Fed(held, data)).Some?
            && CompletionEnds(m, opts, ToldBy([Begin], held, data), StillHeld(held, data).Some?,
                              ReadResponse(stream).value.completion, last, refresh)
            && WholeExchange(m, opts, stream, refresh) ==
               After(OpeningCommand(m, opts), Told(m, [Begin], held, data, last))
  {
    hide ReadLine, Engaged, ToldBy, WrittenTo, DecodeAll, Reference, Told, CompletionEnds, OpeningCommand, OpensWith;
    hide ReadResponse, WholeExchange, Held, OnLine;
    var data, c, held := ReadResponse(stream).value.data, ReadResponse(stream).value.completion, Held(m, opts);
    EngagedDecodes(m, [Begin], held, data);
    var n := ResponseOpensWith(stream);
    var told, still := ToldBy([Begin], held, data), StillHeld(held, data);
    OpensWithin(stream, data, n);
    last := Reference(m, opts, told, still, stream[n..], refresh);
    EndsAtOnce(m, opts, told, still, stream[n..], refresh, last);
    FinalIsNotAnswered(m, opts, told, still, c);
    assert Ends(m, opts, [Begin], held, stream, refresh, data, n, last);
    assert EndsWith(m, opts, stream, refresh, After(OpeningCommand(m, opts), Told(m, [Begin], held, data, last)), data,
                    n, last);
    ExchangeTranscribes(m, opts, stream, refresh, After(OpeningCommand(m, opts), Told(m, [Begin], held, data, last)));
  }

  lemma OpensWithin(stream: bytes, data: seq<DataLine>, n: nat)
    requires OpensWith(stream, data, n)
    ensures n <= |stream|
  {
  }

  lemma FinalIsNotAnswered(m: Mechanism, opts: Options, told: seq<SaslArg>, pending: Option<bytes>, c: Completion)
    ensures !OnLine(m, opts, told, pending, Final(c)).Answer?
  {
    hide CompletionEnds;
    var t := Transcript([], [], Failure(UnexpectedOk));
    CompletionConcludes(m, opts, told, pending, c, t, t.result);
  }

  /** A failed refresh is no rejection of the exchange. */
  predicate OfRefresh(r: AuthResult) {
    r.Failure? ==> r.error.RefreshFailed?
  }

  /** An exchange reports a rejection if and only if its mechanism began, and
      then the server sent a NO or a BYE, every challenge before it answered; and
      what it reports is that completion, whatever was held back. */
  lemma RejectionIsReported(m: Mechanism, opts: Options, stream: bytes, refresh: AuthResult, c: Completion)
    requires OfRefresh(refresh)
    ensures WholeExchange(m, opts, stream, refresh).result == Failure(RejectedBy(c)) <==>
            && !Uncarried(m) && !m.react([Begin]).Refuse?
            && ReadResponse(stream).Parsed? && ReadResponse(stream).value.completion == c && c.status != Ok
            && Engaged(m, [Begin], Held(m, opts), ReadResponse(stream).value.data)
  {
    hide ReadLine, Engaged, ToldBy, WrittenTo, DecodeAll, OpeningCommand, OpensWith, ReadResponse, WholeExchange, Held;
    var t := WholeExchange(m, opts, stream, refresh);
    ExchangeTranscribes(m, opts, stream, refresh, t);
    if !Uncarried(m) && !m.react([Begin]).Refuse? {
      var data, n: nat, last :| EndsWith(m, opts, stream, refresh, t, data, n, last);
      RejectedLine(m, opts, stream, refresh, data, n, last, c);
      if ReadResponse(stream).Parsed? && Engaged(m, [Begin], Held(m, opts), ReadResponse(stream).value.data) {
        var end := CompletionHasItsWay(m, opts, stream, refresh);
      }
    }
  }

  /** Only a rejection is reported as one. */
  lemma RejectedLine(m: Mechanism, opts: Options, stream: bytes, refresh: AuthResult, data: seq<DataLine>, n: nat,
                     last: Transcript, c: Completion)
    requires Ends(m, opts, [Begin], Held(m, opts), stream, refresh, data, n, last) && OfRefresh(refresh)
    ensures last.result == Failure(RejectedBy(c)) ==>
              && ReadResponse(stream).Parsed? && ReadResponse(stream).value == Response(data, c) && c.status != Ok
  {
    hide ReadLine, Engaged, ToldBy, DecodeAll, OpensWith, ReadResponse, Held, AcceptsClosing, Closing;
    OpensWithin(stream, data, n);
    match ReadLine(stream[n..])
    case Parsed(Final(d), _) => OpensResponse(stream, data, n, d);
    case _ =>
  }
}
