/** AUTHENTICATE succeeds only with the full consent of its mechanism. */
module Consent {
  import opened Bytes
  import opened Response
  import opened Replies
  import opened Exchange
  import opened ExchangeRun
  import C = ExchangeCuts
  import Command
  import Base64
  import ResponsePrefix

  // -------------------------------------------------------------------------
  // What success takes
  // -------------------------------------------------------------------------

  /** The payload of every challenge, when all of them decode. */
  function DecodeAll(data: seq<DataLine>): (r: Option<seq<bytes>>)
    ensures r.Some? ==> |r.value| == |data|
  {
    if data == [] then Some([])
    else if data[0].StringAt(0).None? then None
    else
      match (Base64.Decode(data[0].StringAt(0).value), DecodeAll(data[1..]))
      case (Some(octets), Some(rest)) => Some([octets] + rest)
      case _ => None
  }

  function Inputs(payloads: seq<bytes>): (s: seq<SaslArg>)
    ensures |s| == |payloads|
  {
    seq(|payloads|, i requires 0 <= i < |payloads| => Input(payloads[i]))
  }

  /** The mechanism, having heard `heard`, refuses none of the payloads. */
  predicate Accepts(m: Mechanism, heard: seq<SaslArg>, payloads: seq<bytes>) {
    forall i :: 0 < i <= |payloads| ==> !m.react(heard + Inputs(payloads[..i])).Refuse?
  }

  /** Everything it is told once the challenges are over. */
  function Closing(c: Completion): Option<seq<SaslArg>> {
    if c.code.Some? && c.code.value.Sasl? then
      match Base64.Decode(c.code.value.data)
      case None => None
      case Some(octets) => Some([Input(octets), Done])
    else Some([Done])
  }

  /** It refuses neither the data riding on the completion nor the end. */
  predicate AcceptsClosing(m: Mechanism, heard: seq<SaslArg>, c: Completion) {
    Closing(c).Some?
    && forall i :: 0 < i <= |Closing(c).value| ==> !m.react(heard + Closing(c).value[..i]).Refuse?
  }

  /** The challenges fed to the mechanism: a payload held back answers the
      first one instead. */
  function Fed(pending: Option<bytes>, data: seq<DataLine>): seq<DataLine> {
    if pending.Some? && data != [] then data[1..] else data
  }

  predicate Consented(m: Mechanism, heard: seq<SaslArg>, pending: Option<bytes>, r: Response) {
    && r.completion.status == Ok
    && (pending.Some? ==> r.data != [])
    && DecodeAll(Fed(pending, r.data)).Some?
    && var payloads := DecodeAll(Fed(pending, r.data)).value;
       Accepts(m, heard, payloads) && AcceptsClosing(m, heard + Inputs(payloads), r.completion)
  }

  function Payload(m: Mechanism, heard: seq<SaslArg>): bytes {
    match m.react(heard)
    case Send(octets) => octets
    case _ => []
  }

  /** One client response for each payload fed. */
  function Answers(m: Mechanism, heard: seq<SaslArg>, payloads: seq<bytes>): (s: seq<bytes>)
    ensures |s| == |payloads|
  {
    seq(|payloads|, i requires 0 <= i < |payloads| => ClientResponse(Payload(m, heard + Inputs(payloads[..i + 1]))))
  }

  /** The transcript of a consented exchange. */
  function Agreed(m: Mechanism, heard: seq<SaslArg>, pending: Option<bytes>, r: Response): Transcript
    requires Consented(m, heard, pending, r)
  {
    var payloads := DecodeAll(Fed(pending, r.data)).value;
    Transcript(
      (if pending.Some? then [ClientResponse(pending.value)] else []) + Answers(m, heard, payloads),
      heard + Inputs(payloads) + Closing(r.completion).value,
      Success(NO_CAPABILITIES))
  }

  // -------------------------------------------------------------------------
  // One payload at a time
  // -------------------------------------------------------------------------

  lemma InputsCons(heard: seq<SaslArg>, p: bytes, rest: seq<bytes>)
    ensures heard + Inputs([p] + rest) == heard + [Input(p)] + Inputs(rest)
  {
  }

  lemma AcceptsCons(m: Mechanism, heard: seq<SaslArg>, p: bytes, rest: seq<bytes>)
    ensures Accepts(m, heard, [p] + rest) <==>
            !m.react(heard + [Input(p)]).Refuse? && Accepts(m, heard + [Input(p)], rest)
  {
    hide Inputs;
    var all := [p] + rest;
    forall i | 0 < i <= |all|
      ensures heard + Inputs(all[..i]) == heard + [Input(p)] + Inputs(rest[..i - 1])
    {
      assert all[..i] == [p] + rest[..i - 1];
      InputsCons(heard, p, rest[..i - 1]);
    }
    NoInputs(heard + [Input(p)]);
    assert rest[..0] == [];
    if Accepts(m, heard, all) {
      assert heard + Inputs(all[..1]) == heard + [Input(p)];
      forall i | 0 < i <= |rest|
        ensures !m.react(heard + [Input(p)] + Inputs(rest[..i])).Refuse?
      {
        assert heard + Inputs(all[..i + 1]) == heard + [Input(p)] + Inputs(rest[..i + 1 - 1]);
      }
    }
  }

  lemma NoInputs(heard: seq<SaslArg>)
    ensures heard + Inputs([]) == heard
  {
  }

  lemma AnswersCons(m: Mechanism, heard: seq<SaslArg>, p: bytes, rest: seq<bytes>)
    ensures Answers(m, heard, [p] + rest) ==
            [ClientResponse(Payload(m, heard + [Input(p)]))] + Answers(m, heard + [Input(p)], rest)
  {
    hide Inputs, ClientResponse, Payload;
    var all := [p] + rest;
    forall i | 0 <= i < |all|
      ensures heard + Inputs(all[..i + 1]) == heard + [Input(p)] + Inputs(rest[..i])
    {
      assert all[..i + 1] == [p] + rest[..i];
      InputsCons(heard, p, rest[..i]);
    }
    NoInputs(heard + [Input(p)]);
    assert rest[..0] == [];
  }

  // -------------------------------------------------------------------------
  // The two directions
  // -------------------------------------------------------------------------

  /** The end of the exchange, seen from its completion. */
  lemma CompletionConsent(m: Mechanism, opts: Options, heard: seq<SaslArg>, pending: Option<bytes>, c: Completion)
    requires !opts.ensureCapabilities
    ensures var r := OnCompletion(m, opts, heard, pending, c);
            r.Stop? && (r.result.Success? <==> Consented(m, heard, pending, Response([], c)))
            && (r.result.Success? ==> Transcript([], r.heard, r.result) == Agreed(m, heard, pending, Response([], c)))
  {
    hide Base64.Decode;
    NoInputs(heard);
    assert DecodeAll([]) == Some([]);
    if Closing(c).Some? {
      var told := Closing(c).value;
      assert told[..1] == [told[0]] && told[..|told|] == told;
      if |told| == 2 {
        assert heard + [told[0]] + [Done] == heard + told;
        assert AcceptsClosing(m, heard, c) <==>
               !m.react(heard + told[..1]).Refuse? && !m.react(heard + told[..2]).Refuse?;
      } else {
        assert AcceptsClosing(m, heard, c) <==> !m.react(heard + told[..1]).Refuse?;
      }
    }
  }

  function Cons(line: DataLine, r: Response): Response {
    Response([line] + r.data, r.completion)
  }

  /** A payload held back answers the first challenge. */
  lemma HeldConsent(m: Mechanism, heard: seq<SaslArg>, held: bytes, line: DataLine, r: Response)
    ensures Consented(m, heard, Some(held), Cons(line, r)) <==> Consented(m, heard, None, r)
    ensures Consented(m, heard, None, r) ==>
              Agreed(m, heard, Some(held), Cons(line, r)) == After(ClientResponse(held), Agreed(m, heard, None, r))
  {
    hide ClientResponse, DecodeAll, Accepts, AcceptsClosing, Closing, Answers, Inputs;
    assert Fed(Some(held), Cons(line, r).data) == r.data;
    if Consented(m, heard, None, r) {
      var payloads := DecodeAll(r.data).value;
      assert [] + Answers(m, heard, payloads) == Answers(m, heard, payloads);
    }
  }

  /** A challenge that decodes is fed. */
  lemma FedConsent(m: Mechanism, heard: seq<SaslArg>, line: DataLine, payload: bytes, r: Response)
    requires line.StringAt(0).Some? && Base64.Decode(line.StringAt(0).value) == Some(payload)
    ensures var told := heard + [Input(payload)];
            && (Consented(m, heard, None, Cons(line, r)) <==> !m.react(told).Refuse? && Consented(m, told, None, r))
            && (Consented(m, heard, None, Cons(line, r)) ==>
                  Agreed(m, heard, None, Cons(line, r)) ==
                    After(ClientResponse(Payload(m, told)), Agreed(m, told, None, r)))
  {
    hide ClientResponse, Accepts, AcceptsClosing, Closing, Answers, Inputs, Base64.Decode, Payload;
    assert Cons(line, r).data[1..] == r.data;
    if DecodeAll(r.data).Some? {
      var rest := DecodeAll(r.data).value;
      assert DecodeAll(Cons(line, r).data) == Some([payload] + rest);
      AcceptsCons(m, heard, payload, rest);
      InputsCons(heard, payload, rest);
      AnswersCons(m, heard, payload, rest);
    }
  }

  /** One challenge, seen from the response it belongs to. */
  lemma ChallengeConsent(m: Mechanism, opts: Options, heard: seq<SaslArg>, pending: Option<bytes>, line: DataLine,
                         r: Response)
    requires line.StringAt(0).Some?
    ensures var reaction := OnLine(m, opts, heard, pending, Data(line));
            if reaction.Answer? then
              && (Consented(m, heard, pending, Cons(line, r)) <==> Consented(m, reaction.heard, None, r))
              && (Consented(m, reaction.heard, None, r) ==>
                    Agreed(m, heard, pending, Cons(line, r)) ==
                      After(reaction.octets, Agreed(m, reaction.heard, None, r)))
            else reaction.Cancel? && !Consented(m, heard, pending, Cons(line, r))
  {
    hide ClientResponse, Agreed, Base64.Decode, Consented;
    if pending.Some? {
      HeldConsent(m, heard, pending.value, line, r);
    } else if Base64.Decode(line.StringAt(0).value).Some? {
      FedConsent(m, heard, line, Base64.Decode(line.StringAt(0).value).value, r);
    } else {
      UndecodedConsent(m, heard, line, r);
    }
  }

  lemma UndecodedConsent(m: Mechanism, heard: seq<SaslArg>, line: DataLine, r: Response)
    requires line.StringAt(0).Some? && Base64.Decode(line.StringAt(0).value).None?
    ensures !Consented(m, heard, None, Cons(line, r))
  {
    hide Base64.Decode, Accepts, AcceptsClosing;
  }

  /** On a stream, the exchange succeeds if and only if the stream opens with a
      response and the mechanism consents to all of it; what it then wrote and
      told the mechanism is exactly what was agreed. */
  lemma {:induction false} ReferenceConsent(m: Mechanism, opts: Options, heard: seq<SaslArg>, pending: Option<bytes>,
                                            stream: bytes, refresh: AuthResult)
    requires !opts.ensureCapabilities
    ensures var t := Reference(m, opts, heard, pending, stream, refresh);
            && (t.result.Success? <==>
                ReadResponse(stream).Parsed? && Consented(m, heard, pending, ReadResponse(stream).value))
            && (t.result.Success? ==> t == Agreed(m, heard, pending, ReadResponse(stream).value))
    decreases |stream|
  {
    hide ReadLine, OnLine, Consented, Agreed, OnCompletion;
    match ReadLine(stream)
    case Parsed(Final(c), n) =>
      CompletionConsent(m, opts, heard, pending, c);
      OnFinal(m, opts, heard, pending, c);
    case Parsed(Data(line), n) =>
      ResponsePrefix.LineOpensOnString(stream);
      var reaction := OnLine(m, opts, heard, pending, Data(line));
      if ReadResponse(stream[n..]).Parsed? {
        ChallengeConsent(m, opts, heard, pending, line, ReadResponse(stream[n..]).value);
      } else {
        ChallengeConsent(m, opts, heard, pending, line, Response([], Completion(Ok, None, None)));
      }
      if reaction.Answer? {
        ReferenceConsent(m, opts, reaction.heard, None, stream[n..], refresh);
      }
    case _ =>
  }

  lemma OnFinal(m: Mechanism, opts: Options, heard: seq<SaslArg>, pending: Option<bytes>, c: Completion)
    ensures OnLine(m, opts, heard, pending, Final(c)) == OnCompletion(m, opts, heard, pending, c)
  {
    hide OnCompletion;
  }

  // -------------------------------------------------------------------------
  // Whole runs
  // -------------------------------------------------------------------------

  /** The mechanism's first word, if it has one. */
  function FirstWord(m: Mechanism): Option<bytes> {
    match m.react([Begin])
    case Send(octets) => Some(octets)
    case _ => None
  }

  predicate Inlined(m: Mechanism, opts: Options) {
    opts.initialResponse && m.name != Command.Login
  }

  /** The first word, when it waits for the first challenge. */
  function Held(m: Mechanism, opts: Options): Option<bytes> {
    if Inlined(m, opts) then None else FirstWord(m)
  }

  /** A stream opens with a response the mechanism consents to, after accepting
      to begin. */
  predicate Willing(m: Mechanism, opts: Options, stream: bytes) {
    && Supported(m.name) && !m.react([Begin]).Refuse?
    && ReadResponse(stream).Parsed? && Consented(m, [Begin], Held(m, opts), ReadResponse(stream).value)
  }

  /** The command, which carries the first word when it is inlined. */
  function OpeningCommand(m: Mechanism, opts: Options): bytes {
    Command.Command.Authenticate(m.name, if Inlined(m, opts) then FirstWord(m) else None).Serialize()
  }

  /** The whole transcript of a consented exchange: the command, the
      answers, of which the first is the first word when it is not inlined, and
      the refresh when one is asked for. */
  function Granted(m: Mechanism, opts: Options, r: Response, refresh: AuthResult): Transcript
    requires Consented(m, [Begin], Held(m, opts), r)
  {
    var agreed := Agreed(m, [Begin], Held(m, opts), r);
    After(OpeningCommand(m, opts), if opts.ensureCapabilities then ThenRefresh(agreed, refresh) else agreed)
  }

  // -------------------------------------------------------------------------
  // With a capability refresh
  // -------------------------------------------------------------------------

  /** A transcript that goes on to refresh the capabilities where it succeeded. */
  function ThenRefresh(t: Transcript, refresh: AuthResult): Transcript {
    if t.result.Success? then Transcript(t.writes + [Command.Command.Capability.Serialize()], t.heard, refresh)
    else t
  }

  lemma AfterThenRefresh(octets: bytes, t: Transcript, refresh: AuthResult)
    ensures ThenRefresh(After(octets, t), refresh) == After(octets, ThenRefresh(t, refresh))
  {
    hide Command.Command.Serialize, Refreshed;
    var command := Command.Command.Capability.Serialize();
    assert [octets] + t.writes + [command] == [octets] + (t.writes + [command]);
  }

  function Unrefreshed(opts: Options): Options {
    opts.(ensureCapabilities := false)
  }

  /** What a line leads to with a refresh and without one. */
  lemma ReactsAlike(m: Mechanism, opts: Options, heard: seq<SaslArg>, pending: Option<bytes>, line: Line)
    requires opts.ensureCapabilities
    ensures var (on, off) := (OnLine(m, opts, heard, pending, line),
            OnLine(m, Unrefreshed(opts), heard, pending, line));
            if off.Stop? && off.result.Success? then on == Refresh(off.heard) else on == off
  {
    hide Base64.Decode, Consult;
  }

  /** Asking for a refresh changes nothing but what follows a success. */
  lemma {:induction false} RefreshOnlyAdds(m: Mechanism, opts: Options, heard: seq<SaslArg>, pending: Option<bytes>,
                                           stream: bytes, refresh: AuthResult)
    requires opts.ensureCapabilities
    ensures Reference(m, opts, heard, pending, stream, refresh) ==
            ThenRefresh(Reference(m, Unrefreshed(opts), heard, pending, stream, refresh), refresh)
    decreases |stream|
  {
    hide ReadLine, OnLine, Command.Command.Serialize, Unrefreshed;
    if ReadLine(stream).Parsed? {
      var line, n := ReadLine(stream).value, ReadLine(stream).consumed;
      ReactsAlike(m, opts, heard, pending, line);
      RefreshNeedsAsking(m, opts, heard, pending, line);
      var r := OnLine(m, opts, heard, pending, line);
      if r.Answer? {
        RefreshOnlyAdds(m, opts, r.heard, None, stream[n..], refresh);
        AfterThenRefresh(r.octets, Reference(m, Unrefreshed(opts), r.heard, None, stream[n..], refresh), refresh);
      }
    }
  }

  lemma RefreshNeedsAsking(m: Mechanism, opts: Options, heard: seq<SaslArg>, pending: Option<bytes>, line: Line)
    ensures !OnLine(m, Unrefreshed(opts), heard, pending, line).Refresh?
  {
    hide Base64.Decode, Consult;
  }

  /** An exchange that refreshes the capabilities is the one that does not,
      with the refresh after a success. */
  lemma RefreshedExchange(m: Mechanism, opts: Options, stream: bytes, refresh: AuthResult)
    requires opts.ensureCapabilities
    ensures WholeExchange(m, opts, stream, refresh) ==
            ThenRefresh(WholeExchange(m, Unrefreshed(opts), stream, refresh), refresh)
  {
    hide Reference, ThenRefresh, Command.Command.Serialize, Consult;
    OpensAlike(m, opts);
    match OpenExchange(m, opts)
    case NoOpening(e) => FailureStays(Transcript([], if Supported(m.name) then [Begin] else [], Failure(e)), refresh);
    case Opening(command, pending) =>
      RefreshOnlyAdds(m, opts, [Begin], pending, stream, refresh);
      AfterThenRefresh(command, Reference(m, Unrefreshed(opts), [Begin], pending, stream, refresh), refresh);
  }

  lemma OpensAlike(m: Mechanism, opts: Options)
    ensures OpenExchange(m, opts) == OpenExchange(m, Unrefreshed(opts))
  {
    hide Consult, Command.Command.Serialize;
  }

  lemma FailureStays(t: Transcript, refresh: AuthResult)
    requires t.result.Failure?
    ensures ThenRefresh(t, refresh) == t
  {
  }

  // -------------------------------------------------------------------------
  // Every run
  // -------------------------------------------------------------------------

  /** A whole exchange without a refresh. */
  lemma PlainConsent(m: Mechanism, opts: Options, stream: bytes, refresh: AuthResult)
    requires !opts.ensureCapabilities
    ensures WholeExchange(m, opts, stream, refresh).result.Success? <==> Willing(m, opts, stream)
    ensures Willing(m, opts, stream) ==>
              WholeExchange(m, opts, stream, refresh) == Granted(m, opts, ReadResponse(stream).value, refresh)
  {
    hide Reference, Consented, Agreed, Command.Command.Serialize, ReadResponse;
    if OpenExchange(m, opts).Opening? {
      ReferenceConsent(m, opts, [Begin], OpenExchange(m, opts).pending, stream, refresh);
    }
  }

  /** A whole exchange, with a refresh or without. */
  lemma WholeConsent(m: Mechanism, opts: Options, stream: bytes, refresh: AuthResult)
    ensures WholeExchange(m, opts, stream, refresh).result.Success? <==>
            Willing(m, opts, stream) && (opts.ensureCapabilities ==> refresh.Success?)
    ensures Willing(m, opts, stream) ==>
              WholeExchange(m, opts, stream, refresh) == Granted(m, opts, ReadResponse(stream).value, refresh)
  {
    hide WholeExchange, Consented, Agreed, Command.Command.Serialize, ReadResponse;
    PlainConsent(m, Unrefreshed(opts), stream, refresh);
    if opts.ensureCapabilities {
      RefreshedExchange(m, opts, stream, refresh);
      if Willing(m, opts, stream) {
        AfterThenRefresh(OpeningCommand(m, opts), Agreed(m, [Begin], Held(m, opts), ReadResponse(stream).value),
                         refresh);
      }
    } else {
      assert Unrefreshed(opts) == opts;
    }
  }

  /** A consented exchange comes to its refresh right after the response. */
  lemma ConsentedPoint(m: Mechanism, opts: Options, stream: bytes)
    requires opts.ensureCapabilities && Willing(m, opts, stream)
    ensures C.WholePoint(m, opts, stream) == Some(ReadResponse(stream).consumed)
  {
    hide WholeExchange, Consented, Agreed, Command.Command.Serialize, ReadResponse, RefreshPoint, OpenExchange;
    var refreshed: AuthResult := Success(NO_CAPABILITIES);
    WholeConsent(m, opts, stream, TOO_LARGE);
    WholeConsent(m, opts, stream, refreshed);
    C.WholeShows(m, opts, stream, TOO_LARGE, refreshed);
    C.RefreshAfterResponse(m, opts, [Begin], OpenExchange(m, opts).pending, stream);
  }

  /** AUTHENTICATE succeeds only with the full consent of its mechanism, in
      every run: the stream opens with a response every payload and the end of
      which the mechanism accepted, its first word was written exactly once,
      and the run wrote and told the mechanism exactly what was agreed, the
      refresh reading from the first chunk boundary at or past the response. */
  lemma SucceedsIffConsented(m: Mechanism, opts: Options, chunks: seq<bytes>) returns (k: nat)
    requires NonEmptyChunks(chunks)
    ensures k <= |chunks|
    ensures var stream, run := Flatten(chunks), Run(m, opts, FRESH_AUTH, None, chunks);
            run.result.Success? ==>
              && Willing(m, opts, stream)
              && run == Granted(m, opts, ReadResponse(stream).value, RefreshOutcome(chunks[k..]))
              && (opts.ensureCapabilities ==> Reaches(0, chunks, k, ReadResponse(stream).consumed))
    ensures var stream, run := Flatten(chunks), Run(m, opts, FRESH_AUTH, None, chunks);
            Decided(m, opts, stream) ==>
              (run.result.Success? <==>
               Willing(m, opts, stream) && (opts.ensureCapabilities ==> RefreshOutcome(chunks[k..]).Success?))
  {
    hide Run, Willing, Granted, C.WholePoint, WholeExchange, ReadResponse, RefreshOutcome, Reaches, Flatten;
    hide NonEmptyChunks;
    var stream := Flatten(chunks);
    k := C.ExchangeUnderEveryCut(m, opts, chunks);
    WholeConsent(m, opts, stream, RefreshOutcome(chunks[k..]));
    if opts.ensureCapabilities && Willing(m, opts, stream) {
      ConsentedPoint(m, opts, stream);
    }
  }
}
