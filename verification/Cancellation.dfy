/** What holds of every run of the exchange: the order in which the mechanism
    is told things, and how an exchange is given up. */
module Cancellation {
  import opened Bytes
  import opened Scanner
  import opened Response
  import opened Reader
  import opened Replies
  import opened Exchange
  import opened ExchangeRun
  import Command
  import Printer
  import Base64
  import Decimal
  import ResponsePrefix
  import R = Reading

  lemma {:induction false} EncodeLength(p: bytes)
    ensures |Base64.Encode(p)| % 4 == 0
  {
    if |p| >= 3 {
      EncodeLength(p[3..]);
    }
  }

  /** No client response, for any payload, reads as a cancellation. */
  lemma ResponseIsNoCancel(payload: bytes)
    ensures ClientResponse(payload) != CANCEL_LINE
  {
    hide Base64.Encode, Printer.Escape, Decimal.Print;
    var text := Base64.Encode(payload);
    EncodeLength(payload);
    if Printer.Quote(text).Some? {
      assert |ClientResponse(payload)| == |text| + Printer.EscapeCount(text) + 4;
      ShortEscapes(text);
    } else {
      assert ClientResponse(payload)[0] == LBRACE;
    }
  }

  lemma ShortEscapes(text: bytes)
    ensures text == [] ==> Printer.EscapeCount(text) == 0
  {
  }

  lemma CommandIsNoCancel(m: Mechanism, opts: Options)
    requires OpenExchange(m, opts).Opening?
    ensures OpenExchange(m, opts).command != CANCEL_LINE
  {
    hide Printer.StringOf, Base64.Encode;
    assert OpenExchange(m, opts).command[0] == 65;
  }

  // -------------------------------------------------------------------------
  // What every transcript looks like
  // -------------------------------------------------------------------------

  /** The mechanism was begun once and has only been fed since. */
  predicate Live(heard: seq<SaslArg>) {
    heard != [] && heard[0] == Begin && forall i :: 0 < i < |heard| ==> heard[i].Input?
  }

  /** It is told that the exchange is over at most once, and last. */
  predicate Orderly(heard: seq<SaslArg>) {
    heard == [] || Live(heard) || (heard[|heard| - 1] == Done && Live(heard[..|heard| - 1]))
  }

  /** It was told that the exchange is over, and did not refuse. */
  predicate Closed(m: Mechanism, heard: seq<SaslArg>) {
    heard != [] && heard[|heard| - 1] == Done && !m.react(heard).Refuse?
  }

  /** The two failures an exchange is given up for: a challenge that does not
      decode, and the refusal of the last thing the mechanism was told. */
  predicate GaveUp(m: Mechanism, heard: seq<SaslArg>, r: AuthResult) {
    && r.Failure?
    && (r.error == InvalidBase64 || (r.error.RefusedBy? && m.react(heard) == Refuse(r.error.reason)))
  }

  /** A cancellation is the last thing written, and what it was for is what is
      reported. */
  predicate CancelsLast(m: Mechanism, t: Transcript) {
    forall i :: 0 <= i < |t.writes| && t.writes[i] == CANCEL_LINE ==>
      i == |t.writes| - 1 && GaveUp(m, t.heard, t.result)
  }

  predicate Sound(m: Mechanism, t: Transcript) {
    && Orderly(t.heard)
    && (t.result.Success? ==> Closed(m, t.heard))
    && CancelsLast(m, t)
    && t.result != Failure(InvalidChallenge)
  }

  lemma AfterSound(m: Mechanism, octets: bytes, t: Transcript)
    requires Sound(m, t) && octets != CANCEL_LINE
    ensures Sound(m, After(octets, t))
  {
    hide Orderly, Closed, GaveUp;
    var w := After(octets, t).writes;
    forall i | 0 <= i < |w| && w[i] == CANCEL_LINE
      ensures i == |w| - 1 && GaveUp(m, t.heard, t.result)
    {
      assert t.writes[i - 1] == CANCEL_LINE;
    }
  }

  lemma LiveMore(heard: seq<SaslArg>, octets: bytes)
    requires Live(heard)
    ensures Live(heard + [Input(octets)]) && Orderly(heard + [Done]) && Orderly(heard)
  {
    assert (heard + [Done])[..|heard|] == heard;
  }

  lemma ChallengeSound(m: Mechanism, heard: seq<SaslArg>, pending: Option<bytes>, challenge: bytes)
    requires Live(heard)
    ensures match OnChallenge(m, heard, pending, challenge)
            case Answer(octets, told) => Live(told) && octets != CANCEL_LINE
            case Cancel(cause, told) => Orderly(told) && GaveUp(m, told, Failure(cause))
            case _ => false
  {
    hide Base64.Decode, ClientResponse, Live, Orderly;
    LiveMore(heard, []);
    match pending
    case Some(payload) => ResponseIsNoCancel(payload);
    case None =>
      match Base64.Decode(challenge)
      case None =>
      case Some(octets) =>
        LiveMore(heard, octets);
        LiveMore(heard + [Input(octets)], []);
        match Consult(m, heard + [Input(octets)])
        case Failure(_) =>
        case Success(payload) => ResponseIsNoCancel(OrEmpty(payload));
  }

  lemma CompletionSound(m: Mechanism, opts: Options, heard: seq<SaslArg>, pending: Option<bytes>, c: Completion)
    requires Live(heard)
    ensures match OnCompletion(m, opts, heard, pending, c)
            case Stop(result, told) =>
              Orderly(told) && (result.Success? ==> Closed(m, told)) && result != Failure(InvalidChallenge)
            case Refresh(told) => Orderly(told) && Closed(m, told)
            case _ => false
  {
    hide Base64.Decode, Live, Orderly;
    LiveMore(heard, []);
    if c.code.Some? && c.code.value.Sasl? && Base64.Decode(c.code.value.data).Some? {
      var octets := Base64.Decode(c.code.value.data).value;
      LiveMore(heard, octets);
      LiveMore(heard + [Input(octets)], []);
    }
  }

  lemma ReadingSound(m: Mechanism, opts: Options, a: Auth, arg: Option<bytes>, chunks: seq<bytes>)
    requires a.phase.Reading? && Live(a.heard)
    ensures Sound(m, Run(m, opts, a, arg, chunks))
    decreases |a.buf| + |OrEmpty(arg)| + |Flatten(chunks)|, |chunks|
  {
    hide Run, Live, Sound, ReadLine, OnLine;
    var b := a.buf + OrEmpty(arg);
    LiveMore(a.heard, []);
    if arg == Some([]) || ReadLine(b).Failed? || (ReadLine(b) == Incomplete && |b| > MAX_RESPONSE) {
      ReadingFails(m, opts, a, arg, chunks);
    } else if ReadLine(b) == Incomplete {
      RunWaits(m, opts, a, arg, chunks);
      if chunks == [] {
        SilentFailure(m, a.heard, Broken(Eof));
      } else {
        ReadingSound(m, opts, a.(buf := b), Some(chunks[0]), chunks[1..]);
      }
    } else {
      ReactionSound(m, opts, a, arg, chunks);
      var r := OnLine(m, opts, a.heard, a.phase.pending, ReadLine(b).value);
      if r.Answer? {
        ReadingSound(m, opts, Auth(Reading(None), r.heard, b[ReadLine(b).consumed..]), None, chunks);
        AfterSound(m, r.octets, Run(m, opts, Auth(Reading(None), r.heard, b[ReadLine(b).consumed..]), None, chunks));
      }
    }
  }

  lemma SilentFailure(m: Mechanism, heard: seq<SaslArg>, e: AuthError)
    requires Orderly(heard) && e != InvalidChallenge
    ensures Sound(m, Transcript([], heard, Failure(e)))
  {
    hide Orderly;
  }

  lemma ReadingFails(m: Mechanism, opts: Options, a: Auth, arg: Option<bytes>, chunks: seq<bytes>)
    requires a.phase.Reading? && Orderly(a.heard)
    requires var b := a.buf + OrEmpty(arg);
             arg == Some([]) || ReadLine(b).Failed? || (ReadLine(b) == Incomplete && |b| > MAX_RESPONSE)
    ensures Sound(m, Run(m, opts, a, arg, chunks))
  {
    hide ReadLine, OnLine, Orderly;
  }

  /** One line leaves the run sound, what follows an answer aside. */
  lemma ReactionSound(m: Mechanism, opts: Options, a: Auth, arg: Option<bytes>, chunks: seq<bytes>)
    requires a.phase.Reading? && Live(a.heard) && arg != Some([]) && ReadLine(a.buf + OrEmpty(arg)).Parsed?
    ensures var b := a.buf + OrEmpty(arg);
            var r := OnLine(m, opts, a.heard, a.phase.pending, ReadLine(b).value);
            if r.Answer? then
              Live(r.heard) && r.octets != CANCEL_LINE
              && Run(m, opts, a, arg, chunks) ==
                 After(r.octets, Run(m, opts, Auth(Reading(None), r.heard, b[ReadLine(b).consumed..]), None, chunks))
            else Sound(m, Run(m, opts, a, arg, chunks))
  {
    hide Run, Live, Orderly, Closed, ReadLine, OnChallenge, OnCompletion, Command.Command.Serialize, R.Drive;
    hide RefreshResult;
    var b := a.buf + OrEmpty(arg);
    var rest := b[ReadLine(b).consumed..];
    RunReacts(m, opts, a, arg, chunks);
    LiveMore(a.heard, []);
    match ReadLine(b).value
    case Data(line) =>
      ResponsePrefix.LineOpensOnString(b);
      ChallengeSound(m, a.heard, a.phase.pending, line.StringAt(0).value);
      var r := OnChallenge(m, a.heard, a.phase.pending, line.StringAt(0).value);
      if r.Cancel? {
        AbortReportsCause(m, opts, Auth(Aborting(r.cause), r.heard, rest), None, chunks);
      }
    case Final(c) =>
      CompletionSound(m, opts, a.heard, a.phase.pending, c);
      var r := OnCompletion(m, opts, a.heard, a.phase.pending, c);
      if r.Refresh? {
        RefreshReads(m, opts, r.heard, rest, [], chunks);
        CapabilityIsNoCancel();
        RefreshHasNoChallenge(R.Drive([], chunks).result);
      }
  }

  lemma RefreshHasNoChallenge(r: ReadResult)
    ensures RefreshResult(r) != Failure(InvalidChallenge)
  {
  }

  lemma OpeningHasNoChallenge(m: Mechanism, opts: Options)
    ensures OpenExchange(m, opts) != NoOpening(InvalidChallenge)
  {
  }

  lemma CapabilityIsNoCancel()
    ensures Command.Command.Capability.Serialize() != CANCEL_LINE
  {
    assert Command.Command.Capability.Serialize()[0] == 67;
  }

  /** In every run, for every mechanism, every option and every server: the
      mechanism is begun once, then only fed, and told of the end at most once
      and last; the run succeeds only if that was said and not refused; and the
      cancel line, if it is written at all, is written once, last, and the run
      reports what it was for. A challenge without a string is never met. */
  lemma {:induction false} EveryRunIsSound(m: Mechanism, opts: Options, chunks: seq<bytes>)
    ensures Sound(m, Run(m, opts, FRESH_AUTH, None, chunks))
  {
    hide Run, OpenExchange;
    RunStarts(m, opts, chunks);
    if OpenExchange(m, opts).Opening? {
      var a := Auth(Reading(OpenExchange(m, opts).pending), [Begin], []);
      assert Live([Begin]);
      ReadingSound(m, opts, a, None, chunks);
      CommandIsNoCancel(m, opts);
      AfterSound(m, OpenExchange(m, opts).command, Run(m, opts, a, None, chunks));
    } else {
      OpeningHasNoChallenge(m, opts);
      assert Live([Begin]);
    }
  }
}
