/** A client and a server that stay in step: what each write calls for, and
    what an exchange holds until it has it all. */
module InStep {
  import opened Bytes
  import opened Scanner
  import opened Response
  import opened Reader
  import opened Replies
  import opened Exchange
  import opened Draining
  import Command
  import Printer
  import Base64
  import Decimal
  import Cancellation
  import ResponsePrefix

  // -------------------------------------------------------------------------
  // What a write calls for
  // -------------------------------------------------------------------------

  /** An exchange is carried on one line at a time. Its client responses are
      strings, and AUTHENTICATE is the only command with that initial. Anything
      else, the cancellation included, calls for a whole response. */
  predicate CallsForLine(octets: bytes) {
    && octets != CANCEL_LINE
    && octets != []
    && (octets[0] == QUOTE || octets[0] == LBRACE || octets[0] == A_CAPITAL)
  }

  const A_CAPITAL: byte := 65

  /** Exactly one line, within the ceiling and one octet. */
  predicate OneLine(s: bytes) {
    ReadLine(s).Parsed? && ReadLine(s).consumed == |s| <= MAX_RESPONSE + 1
  }

  /** The reply a well-behaved server gives to a write. */
  predicate Suits(octets: bytes, reply: bytes) {
    if CallsForLine(octets) then OneLine(reply) else OneResponse(reply)
  }

  /** Every write has its reply. */
  predicate Keeps(written: seq<bytes>, replies: seq<bytes>) {
    && |written| <= |replies|
    && forall i :: 0 <= i < |written| ==> Suits(written[i], replies[i])
  }

  lemma ClientResponseCallsForLine(payload: bytes)
    ensures CallsForLine(ClientResponse(payload))
  {
    hide Base64.Encode, Printer.Escape, Decimal.Print;
    Cancellation.ResponseIsNoCancel(payload);
    assert ClientResponse(payload) != [];
  }

  lemma OpeningCallsForLine(m: Mechanism, opts: Options)
    requires OpenExchange(m, opts).Opening?
    ensures CallsForLine(OpenExchange(m, opts).command)
  {
    hide Printer.StringOf, Base64.Encode;
    Cancellation.CommandIsNoCancel(m, opts);
    assert OpenExchange(m, opts).command[0] == A_CAPITAL;
  }

  lemma CommandCallsForResponse(c: Command.Command)
    requires !c.Authenticate?
    ensures !CallsForLine(c.Serialize())
  {
    hide Printer.StringOf, Printer.Literal, Decimal.Print;
    assert c.Serialize()[0] == c.Keyword()[0];
  }

  // -------------------------------------------------------------------------
  // An exchange in step
  // -------------------------------------------------------------------------

  /** An outcome that says nothing went wrong with the octets themselves. */
  predicate Understood(r: AuthResult) {
    r.Failure? ==>
      !r.error.Broken? && !r.error.MalformedLine? && !(r.error.RefreshFailed? && r.error.reply.Send?)
  }

  /** What an exchange holds, is being given and is yet to be sent make up the
      one line or the one response it is waiting for. */
  predicate Poised(a: Auth, arg: Option<bytes>, pending: bytes) {
    && arg != Some([])
    && (match a.phase
        case Start => arg.None? && a.buf == [] && pending == []
        case Reading(_) => OneLine(a.buf + OrEmpty(arg) + pending)
        case Aborting(cause) => Understood(Failure(cause)) && OneResponse(a.buf + OrEmpty(arg) + pending)
        case Refreshing(send) =>
          send.unsent.None? && (arg.None? ==> pending != []) && OneResponse(send.buf + OrEmpty(arg) + pending))
  }

  /** What one resume of an exchange in step leads to. */
  ghost predicate StaysInStep(out: Progress<AuthResult>, next: Auth, pending: bytes) {
    match out
    case WantsRead =>
      pending != [] && forall i :: 0 < i <= |pending| ==> Poised(next, Some(pending[..i]), pending[i..])
    case WantsWrite(octets) => pending == [] && forall reply :: Suits(octets, reply) ==> Poised(next, None, reply)
    case Complete(r) => pending == [] && Understood(r)
  }

  lemma PoisedStart(m: Mechanism, opts: Options, a: Auth, arg: Option<bytes>, pending: bytes)
    requires Poised(a, arg, pending) && a.phase.Start?
    ensures var (next, out) := AuthStep(m, opts, a, arg); StaysInStep(out, next, pending)
  {
    hide OpenExchange, OneLine, OneResponse, CallsForLine, ReadLine;
    var opening := OpenExchange(m, opts);
    if opening.Opening? {
      OpeningCallsForLine(m, opts);
      var next := Auth(Reading(opening.pending), [Begin], a.buf);
      forall reply | Suits(opening.command, reply)
        ensures Poised(next, None, reply)
      {
        assert next.buf + OrEmpty(None) + reply == reply;
      }
    } else {
      RefusalsAreUnderstood(m, opts);
    }
  }

  lemma RefusalsAreUnderstood(m: Mechanism, opts: Options)
    requires OpenExchange(m, opts).NoOpening?
    ensures Understood(Failure(OpenExchange(m, opts).error))
  {
  }

  /** What is held, and a first piece of what is to come, is again what is held. */
  lemma Regrouped(held: bytes, pending: bytes, i: nat)
    requires i <= |pending|
    ensures held + pending[..i] + pending[i..] == held + pending
  {
    assert pending[..i] + pending[i..] == pending;
  }

  lemma PoisedReading(m: Mechanism, opts: Options, a: Auth, arg: Option<bytes>, pending: bytes)
    requires Poised(a, arg, pending) && a.phase.Reading?
    ensures var (next, out) := AuthStep(m, opts, a, arg); StaysInStep(out, next, pending)
  {
    hide OnLine, ReadLine, StaysInStep, Perform, CallsForLine;
    var b := a.buf + OrEmpty(arg);
    var s := b + pending;
    if pending == [] {
      assert b == s && s[|s|..] == [];
      if ReadLine(b).value.Data? {
        ResponsePrefix.LineOpensOnString(b);
      }
      Reacts(m, opts, a.heard, a.phase.pending, ReadLine(b).value);
    } else {
      assert s[..|b|] == b;
      ResponsePrefix.LinePrefix(s, |b|);
      KeepsReading(a.(buf := b), pending);
    }
  }

  lemma KeepsReading(a: Auth, pending: bytes)
    requires a.phase.Reading? && pending != [] && OneLine(a.buf + pending)
    ensures StaysInStep(WantsRead, a, pending)
  {
    hide OneLine;
    forall i | 0 < i <= |pending|
      ensures Poised(a, Some(pending[..i]), pending[i..])
    {
      Regrouped(a.buf, pending, i);
    }
  }

  /** Whatever a line leads to, nothing is held past it. */
  lemma Reacts(m: Mechanism, opts: Options, heard: seq<SaslArg>, pending: Option<bytes>, line: Line)
    requires line.Data? ==> line.line.StringAt(0).Some?
    ensures var (next, out) := Perform(OnLine(m, opts, heard, pending, line), []);
            StaysInStep(out, next, [])
  {
    hide OneLine, OneResponse, Perform, StaysInStep, ClientResponse, OnChallenge, OnCompletion, Understood;
    match line
    case Data(data) =>
      var challenge := data.StringAt(0).value;
      var payload := Challenged(m, heard, pending, challenge);
      var r := OnChallenge(m, heard, pending, challenge);
      if r.Answer? {
        Answers(payload, r.heard);
      } else {
        Cancels(r.cause, r.heard);
      }
    case Final(c) =>
      Closes(m, opts, heard, pending, c);
      var r := OnCompletion(m, opts, heard, pending, c);
      if r.Stop? {
        Stops(r.result, r.heard);
      } else {
        Refreshes(r.heard);
      }
  }

  lemma Challenged(m: Mechanism, heard: seq<SaslArg>, pending: Option<bytes>, challenge: bytes) returns (payload: bytes)
    ensures var r := OnChallenge(m, heard, pending, challenge);
            (r.Answer? && r.octets == ClientResponse(payload)) || (r.Cancel? && Understood(Failure(r.cause)))
  {
    hide ClientResponse, Base64.Decode;
    payload := if pending.Some? then pending.value else [];
    if pending.None? && Base64.Decode(challenge).Some? {
      var r := Consult(m, heard + [Input(Base64.Decode(challenge).value)]);
      if r.Success? {
        payload := OrEmpty(r.value);
      }
    }
  }

  lemma Closes(m: Mechanism, opts: Options, heard: seq<SaslArg>, pending: Option<bytes>, c: Completion)
    ensures var r := OnCompletion(m, opts, heard, pending, c);
            (r.Stop? && Understood(r.result)) || r.Refresh?
  {
    hide Base64.Decode;
  }

  lemma Answers(payload: bytes, heard: seq<SaslArg>)
    ensures var (next, out) := Perform(Answer(ClientResponse(payload), heard), []);
            StaysInStep(out, next, [])
  {
    hide OneLine, OneResponse, ClientResponse, CallsForLine;
    ClientResponseCallsForLine(payload);
    forall reply | Suits(ClientResponse(payload), reply)
      ensures Poised(Auth(Reading(None), heard, []), None, reply)
    {
      assert [] + OrEmpty(None) + reply == reply;
    }
  }

  lemma Cancels(cause: AuthError, heard: seq<SaslArg>)
    requires Understood(Failure(cause))
    ensures var (next, out) := Perform(Cancel(cause, heard), []);
            StaysInStep(out, next, [])
  {
    hide OneLine, OneResponse, CANCEL_LINE;
    forall reply | Suits(CANCEL_LINE, reply)
      ensures Poised(Auth(Aborting(cause), heard, []), None, reply)
    {
      assert [] + OrEmpty(None) + reply == reply;
    }
  }

  lemma Stops(result: AuthResult, heard: seq<SaslArg>)
    requires Understood(result)
    ensures var (next, out) := Perform(Stop(result, heard), []);
            StaysInStep(out, next, [])
  {
  }

  lemma Refreshes(heard: seq<SaslArg>)
    ensures var (next, out) := Perform(Refresh(heard), []);
            StaysInStep(out, next, [])
  {
    hide OneLine, OneResponse, CallsForLine, Command.Command.Serialize;
    CommandCallsForResponse(Command.Command.Capability);
    forall reply | OneResponse(reply)
      ensures Poised(Auth(Refreshing(Sending(None, [])), heard, []), None, reply)
    {
      assert [] + OrEmpty(None) + reply == reply;
      SomethingToRead(reply);
    }
  }

  lemma SomethingToRead(reply: bytes)
    requires OneResponse(reply)
    ensures reply != []
  {
    hide ReadLine;
  }

  lemma PoisedAborting(m: Mechanism, opts: Options, a: Auth, arg: Option<bytes>, pending: bytes)
    requires Poised(a, arg, pending) && a.phase.Aborting?
    ensures var (next, out) := AuthStep(m, opts, a, arg); StaysInStep(out, next, pending)
  {
    hide OneResponse, Drain, Understood;
    var b := a.buf + OrEmpty(arg);
    if pending == [] {
      assert b + pending == b;
      DrainsWhole(b);
    } else {
      DrainsWhileArriving(b, pending);
      var rest := Drain(b).1;
      forall i | 0 < i <= |pending|
        ensures Poised(a.(buf := rest), Some(pending[..i]), pending[i..])
      {
        Regrouped(rest, pending, i);
      }
    }
  }

  lemma DrainsWhole(s: bytes)
    requires OneResponse(s)
    ensures Drain(s) == (true, [])
  {
    hide ReadResponse, Drain;
    DrainsOneResponse(s);
  }

  /** A reader given part of one response asks for the rest, and given all of
      it returns it with nothing after it. */
  lemma ReadsInStep(held: bytes, chunk: bytes, pending: bytes)
    requires chunk != [] && OneResponse(held + chunk + pending)
    ensures ReadResponse(held + chunk + pending).Parsed?
    ensures var s := held + chunk + pending;
            Feed(held, chunk) ==
            if pending == [] then (s, Complete(Success(ReadOk(ReadResponse(s).value, []))))
            else (held + chunk, WantsRead)
  {
    hide ReadResponse;
    var b := held + chunk;
    var s := b + pending;
    if pending == [] {
      assert s == b && s[..|s|] == s && s[|s|..] == [];
    } else {
      assert s[..|b|] == b;
      ResponsePrefix.ResponsePrefix(s, |b|);
    }
  }

  lemma PoisedRefreshing(m: Mechanism, opts: Options, a: Auth, arg: Option<bytes>, pending: bytes)
    requires Poised(a, arg, pending) && a.phase.Refreshing?
    ensures var (next, out) := AuthStep(m, opts, a, arg); StaysInStep(out, next, pending)
  {
    hide OneResponse, Feed, ReadResponse, CapabilityReply;
    var send := a.phase.send;
    var held := send.buf + OrEmpty(arg);
    if arg.Some? {
      ReadsInStep(send.buf, arg.value, pending);
      if pending == [] {
        ReadsAreUnderstood(ReadResponse(held + pending).value);
      }
    } else {
      assert send.buf + [] == send.buf;
    }
    forall i | 0 < i <= |pending|
      ensures held + pending[..i] + pending[i..] == held + pending
    {
      Regrouped(held, pending, i);
    }
  }

  lemma ReadsAreUnderstood(r: Response)
    ensures Understood(RefreshResult(Success(ReadOk(r, []))))
  {
    hide ReadCapabilities;
  }

  /** An exchange in step stays in step, and is left in step: every outcome
      but one about the octets themselves finds nothing unread. */
  lemma PoisedStep(m: Mechanism, opts: Options, a: Auth, arg: Option<bytes>, pending: bytes)
    requires Poised(a, arg, pending)
    ensures var (next, out) := AuthStep(m, opts, a, arg); StaysInStep(out, next, pending)
  {
    hide Poised, AuthStep, StaysInStep;
    match a.phase
    case Start => PoisedStart(m, opts, a, arg, pending);
    case Reading(_) => PoisedReading(m, opts, a, arg, pending);
    case Aborting(_) => PoisedAborting(m, opts, a, arg, pending);
    case Refreshing(_) => PoisedRefreshing(m, opts, a, arg, pending);
  }
}
