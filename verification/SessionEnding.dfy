/** How a run of the session opener ends: which part ended it, on what, and
    with which outcome. */
module SessionEnding {
  import opened Bytes
  import opened Response
  import opened Reader
  import opened Replies
  import opened Exchange
  import opened Opening
  import opened SessionStory
  import Command
  import Endings

  /** The capabilities a phase of one response lists. */
  function CapabilitiesOf(chunks: seq<bytes>): Capabilities
    requires Clean(chunks)
  {
    Capabilities(ReadCapabilities(ReadResponse(Flatten(chunks)).value.data))
  }

  /** A greeting, or the reply to STARTTLS, was refused on its last chunk: the
      stream ended, it cannot be read, it is too large, octets trail it, or it is
      no OK. */
  predicate Refused(chunks: seq<bytes>, chunk: bytes, e: ReplyError) {
    var all := Flatten(chunks) + chunk;
    if chunk == [] then e == ReplyError.Send(Eof)
    else
      match ReadResponse(all)
      case Failed(parse) => e == ReplyError.Send(Malformed(parse))
      case Incomplete => |all| > MAX_RESPONSE && e == ReplyError.Send(ResponseTooLarge)
      case Parsed(r, n) =>
        if n < |all| then e == Injection else r.completion.status != Ok && e == Rejected(r.completion)
  }

  lemma RefusedExactly(chunks: seq<bytes>, chunk: bytes, e: ReplyError)
    ensures var out := Feed(Flatten(chunks), chunk).1;
            out.Complete? && AcceptClean(out.result) == Failure(e) <==> Refused(chunks, chunk, e)
  {
    hide ReadResponse, Flatten;
  }

  /** A mechanism that is not carried, or that will not begin. */
  predicate Unbegun(m: Mechanism, e: AuthError) {
    if Endings.Uncarried(m) then e == UnsupportedMechanism(m.name)
    else m.react([Begin]).Refuse? && e == RefusedBy(m.react([Begin]).reason)
  }

  lemma UnbegunExactly(m: Mechanism, opts: Options, e: AuthError)
    ensures OpenExchange(m, opts) == NoOpening(e) <==> Unbegun(m, e)
  {
    hide Command.Command.Serialize;
  }

  /** How an opening ends right where it would authenticate. */
  predicate EndsUnauthenticated(cfg: Config, sasl: Option<Mechanism>, upgraded: bool, seen: Capabilities,
                                result: Result<Capabilities, SessionError>) {
    match sasl
    case None => result == Success(seen)
    case Some(m) =>
      if !MayTravel(cfg, upgraded, m.name) then result == Failure(CleartextAuth(m.name))
      else result.Failure? && result.error.AuthenticateFailed? && Unbegun(m, result.error.auth)
  }

  /** How a greeting ends the opening. */
  predicate GreetingEnds(cfg: Config, sasl: Option<Mechanism>, chunks: seq<bytes>, chunk: bytes,
                         result: Result<Capabilities, SessionError>) {
    var all := chunks + [chunk];
    if !Clean(all) then
      result.Failure? && result.error.GreetingFailed? && Refused(chunks, chunk, result.error.reply)
    else if cfg.startTls then !Advertised(all) && result == Failure(StartTlsUnsupported)
    else EndsUnauthenticated(cfg, sasl, false, CapabilitiesOf(all), result)
  }

  /** How the second greeting does. */
  predicate SecondGreetingEnds(cfg: Config, sasl: Option<Mechanism>, chunks: seq<bytes>, chunk: bytes,
                               result: Result<Capabilities, SessionError>) {
    var all := chunks + [chunk];
    if !Clean(all) then
      result.Failure? && result.error.GreetingFailed? && Refused(chunks, chunk, result.error.reply)
    else EndsUnauthenticated(cfg, sasl, true, CapabilitiesOf(all), result)
  }

  function AuthOutcome(r: AuthResult): Result<Capabilities, SessionError> {
    match r
    case Success(capabilities) => Success(capabilities)
    case Failure(e) => Failure(AuthenticateFailed(e))
  }

  /** The end of a story: what its last resume brought, and the outcome. */
  predicate Ends(cfg: Config, sasl: Option<Mechanism>, c: Chapter, arg: Option<bytes>,
                 result: Result<Capabilities, SessionError>) {
    match c
    case Blank => arg.None? && !Connectable(cfg) && result == Failure(StartTlsOverTls)
    case Greeting(Some(chunks)) => arg.Some? && GreetingEnds(cfg, sasl, chunks, arg.value, result)
    case StartTls(_, Some(chunks)) =>
      && arg.Some? && result.Failure? && result.error.StartTlsFailed?
      && Refused(chunks, arg.value, result.error.reply)
    case TlsGreeting(_, _, Some(chunks)) => arg.Some? && SecondGreetingEnds(cfg, sasl, chunks, arg.value, result)
    case Auth(_, _, args) =>
      && sasl.Some? && AuthLegal(sasl.value, [None] + args + [arg])
      && AuthOutput(sasl.value, [None] + args + [arg]).Complete?
      && result == AuthOutcome(AuthOutput(sasl.value, [None] + args + [arg]).result)
    case _ => false
  }

  // -------------------------------------------------------------------------
  // The last resume
  // -------------------------------------------------------------------------

  lemma AuthenticationDeclined(cfg: Config, s: Session, arg: Option<bytes>)
    requires Authenticate(cfg, s, arg).1.Finished?
    ensures EndsUnauthenticated(cfg, s.sasl, s.upgraded, s.capabilities, Authenticate(cfg, s, arg).1.result)
  {
    hide OpenExchange, MayTravel;
    if s.sasl.Some? && OpenExchange(s.sasl.value, AUTH_OPTIONS).NoOpening? {
      UnbegunExactly(s.sasl.value, AUTH_OPTIONS, OpenExchange(s.sasl.value, AUTH_OPTIONS).error);
    }
  }

  lemma NotClean(chunks: seq<bytes>, chunk: bytes, e: ReplyError)
    requires Refused(chunks, chunk, e) && Unfinished(Some(chunks))
    ensures !Clean(chunks + [chunk])
  {
    hide ReadResponse, ReadCapabilities, Flatten;
    FlattenSnoc(chunks, chunk);
    assert Flatten(chunks) + [] == Flatten(chunks);
  }

  lemma GreetingEnd(cfg: Config, sasl: Option<Mechanism>, chunks: seq<bytes>, s: Session, chunk: bytes)
    requires Unfinished(Some(chunks)) && s.stage == Greeted(Flatten(chunks)) && s.sasl == sasl && !s.upgraded
    requires SessionStep(cfg, s, Some(chunk)).1.Finished?
    ensures GreetingEnds(cfg, sasl, chunks, chunk, SessionStep(cfg, s, Some(chunk)).1.result)
  {
    hide Feed, Authenticate, UpgradingStep, EndsUnauthenticated, AcceptClean, ReadResponse, ReadCapabilities, Clean;
    hide Flatten, Unfinished;
    var r := Feed(Flatten(chunks), chunk).1.result;
    match Replies.Greeting(r)
    case Failure(e) =>
      RefusedExactly(chunks, chunk, e);
      NotClean(chunks, chunk, e);
    case Success(seen) =>
      CleanEnd(chunks, chunk, r);
      var now := s.(capabilities := seen);
      if cfg.startTls {
        UpgradeGoesOn(now, chunk);
      } else {
        AuthenticationDeclined(cfg, now, Some(chunk));
      }
  }

  lemma UpgradeGoesOn(s: Session, chunk: bytes)
    ensures UpgradingStep(s, Sending(Some(STARTTLS_COMMAND), []), Some(chunk)).1.Ask?
  {
  }

  lemma SecondGreetingEnd(cfg: Config, sasl: Option<Mechanism>, chunks: seq<bytes>, s: Session, chunk: bytes)
    requires Unfinished(Some(chunks)) && s.stage == GreetedTls(Flatten(chunks)) && s.sasl == sasl && s.upgraded
    requires SessionStep(cfg, s, Some(chunk)).1.Finished?
    ensures SecondGreetingEnds(cfg, sasl, chunks, chunk, SessionStep(cfg, s, Some(chunk)).1.result)
  {
    hide Feed, Authenticate, EndsUnauthenticated, AcceptClean, ReadResponse, ReadCapabilities, Clean, Flatten;
    hide Unfinished;
    var r := Feed(Flatten(chunks), chunk).1.result;
    match Replies.Greeting(r)
    case Failure(e) =>
      RefusedExactly(chunks, chunk, e);
      NotClean(chunks, chunk, e);
    case Success(seen) =>
      CleanEnd(chunks, chunk, r);
      AuthenticationDeclined(cfg, s.(capabilities := seen), Some(chunk));
  }

  lemma StartTlsEnd(cfg: Config, chunks: seq<bytes>, s: Session, chunk: bytes)
    requires s.stage == Upgrading(Sending(None, Flatten(chunks)))
    requires SessionStep(cfg, s, Some(chunk)).1.Finished?
    ensures var result := SessionStep(cfg, s, Some(chunk)).1.result;
            && result.Failure? && result.error.StartTlsFailed?
            && Refused(chunks, chunk, result.error.reply)
  {
    hide Feed, AcceptClean, Flatten, ReadResponse;
    RefusedExactly(chunks, chunk, SessionStep(cfg, s, Some(chunk)).1.result.error.reply);
  }

  lemma AuthEnd(cfg: Config, sasl: Option<Mechanism>, c: Chapter, s: Session, arg: Option<bytes>)
    requires c.Auth? && Stands(sasl, c, s) && Founded(cfg, sasl, c) && SessionStep(cfg, s, arg).1.Finished?
    requires arg.Some? <==> AuthOutput(sasl.value, [None] + c.args).WantsRead?
    ensures Ends(cfg, sasl, c, arg, SessionStep(cfg, s, arg).1.result)
  {
    hide AuthStep, AuthAfter, AuthEvents, AuthLegal, AuthOutput, AuthOutcome, MayTravel, Clean, Advertised, Connectable;
    AuthGoesOn(sasl.value, c.args, arg);
    assert [None] + (c.args + [arg]) == [None] + c.args + [arg];
    OutcomeOf(s, sasl.value, AuthAfter(sasl.value, [None] + c.args), arg);
  }

  lemma OutcomeOf(s: Session, m: Mechanism, auth: Auth, arg: Option<bytes>)
    requires AuthenticatingStep(s, m, auth, arg).1.Finished?
    ensures AuthStep(m, AUTH_OPTIONS, auth, arg).1.Complete?
    ensures AuthenticatingStep(s, m, auth, arg).1.result == AuthOutcome(AuthStep(m, AUTH_OPTIONS, auth, arg).1.result)
  {
    hide AuthStep;
  }

  /** A resume that ends a story ends it as the part in charge says. */
  lemma LastChapter(cfg: Config, sasl: Option<Mechanism>, c: Chapter, s: Session, arg: Option<bytes>)
    requires Stands(sasl, c, s) && Founded(cfg, sasl, c) && SessionStep(cfg, s, arg).1.Finished?
    requires arg.Some? <==> EndsOnRead(sasl, c)
    ensures Ends(cfg, sasl, c, arg, SessionStep(cfg, s, arg).1.result)
  {
    hide AuthOutput, AuthLegal, Clean, Advertised, MayTravel, Flatten, AuthAfter, AuthStep, GreetingEnds;
    hide SecondGreetingEnds;
    hide Refused, Unfinished, SessionStep;
    match c
    case Blank => UnconnectedEnd(cfg, sasl, s);
    case Greeting(now) =>
      if now.Some? {
        GreetingEnd(cfg, sasl, now.value, s, arg.value);
      } else {
        AsksFirst(cfg, s, []);
      }
    case StartTls(_, now) =>
      if now.Some? {
        StartTlsEnd(cfg, now.value, s, arg.value);
      } else {
        AsksFirst(cfg, s, []);
      }
    case TlsUp(_, _) => AsksFirst(cfg, s, []);
    case TlsGreeting(_, _, now) => SecondGreetingEnd(cfg, sasl, now.value, s, arg.value);
    case Auth(_, _, _) => AuthEnd(cfg, sasl, c, s, arg);
  }

  lemma UnconnectedEnd(cfg: Config, sasl: Option<Mechanism>, s: Session)
    requires s == Unopened(sasl) && SessionStep(cfg, s, None).1.Finished?
    ensures !Connectable(cfg) && SessionStep(cfg, s, None).1.result == Failure(StartTlsOverTls)
  {
  }

  /** A phase resumed with nothing asks for a read. */
  lemma AsksFirst(cfg: Config, s: Session, buf: bytes)
    requires s.stage == Greeted(buf) || s.stage == Upgrading(Sending(None, buf)) || s.stage == Upgraded
    ensures SessionStep(cfg, s, None).1.Ask?
  {
  }

  /** Every legal run that has finished saw the events of a founded story and
      then what its last resume brought, and ended as the part then in charge
      has it. */
  lemma EveryRunEnds(cfg: Config, sasl: Option<Mechanism>, args: seq<Option<bytes>>) returns (c: Chapter)
    requires Legal(cfg, sasl, args) && args != [] && Output(cfg, sasl, args).Finished?
    ensures var arg := args[|args| - 1];
            && Founded(cfg, sasl, c) && Ends(cfg, sasl, c, arg, Output(cfg, sasl, args).result)
            && Log(cfg, sasl, args) == Tell(cfg, sasl, c) + Arrival(arg)
  {
    hide SessionStep, Tell, Founded, Stands, EndsOnRead, Ends;
    var before, arg := args[..|args| - 1], args[|args| - 1];
    c := EveryRunIsAStory(cfg, sasl, before);
    if before == [] {
      OnlyBlank(cfg, sasl, c);
    } else {
      var front := LogEnds(cfg, sasl, before);
      LastEvent(cfg, sasl, c, front, Output(cfg, sasl, before).ask);
    }
    LastChapter(cfg, sasl, c, SessionAfter(cfg, sasl, before), arg);
  }
}
