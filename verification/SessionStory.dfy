/** What every legal run of the session opener looks like from outside: the
    standalone parts, one after the other, each fed exactly the octets that
    arrived after it began. */
module SessionStory {
  import opened Bytes
  import opened Scanner
  import opened Response
  import opened Reader
  import opened Replies
  import opened Exchange
  import opened Opening

  /** What a caller sees go by. */
  datatype Event = Asked(ask: Ask) | Received(chunk: bytes)

  function Arrival(arg: Option<bytes>): seq<Event> {
    match arg
    case None => []
    case Some(chunk) => [Received(chunk)]
  }

  // -------------------------------------------------------------------------
  // Runs
  // -------------------------------------------------------------------------

  /** The session after a sequence of resumes. */
  function SessionAfter(cfg: Config, sasl: Option<Mechanism>, args: seq<Option<bytes>>): Session {
    if args == [] then Unopened(sasl)
    else SessionStep(cfg, SessionAfter(cfg, sasl, args[..|args| - 1]), args[|args| - 1]).0
  }

  /** What the last of a sequence of resumes answered. */
  function Output(cfg: Config, sasl: Option<Mechanism>, args: seq<Option<bytes>>): SessionProgress
    requires args != []
  {
    SessionStep(cfg, SessionAfter(cfg, sasl, args[..|args| - 1]), args[|args| - 1]).1
  }

  /** The contract of a caller: nothing on the first resume and after anything
      but a read, a chunk after a read, and no resume once finished. */
  predicate Legal(cfg: Config, sasl: Option<Mechanism>, args: seq<Option<bytes>>) {
    args == []
    || (var before, arg := args[..|args| - 1], args[|args| - 1];
        && Legal(cfg, sasl, before)
        && (if before == [] then arg.None?
            else Output(cfg, sasl, before).Ask? && (Output(cfg, sasl, before).ask.Read? <==> arg.Some?)))
  }

  /** Everything a caller saw, in order. */
  function Log(cfg: Config, sasl: Option<Mechanism>, args: seq<Option<bytes>>): seq<Event> {
    if args == [] then []
    else
      var before, arg := args[..|args| - 1], args[|args| - 1];
      Log(cfg, sasl, before) + Arrival(arg)
      + match Output(cfg, sasl, args) case Ask(ask) => [Asked(ask)] case Finished(_) => []
  }

  /** The AUTHENTICATE coroutine on its own, after a sequence of resumes. */
  function AuthAfter(m: Mechanism, args: seq<Option<bytes>>): Auth {
    if args == [] then FRESH_AUTH
    else AuthStep(m, AUTH_OPTIONS, AuthAfter(m, args[..|args| - 1]), args[|args| - 1]).0
  }

  /** What it asked for, and what it was given. */
  function AuthLog(m: Mechanism, args: seq<Option<bytes>>): seq<Event> {
    if args == [] then []
    else
      var before, arg := args[..|args| - 1], args[|args| - 1];
      var out := AuthStep(m, AUTH_OPTIONS, AuthAfter(m, before), arg).1;
      AuthLog(m, before) + Arrival(arg) + if out.Complete? then [] else [Asked(Relay(out))]
  }

  /** What its last resume answered. */
  function AuthOutput(m: Mechanism, args: seq<Option<bytes>>): Progress<AuthResult>
    requires args != []
  {
    AuthStep(m, AUTH_OPTIONS, AuthAfter(m, args[..|args| - 1]), args[|args| - 1]).1
  }

  /** It was resumed as its contract has it. */
  predicate AuthLegal(m: Mechanism, args: seq<Option<bytes>>) {
    args == []
    || (var before, arg := args[..|args| - 1], args[|args| - 1];
        && AuthLegal(m, before)
        && (if before == [] then arg.None?
            else !AuthOutput(m, before).Complete? && (AuthOutput(m, before).WantsRead? <==> arg.Some?)))
  }

  // -------------------------------------------------------------------------
  // Stories
  // -------------------------------------------------------------------------

  /** One read after the other. */
  function Reads(chunks: seq<bytes>): seq<Event> {
    if chunks == [] then [] else Reads(chunks[..|chunks| - 1]) + [Asked(Read), Received(chunks[|chunks| - 1])]
  }

  /** A phase still reading: None before its first request. */
  function Now(now: Option<seq<bytes>>): seq<Event> {
    match now
    case None => []
    case Some(chunks) => Reads(chunks) + [Asked(Read)]
  }

  function SoFar(now: Option<seq<bytes>>): bytes {
    match now
    case None => []
    case Some(chunks) => Flatten(chunks)
  }

  /** A phase that read one OK response and not an octet more. */
  predicate Clean(chunks: seq<bytes>) {
    var p := ReadResponse(Flatten(chunks));
    p.Parsed? && p.consumed == |Flatten(chunks)| && p.value.completion.status == Ok
  }

  predicate Advertised(chunks: seq<bytes>) {
    Clean(chunks) && Capabilities(ReadCapabilities(ReadResponse(Flatten(chunks)).value.data)).StartTls()
  }

  /** A TLS upgrade: the reply to STARTTLS, and the second greeting. */
  datatype Upgrade = Upgrade(reply: seq<bytes>, greeting: seq<bytes>)

  datatype Chapter =
    | Blank
    | Greeting(now: Option<seq<bytes>>)
    | StartTls(greeting: seq<bytes>, now: Option<seq<bytes>>)
    | TlsUp(greeting: seq<bytes>, reply: seq<bytes>)
    | TlsGreeting(greeting: seq<bytes>, reply: seq<bytes>, now: Option<seq<bytes>>)
    | Auth(greeting: seq<bytes>, upgrade: Option<Upgrade>, args: seq<Option<bytes>>)

  /** The events of a story: one connect, the greeting, perhaps STARTTLS and
      one upgrade and a second greeting, and then the authentication alone. */
  function Tell(cfg: Config, m: Option<Mechanism>, c: Chapter): seq<Event> {
    match c
    case Blank => []
    case Greeting(now) => [Asked(Connect(cfg.transport))] + Now(now)
    case StartTls(greeting, now) => ToStartTls(cfg, greeting) + Now(now)
    case TlsUp(greeting, reply) => ToUpgrade(cfg, greeting, reply)
    case TlsGreeting(greeting, reply, now) => ToUpgrade(cfg, greeting, reply) + Now(now)
    case Auth(greeting, None, args) =>
      [Asked(Connect(cfg.transport))] + Reads(greeting) + (if m.Some? then AuthEvents(m.value, args) else [])
    case Auth(greeting, Some(up), args) =>
      ToUpgrade(cfg, greeting, up.reply) + Reads(up.greeting) + (if m.Some? then AuthEvents(m.value, args) else [])
  }

  function ToStartTls(cfg: Config, greeting: seq<bytes>): seq<Event> {
    [Asked(Connect(cfg.transport))] + Reads(greeting) + [Asked(Write(STARTTLS_COMMAND))]
  }

  function ToUpgrade(cfg: Config, greeting: seq<bytes>, reply: seq<bytes>): seq<Event> {
    ToStartTls(cfg, greeting) + Reads(reply) + [Asked(UpgradeTls)]
  }

  /** The authentication was begun by the resume that ended the greeting, whose
      chunk it ignored. */
  function AuthEvents(m: Mechanism, args: seq<Option<bytes>>): seq<Event> {
    AuthLog(m, [None] + args)
  }

  /** A phase still reading has read no response yet. */
  predicate Unfinished(now: Option<seq<bytes>>) {
    now.Some? ==> NonEmptyChunks(now.value) && ReadResponse(Flatten(now.value)) == Incomplete
  }

  /** What must be true for a story to have been told. */
  predicate Founded(cfg: Config, sasl: Option<Mechanism>, c: Chapter) {
    match c
    case Blank => true
    case Greeting(now) => Connectable(cfg) && Unfinished(now)
    case StartTls(greeting, now) => Connectable(cfg) && cfg.startTls && Advertised(greeting) && Unfinished(now)
    case TlsUp(greeting, reply) => Connectable(cfg) && cfg.startTls && Advertised(greeting) && Clean(reply)
    case TlsGreeting(greeting, reply, now) =>
      Connectable(cfg) && cfg.startTls && Advertised(greeting) && Clean(reply) && Unfinished(now)
    case Auth(greeting, upgrade, args) =>
      && Connectable(cfg)
      && sasl.Some? && MayTravel(cfg, upgrade.Some?, sasl.value.name)
      && AuthLegal(sasl.value, [None] + args) && !AuthOutput(sasl.value, [None] + args).Complete?
      && (match upgrade
          case None => !cfg.startTls && Clean(greeting)
          case Some(up) => cfg.startTls && Advertised(greeting) && Clean(up.reply) && Clean(up.greeting))
  }

  predicate Connectable(cfg: Config) {
    !(cfg.startTls && cfg.transport.IsProtected())
  }

  /** The session in which a story has just been told. */
  ghost predicate Stands(sasl: Option<Mechanism>, c: Chapter, s: Session) {
    match c
    case Blank => s == Unopened(sasl)
    case Greeting(now) => s.stage == Greeted(SoFar(now)) && s.sasl == sasl && !s.upgraded
    case StartTls(_, now) => s.stage == Upgrading(Sending(None, SoFar(now))) && s.sasl == sasl && !s.upgraded
    case TlsUp(_, _) => s.stage == Upgraded && s.sasl == sasl && s.upgraded
    case TlsGreeting(_, _, now) => now.Some? && s.stage == GreetedTls(SoFar(now)) && s.sasl == sasl && s.upgraded
    case Auth(_, _, args) => sasl.Some? && s.stage == Authenticating(sasl.value, AuthAfter(sasl.value, [None] + args))
  }

  /** Whether a story ends on a request to read. */
  predicate EndsOnRead(sasl: Option<Mechanism>, c: Chapter) {
    match c
    case Auth(_, _, args) => sasl.Some? && AuthOutput(sasl.value, [None] + args).WantsRead?
    case Greeting(now) => now.Some?
    case StartTls(_, now) => now.Some?
    case TlsGreeting(_, _, now) => now.Some?
    case _ => false
  }

  // -------------------------------------------------------------------------
  // One more resume
  // -------------------------------------------------------------------------

  lemma OneMoreChunk(chunks: seq<bytes>, chunk: bytes)
    ensures Reads(chunks + [chunk]) == Now(Some(chunks)) + [Received(chunk)]
    ensures Flatten(chunks + [chunk]) == Flatten(chunks) + chunk
  {
    var all := chunks + [chunk];
    assert all[..|all| - 1] == chunks;
    FlattenSnoc(chunks, chunk);
    assert [Asked(Read), Received(chunk)] == [Asked(Read)] + [Received(chunk)];
  }

  lemma FirstRead()
    ensures Now(Some([])) == [Asked(Read)] && SoFar(Some([])) == [] && Unfinished(Some([]))
  {
  }

  /** A reply nothing trails leaves its phase clean. */
  lemma CleanEnd(chunks: seq<bytes>, chunk: bytes, r: ReadResult)
    requires Feed(Flatten(chunks), chunk).1 == Complete(r) && AcceptClean(r).Success?
    ensures Clean(chunks + [chunk])
    ensures AcceptClean(r) == Success(ReadResponse(Flatten(chunks + [chunk])).value)
  {
    hide ReadResponse, Flatten;
    OneMoreChunk(chunks, chunk);
  }

  /** A phase that is fed and asks again. */
  lemma StillReading(chunks: seq<bytes>, chunk: bytes, prefix: seq<Event>)
    requires Feed(Flatten(chunks), chunk).1.WantsRead? && Unfinished(Some(chunks))
    ensures Unfinished(Some(chunks + [chunk]))
    ensures Feed(Flatten(chunks), chunk).0 == SoFar(Some(chunks + [chunk]))
    ensures prefix + Now(Some(chunks + [chunk])) == prefix + Now(Some(chunks)) + Arrival(Some(chunk)) + [Asked(Read)]
  {
    hide ReadResponse, Flatten, Reads;
    OneMoreChunk(chunks, chunk);
  }

  /** The first word of the authentication does not depend on the argument. */
  lemma AuthBegins(cfg: Config, s: Session, arg: Option<bytes>)
    requires s.sasl.Some? && Authenticate(cfg, s, arg).1.Ask?
    ensures var (next, out) := Authenticate(cfg, s, arg);
            && MayTravel(cfg, s.upgraded, s.sasl.value.name)
            && next.stage == Authenticating(s.sasl.value, AuthAfter(s.sasl.value, [None] + []))
            && AuthEvents(s.sasl.value, []) == [Asked(out.ask)]
            && AuthLegal(s.sasl.value, [None] + []) && !AuthOutput(s.sasl.value, [None] + []).Complete?
  {
    hide OpenExchange, MayTravel;
    var m := s.sasl.value;
    var once: seq<Option<bytes>> := [None];
    assert once + [] == once && once[..0] == [];
    assert AuthAfter(m, []) == FRESH_AUTH && AuthLog(m, []) == [];
  }

  lemma AuthGoesOn(m: Mechanism, args: seq<Option<bytes>>, arg: Option<bytes>)
    ensures AuthAfter(m, [None] + (args + [arg])) == AuthStep(m, AUTH_OPTIONS, AuthAfter(m, [None] + args), arg).0
    ensures var out := AuthStep(m, AUTH_OPTIONS, AuthAfter(m, [None] + args), arg).1;
            AuthEvents(m, args + [arg]) ==
            AuthEvents(m, args) + Arrival(arg) + if out.Complete? then [] else [Asked(Relay(out))]
    ensures AuthOutput(m, [None] + (args + [arg])) == AuthStep(m, AUTH_OPTIONS, AuthAfter(m, [None] + args), arg).1
    ensures AuthLegal(m, [None] + (args + [arg])) <==>
            && AuthLegal(m, [None] + args) && !AuthOutput(m, [None] + args).Complete?
            && (AuthOutput(m, [None] + args).WantsRead? <==> arg.Some?)
  {
    hide AuthStep;
    var all := [None] + (args + [arg]);
    assert all[..|all| - 1] == [None] + args;
  }

  lemma NextOfBlank(cfg: Config, sasl: Option<Mechanism>, s: Session) returns (c: Chapter)
    requires s == Unopened(sasl) && SessionStep(cfg, s, None).1.Ask?
    ensures var (next, out) := SessionStep(cfg, s, None);
            Founded(cfg, sasl, c) && Stands(sasl, c, next) && Tell(cfg, sasl, c) == [Asked(out.ask)]
  {
    c := Greeting(None);
  }

  lemma NextOfGreeting(cfg: Config, sasl: Option<Mechanism>, now: Option<seq<bytes>>, s: Session, arg: Option<bytes>)
    returns (c: Chapter)
    requires Stands(sasl, Greeting(now), s) && Connectable(cfg) && Unfinished(now)
    requires arg.Some? <==> now.Some?
    requires SessionStep(cfg, s, arg).1.Ask?
    ensures var (next, out) := SessionStep(cfg, s, arg);
            && Founded(cfg, sasl, c) && Stands(sasl, c, next)
            && Tell(cfg, sasl, c) == Tell(cfg, sasl, Greeting(now)) + Arrival(arg) + [Asked(out.ask)]
  {
    hide Unfinished, ReadResponse, Flatten, Reads, Feed, Connectable, Authenticate, AcceptClean, STARTTLS_COMMAND;
    hide Founded, AuthEvents;
    FirstRead();
    if now.None? {
      c := Greeting(Some([]));
      FoundedGreeting(cfg, sasl, c);
    } else {
      var chunks, chunk := now.value, arg.value;
      match Feed(Flatten(chunks), chunk).1
      case WantsRead =>
        StillReading(chunks, chunk, [Asked(Connect(cfg.transport))]);
        c := Greeting(Some(chunks + [chunk]));
        FoundedGreeting(cfg, sasl, c);
      case WantsWrite(_) => NeverWrites(Flatten(chunks), chunk);
      case Complete(r) => c := AfterGreeting(cfg, sasl, chunks, s, chunk, r);
    }
  }

  lemma FoundedGreeting(cfg: Config, sasl: Option<Mechanism>, c: Chapter)
    requires Connectable(cfg) && c.Greeting? && Unfinished(c.now)
    ensures Founded(cfg, sasl, c)
  {
  }

  /** The greeting ends: STARTTLS follows, or the authentication. */
  lemma AfterGreeting(cfg: Config, sasl: Option<Mechanism>, chunks: seq<bytes>, s: Session, chunk: bytes,
                      r: ReadResult) returns (c: Chapter)
    requires Stands(sasl, Greeting(Some(chunks)), s) && Connectable(cfg)
    requires Feed(Flatten(chunks), chunk).1 == Complete(r)
    requires SessionStep(cfg, s, Some(chunk)).1.Ask?
    ensures var (next, out) := SessionStep(cfg, s, Some(chunk));
            && Founded(cfg, sasl, c) && Stands(sasl, c, next)
            && Tell(cfg, sasl, c) ==
               Tell(cfg, sasl, Greeting(Some(chunks))) + Arrival(Some(chunk)) + [Asked(out.ask)]
  {
    hide ReadResponse, Flatten, Reads, Feed, Connectable, Clean, ReadCapabilities, STARTTLS_COMMAND, Authenticate;
    hide Accept;
    hide Founded, Tell, Stands, UpgradingStep;
    StandsGreeting(sasl, chunks, s);
    var seen := s.(capabilities := Replies.Greeting(r).value);
    if cfg.startTls {
      ThenStartTls(cfg, sasl, chunks, seen, chunk, r);
      c := StartTls(chunks + [chunk], None);
    } else {
      ThenAuth(cfg, sasl, chunks, seen, chunk, r);
      c := Chapter.Auth(chunks + [chunk], None, []);
    }
  }

  lemma StandsGreeting(sasl: Option<Mechanism>, chunks: seq<bytes>, s: Session)
    requires Stands(sasl, Greeting(Some(chunks)), s)
    ensures s.stage == Greeted(Flatten(chunks)) && s.sasl == sasl && !s.upgraded
  {
  }

  lemma ThenStartTls(cfg: Config, sasl: Option<Mechanism>, chunks: seq<bytes>, seen: Session, chunk: bytes,
                     r: ReadResult)
    requires seen.sasl == sasl && !seen.upgraded && Connectable(cfg) && cfg.startTls
    requires Feed(Flatten(chunks), chunk).1 == Complete(r)
    requires Replies.Greeting(r).Success? && Replies.Greeting(r).value.StartTls()
    ensures var (next, out) := UpgradingStep(seen, Sending(Some(STARTTLS_COMMAND), []), Some(chunk));
            var c := StartTls(chunks + [chunk], None);
            && out.Ask? && Founded(cfg, sasl, c) && Stands(sasl, c, next)
            && Tell(cfg, sasl, c) ==
               Tell(cfg, sasl, Greeting(Some(chunks))) + Arrival(Some(chunk)) + [Asked(out.ask)]
  {
    hide ReadResponse, Flatten, Reads, Feed, Connectable, ReadCapabilities, STARTTLS_COMMAND, Accept, Clean;
    CleanEnd(chunks, chunk, r);
    OneMoreChunk(chunks, chunk);
  }

  lemma ThenAuth(cfg: Config, sasl: Option<Mechanism>, chunks: seq<bytes>, seen: Session, chunk: bytes, r: ReadResult)
    requires seen.sasl == sasl && !seen.upgraded && Connectable(cfg) && !cfg.startTls
    requires Feed(Flatten(chunks), chunk).1 == Complete(r)
    requires Replies.Greeting(r).Success? && Authenticate(cfg, seen, Some(chunk)).1.Ask?
    ensures var (next, out) := Authenticate(cfg, seen, Some(chunk));
            var c := Chapter.Auth(chunks + [chunk], None, []);
            && Founded(cfg, sasl, c) && Stands(sasl, c, next)
            && Tell(cfg, sasl, c) ==
               Tell(cfg, sasl, Greeting(Some(chunks))) + Arrival(Some(chunk)) + [Asked(out.ask)]
  {
    hide AuthLegal, AuthOutput, ReadResponse, Flatten, Reads, Feed, Connectable, ReadCapabilities, Accept, Clean;
    hide MayTravel, Authenticate, AuthEvents;
    CleanEnd(chunks, chunk, r);
    OneMoreChunk(chunks, chunk);
    MechanismGiven(cfg, seen, Some(chunk));
    AuthBegins(cfg, seen, Some(chunk));
  }

  lemma MechanismGiven(cfg: Config, s: Session, arg: Option<bytes>)
    requires Authenticate(cfg, s, arg).1.Ask?
    ensures s.sasl.Some?
  {
    hide AuthStep;
  }

  lemma NextOfStartTls(cfg: Config, sasl: Option<Mechanism>, greeting: seq<bytes>, now: Option<seq<bytes>>,
                       s: Session, arg: Option<bytes>) returns (c: Chapter)
    requires Stands(sasl, StartTls(greeting, now), s) && Founded(cfg, sasl, StartTls(greeting, now))
    requires arg.Some? <==> now.Some?
    requires SessionStep(cfg, s, arg).1.Ask?
    ensures var (next, out) := SessionStep(cfg, s, arg);
            && Founded(cfg, sasl, c) && Stands(sasl, c, next)
            && Tell(cfg, sasl, c) == Tell(cfg, sasl, StartTls(greeting, now)) + Arrival(arg) + [Asked(out.ask)]
  {
    hide ReadResponse, Flatten, Reads, Feed, Connectable, Accept, Clean, Advertised, ToStartTls, AuthEvents;
    FirstRead();
    if now.None? {
      c := StartTls(greeting, Some([]));
    } else {
      var chunks, chunk := now.value, arg.value;
      match Feed(Flatten(chunks), chunk).1
      case WantsRead =>
        StillReading(chunks, chunk, ToStartTls(cfg, greeting));
        c := StartTls(greeting, Some(chunks + [chunk]));
      case WantsWrite(_) => NeverWrites(Flatten(chunks), chunk);
      case Complete(r) =>
        CleanEnd(chunks, chunk, r);
        OneMoreChunk(chunks, chunk);
        c := TlsUp(greeting, chunks + [chunk]);
    }
  }

  lemma NextOfTlsUp(cfg: Config, sasl: Option<Mechanism>, greeting: seq<bytes>, reply: seq<bytes>, s: Session)
    returns (c: Chapter)
    requires Stands(sasl, TlsUp(greeting, reply), s) && Founded(cfg, sasl, TlsUp(greeting, reply))
    ensures var (next, out) := SessionStep(cfg, s, None);
            && out.Ask? && Founded(cfg, sasl, c) && Stands(sasl, c, next)
            && Tell(cfg, sasl, c) == Tell(cfg, sasl, TlsUp(greeting, reply)) + [Asked(out.ask)]
  {
    hide ToUpgrade, Connectable, Clean, Advertised;
    FirstRead();
    c := TlsGreeting(greeting, reply, Some([]));
  }

  lemma NextOfTlsGreeting(cfg: Config, sasl: Option<Mechanism>, greeting: seq<bytes>, reply: seq<bytes>,
                          chunks: seq<bytes>, s: Session, chunk: bytes) returns (c: Chapter)
    requires Stands(sasl, TlsGreeting(greeting, reply, Some(chunks)), s)
    requires Founded(cfg, sasl, TlsGreeting(greeting, reply, Some(chunks)))
    requires SessionStep(cfg, s, Some(chunk)).1.Ask?
    ensures var (next, out) := SessionStep(cfg, s, Some(chunk));
            && Founded(cfg, sasl, c) && Stands(sasl, c, next)
            && Tell(cfg, sasl, c) ==
               Tell(cfg, sasl, TlsGreeting(greeting, reply, Some(chunks))) + Arrival(Some(chunk)) + [Asked(out.ask)]
  {
    hide Unfinished, AuthLegal, AuthOutput, NonEmptyChunks, ReadResponse, Flatten, Reads, Feed, Connectable;
    hide MayTravel, Clean, Advertised, ReadCapabilities, ToUpgrade, Authenticate, AuthEvents, Accept;
    match Feed(Flatten(chunks), chunk).1
    case WantsRead =>
      StillReading(chunks, chunk, ToUpgrade(cfg, greeting, reply));
      c := TlsGreeting(greeting, reply, Some(chunks + [chunk]));
    case WantsWrite(_) => NeverWrites(Flatten(chunks), chunk);
    case Complete(r) =>
      var seen := s.(capabilities := Replies.Greeting(r).value);
      ThenTlsAuth(cfg, sasl, greeting, reply, chunks, seen, chunk, r);
      c := Chapter.Auth(greeting, Some(Upgrade(reply, chunks + [chunk])), []);
  }

  lemma ThenTlsAuth(cfg: Config, sasl: Option<Mechanism>, greeting: seq<bytes>, reply: seq<bytes>,
                    chunks: seq<bytes>, seen: Session, chunk: bytes, r: ReadResult)
    requires seen.sasl == sasl && seen.upgraded && Connectable(cfg) && cfg.startTls
    requires Advertised(greeting) && Clean(reply) && Feed(Flatten(chunks), chunk).1 == Complete(r)
    requires Replies.Greeting(r).Success? && Authenticate(cfg, seen, Some(chunk)).1.Ask?
    ensures var (next, out) := Authenticate(cfg, seen, Some(chunk));
            var c := Chapter.Auth(greeting, Some(Upgrade(reply, chunks + [chunk])), []);
            && Founded(cfg, sasl, c) && Stands(sasl, c, next)
            && Tell(cfg, sasl, c) ==
               Tell(cfg, sasl, TlsGreeting(greeting, reply, Some(chunks))) + Arrival(Some(chunk)) + [Asked(out.ask)]
  {
    hide AuthLegal, AuthOutput, ReadResponse, Flatten, Reads, Feed, Connectable, ReadCapabilities, Accept, Clean;
    hide Advertised, MayTravel, Authenticate, AuthEvents, ToUpgrade, Tell, Arrival;
    CleanEnd(chunks, chunk, r);
    MechanismGiven(cfg, seen, Some(chunk));
    AuthBegins(cfg, seen, Some(chunk));
    TellsTlsAuth(cfg, sasl, greeting, reply, chunks, chunk, Authenticate(cfg, seen, Some(chunk)).1.ask);
  }

  lemma TellsTlsAuth(cfg: Config, sasl: Option<Mechanism>, greeting: seq<bytes>, reply: seq<bytes>,
                     chunks: seq<bytes>, chunk: bytes, ask: Ask)
    requires sasl.Some? && AuthEvents(sasl.value, []) == [Asked(ask)]
    ensures Tell(cfg, sasl, Chapter.Auth(greeting, Some(Upgrade(reply, chunks + [chunk])), [])) ==
            Tell(cfg, sasl, TlsGreeting(greeting, reply, Some(chunks))) + Arrival(Some(chunk)) + [Asked(ask)]
  {
    hide ToUpgrade, AuthEvents, Reads, Flatten;
    OneMoreChunk(chunks, chunk);
  }

  lemma NextOfAuth(cfg: Config, sasl: Option<Mechanism>, c: Chapter, s: Session, arg: Option<bytes>)
    requires c.Auth? && Stands(sasl, c, s) && Founded(cfg, sasl, c) && SessionStep(cfg, s, arg).1.Ask?
    requires arg.Some? <==> AuthOutput(sasl.value, [None] + c.args).WantsRead?
    ensures var (next, out) := SessionStep(cfg, s, arg);
            var further := Chapter.Auth(c.greeting, c.upgrade, c.args + [arg]);
            && Founded(cfg, sasl, further) && Stands(sasl, further, next)
            && Tell(cfg, sasl, further) == Tell(cfg, sasl, c) + Arrival(arg) + [Asked(out.ask)]
  {
    hide AuthLegal, AuthOutput, AuthStep, Reads, ToUpgrade, AuthEvents, AuthAfter, Connectable, MayTravel, Clean;
    hide Advertised;
    AuthGoesOn(sasl.value, c.args, arg);
  }

  /** One more legal resume adds its events to the story. */
  lemma NextChapter(cfg: Config, sasl: Option<Mechanism>, c: Chapter, s: Session, arg: Option<bytes>)
    returns (d: Chapter)
    requires Stands(sasl, c, s) && Founded(cfg, sasl, c) && SessionStep(cfg, s, arg).1.Ask?
    requires arg.Some? <==> EndsOnRead(sasl, c)
    ensures var (next, out) := SessionStep(cfg, s, arg);
            && Founded(cfg, sasl, d) && Stands(sasl, d, next)
            && Tell(cfg, sasl, d) == Tell(cfg, sasl, c) + Arrival(arg) + [Asked(out.ask)]
  {
    hide SessionStep, Tell, Unfinished, AuthLegal, Clean, Advertised, MayTravel, Flatten, AuthAfter, AuthStep;
    match c
    case Blank =>
      d := NextOfBlank(cfg, sasl, s);
      assert Tell(cfg, sasl, c) == [] by { TellBlank(cfg, sasl); }
    case Greeting(now) => d := NextOfGreeting(cfg, sasl, now, s, arg);
    case StartTls(greeting, now) => d := NextOfStartTls(cfg, sasl, greeting, now, s, arg);
    case TlsUp(greeting, reply) => d := NextOfTlsUp(cfg, sasl, greeting, reply, s);
    case TlsGreeting(greeting, reply, now) =>
      d := NextOfTlsGreeting(cfg, sasl, greeting, reply, now.value, s, arg.value);
    case Auth(_, _, _) =>
      NextOfAuth(cfg, sasl, c, s, arg);
      d := Chapter.Auth(c.greeting, c.upgrade, c.args + [arg]);
  }

  lemma TellBlank(cfg: Config, sasl: Option<Mechanism>)
    ensures Tell(cfg, sasl, Blank) == []
  {
  }

  // -------------------------------------------------------------------------
  // Whole runs
  // -------------------------------------------------------------------------

  lemma LastEvent(cfg: Config, sasl: Option<Mechanism>, c: Chapter, front: seq<Event>, ask: Ask)
    requires c != Blank && Tell(cfg, sasl, c) == front + [Asked(ask)] && Founded(cfg, sasl, c)
    ensures ask.Read? <==> EndsOnRead(sasl, c)
  {
    hide Reads, AuthEvents, AuthLegal, AuthOutput, MayTravel, Clean, Advertised, Connectable;
    var t := Tell(cfg, sasl, c);
    assert t[|t| - 1] == Asked(ask);
    match c
    case Greeting(now) => assert now.Some? ==> t[|t| - 1] == Asked(Read);
    case StartTls(_, now) => assert now.Some? ==> t[|t| - 1] == Asked(Read);
    case TlsUp(_, _) =>
    case TlsGreeting(_, _, now) => assert now.Some? ==> t[|t| - 1] == Asked(Read);
    case Auth(_, _, args) => AuthEventsEnd(sasl.value, args);
  }

  lemma AuthEventsEnd(m: Mechanism, args: seq<Option<bytes>>)
    requires !AuthOutput(m, [None] + args).Complete?
    ensures var events := AuthEvents(m, args);
            && events != [] && events[|events| - 1] == Asked(Relay(AuthOutput(m, [None] + args)))
  {
    hide AuthStep;
  }

  /** Every legal run of the session opener, whatever the servers said, has seen
      exactly the events of a founded story. */
  lemma {:induction false} EveryRunIsAStory(cfg: Config, sasl: Option<Mechanism>, args: seq<Option<bytes>>)
    returns (c: Chapter)
    requires Legal(cfg, sasl, args) && (args != [] ==> Output(cfg, sasl, args).Ask?)
    ensures Founded(cfg, sasl, c) && Stands(sasl, c, SessionAfter(cfg, sasl, args))
    ensures Log(cfg, sasl, args) == Tell(cfg, sasl, c)
    ensures args != [] ==> c != Blank
    decreases |args|
  {
    hide SessionStep, Tell, Founded, Stands, EndsOnRead;
    if args == [] {
      c := Blank;
      BlankStands(cfg, sasl);
    } else {
      var before, arg := args[..|args| - 1], args[|args| - 1];
      var b := EveryRunIsAStory(cfg, sasl, before);
      if before == [] {
        OnlyBlank(cfg, sasl, b);
      } else {
        var front := LogEnds(cfg, sasl, before);
        LastEvent(cfg, sasl, b, front, Output(cfg, sasl, before).ask);
      }
      c := NextChapter(cfg, sasl, b, SessionAfter(cfg, sasl, before), arg);
      if c == Blank {
        TellBlank(cfg, sasl);
      }
    }
  }

  lemma BlankStands(cfg: Config, sasl: Option<Mechanism>)
    ensures Founded(cfg, sasl, Blank) && Stands(sasl, Blank, Unopened(sasl)) && Tell(cfg, sasl, Blank) == []
  {
  }

  lemma OnlyBlank(cfg: Config, sasl: Option<Mechanism>, c: Chapter)
    requires Stands(sasl, c, Unopened(sasl))
    ensures c == Blank && !EndsOnRead(sasl, c)
  {
    hide AuthAfter;
  }

  lemma LogEnds(cfg: Config, sasl: Option<Mechanism>, args: seq<Option<bytes>>) returns (front: seq<Event>)
    requires args != [] && Output(cfg, sasl, args).Ask?
    ensures Log(cfg, sasl, args) == front + [Asked(Output(cfg, sasl, args).ask)]
  {
    hide SessionStep;
    front := Log(cfg, sasl, args[..|args| - 1]) + Arrival(args[|args| - 1]);
  }

  lemma NeverWrites(buf: bytes, chunk: bytes)
    ensures !Feed(buf, chunk).1.WantsWrite?
  {
    hide ReadResponse;
  }
}
