/** Opening a session (src/session.rs), as a machine on values: greeting,
    STARTTLS, second greeting and authentication, one after the other. */
module Opening {
  import opened Bytes
  import opened Reader
  import opened Replies
  import opened Exchange
  import Command

  datatype Transport = Tcp(host: bytes, port: nat) | Tls(host: bytes, port: nat) | Unix(path: bytes) {
    /** Only plain TCP crosses a network in the clear. */
    predicate IsProtected() {
      !Tcp?
    }
  }

  datatype Config = Config(transport: Transport, startTls: bool, allowCleartextAuth: bool)

  datatype SessionError =
    | StartTlsOverTls
    | StartTlsUnsupported
    | CleartextAuth(name: Command.MechanismName)
    | GreetingFailed(reply: ReplyError)
    | StartTlsFailed(reply: ReplyError)
    | AuthenticateFailed(auth: AuthError)

  datatype Ask =
    | Connect(transport: Transport)
    | UpgradeTls
    | Read
    | Write(octets: bytes)

  datatype SessionProgress = Ask(ask: Ask) | Finished(result: Result<Capabilities, SessionError>)

  datatype Stage =
    | Unconnected
    | Greeted(buf: bytes)
    | Upgrading(send: Sending)
    | Upgraded
    | GreetedTls(buf: bytes)
    | Authenticating(mechanism: Mechanism, auth: Auth)

  datatype Session = Session(stage: Stage, sasl: Option<Mechanism>, capabilities: Capabilities, upgraded: bool)

  /** The mechanisms that hand an observer something to replay. */
  predicate Discloses(name: Command.MechanismName) {
    name == Command.Plain || name == Command.Login || name == Command.OAuthBearer || name == Command.XOAuth2
  }

  const AUTH_OPTIONS := Options(true, true)

  const STARTTLS_COMMAND: bytes := Command.Command.StartTls.Serialize()

  /** Whether the credentials may travel. */
  predicate MayTravel(cfg: Config, upgraded: bool, name: Command.MechanismName) {
    upgraded || cfg.transport.IsProtected() || cfg.allowCleartextAuth || !Discloses(name)
  }

  function Relay<T>(p: Progress<T>): Ask
    requires !p.Complete?
  {
    match p
    case WantsRead => Read
    case WantsWrite(octets) => Write(octets)
  }

  function AuthenticatingStep(s: Session, m: Mechanism, auth: Auth, arg: Option<bytes>): (Session, SessionProgress) {
    var (next, out) := AuthStep(m, AUTH_OPTIONS, auth, arg);
    match out
    case Complete(Failure(e)) => (s, Finished(Failure(AuthenticateFailed(e))))
    case Complete(Success(capabilities)) => (s, Finished(Success(capabilities)))
    case _ => (s.(stage := Authenticating(m, next)), Ask(Relay(out)))
  }

  /** Authenticates, or ends there when no mechanism was given. The argument is
      the one that completed the greeting, still untaken. */
  function Authenticate(cfg: Config, s: Session, arg: Option<bytes>): (Session, SessionProgress) {
    match s.sasl
    case None => (s, Finished(Success(s.capabilities)))
    case Some(m) =>
      if !MayTravel(cfg, s.upgraded, m.name) then (s, Finished(Failure(CleartextAuth(m.name))))
      else AuthenticatingStep(s.(sasl := None), m, FRESH_AUTH, arg)
  }

  function UpgradingStep(s: Session, send: Sending, arg: Option<bytes>): (Session, SessionProgress) {
    var (next, out) := SendStep(send, arg);
    match out
    case Complete(r) =>
      (match StartTlsReply(r)
       case Failure(e) => (s, Finished(Failure(StartTlsFailed(e))))
       case Success(_) => (s.(stage := Upgraded, upgraded := true), Ask(UpgradeTls)))
    case _ => (s.(stage := Upgrading(next)), Ask(Relay(out)))
  }

  function GreetedStep(cfg: Config, s: Session, buf: bytes, arg: Option<bytes>): (Session, SessionProgress) {
    var (next, out) := ReadStep(buf, arg);
    match out
    case Complete(r) =>
      (match Greeting(r)
       case Failure(e) => (s, Finished(Failure(GreetingFailed(e))))
       case Success(capabilities) =>
         var seen := s.(capabilities := capabilities);
         if !cfg.startTls then Authenticate(cfg, seen, arg)
         else if !capabilities.StartTls() then (seen, Finished(Failure(StartTlsUnsupported)))
         else UpgradingStep(seen, Sending(Some(STARTTLS_COMMAND), []), arg))
    case _ => (s.(stage := Greeted(next)), Ask(Relay(out)))
  }

  function GreetedTlsStep(cfg: Config, s: Session, buf: bytes, arg: Option<bytes>): (Session, SessionProgress) {
    var (next, out) := ReadStep(buf, arg);
    match out
    case Complete(r) =>
      (match Greeting(r)
       case Failure(e) => (s, Finished(Failure(GreetingFailed(e))))
       case Success(capabilities) => Authenticate(cfg, s.(capabilities := capabilities), arg))
    case _ => (s.(stage := GreetedTls(next)), Ask(Relay(out)))
  }

  function SessionStep(cfg: Config, s: Session, arg: Option<bytes>): (Session, SessionProgress) {
    match s.stage
    case Unconnected =>
      if cfg.startTls && cfg.transport.IsProtected() then (s, Finished(Failure(StartTlsOverTls)))
      else (s.(stage := Greeted([])), Ask(Connect(cfg.transport)))
    case Greeted(buf) => GreetedStep(cfg, s, buf, arg)
    case Upgrading(send) => UpgradingStep(s, send, arg)
    case Upgraded => GreetedTlsStep(cfg, s, [], arg)
    case GreetedTls(buf) => GreetedTlsStep(cfg, s, buf, arg)
    case Authenticating(m, auth) => AuthenticatingStep(s, m, auth, arg)
  }

  function Unopened(sasl: Option<Mechanism>): Session {
    Session(Unconnected, sasl, NO_CAPABILITIES, false)
  }
}
