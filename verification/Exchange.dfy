/** The AUTHENTICATE exchange (src/rfc5804/authenticate.rs), as a machine on
    values: what it does with each line, and with each resume. */
module Exchange {
  import opened Bytes
  import opened Scanner
  import opened Response
  import opened Reader
  import opened Replies
  import opened Command
  import Printer
  import Base64

  /** What a mechanism is told. */
  datatype SaslArg = Begin | Input(octets: bytes) | Done

  /** What it answers: data to send, a wait, the end, or a refusal. */
  datatype SaslReply = Send(octets: bytes) | Wait | Finish | Refuse(reason: int)

  /** A mechanism is any deterministic machine: its reply depends on everything
      it has been told so far, the last argument included. */
  datatype Mechanism = Mechanism(name: MechanismName, react: seq<SaslArg> -> SaslReply)

  datatype Options = Options(initialResponse: bool, ensureCapabilities: bool)

  datatype AuthError =
    | RejectedBy(completion: Completion)
    | UnsupportedMechanism(name: MechanismName)
    | UnexpectedOk
    | InvalidChallenge
    | InvalidBase64
    | RefusedBy(reason: int)
    | RefreshFailed(reply: ReplyError)
    | MalformedLine(parse: ParseError)
    | Broken(send: SendError)

  type AuthResult = Result<Capabilities, AuthError>

  /** The exchange between two resumes. */
  datatype Phase =
    | Start
    | Reading(pending: Option<bytes>)
    | Aborting(cause: AuthError)
    | Refreshing(send: Sending)

  /** `heard` is everything the mechanism was told, which is its whole state. */
  datatype Auth = Auth(phase: Phase, heard: seq<SaslArg>, buf: bytes)

  const CANCEL_LINE: bytes := [QUOTE, STAR, QUOTE] + CRLF

  /** The two Kerberos relays are not framed. */
  predicate Supported(name: MechanismName) {
    name != Gssapi && name != Gs2Krb5
  }

  /** The payload a mechanism wants written after hearing `heard`. */
  function Consult(m: Mechanism, heard: seq<SaslArg>): Result<Option<bytes>, AuthError> {
    match m.react(heard)
    case Send(octets) => Success(Some(octets))
    case Wait => Success(None)
    case Finish => Success(None)
    case Refuse(reason) => Failure(RefusedBy(reason))
  }

  /** A client response: base64, as a string, on a line of its own. */
  function ClientResponse(payload: bytes): bytes {
    Printer.StringOf(Base64.Encode(payload)) + CRLF
  }

  function OrEmpty(payload: Option<bytes>): bytes {
    if payload.Some? then payload.value else []
  }

  // -------------------------------------------------------------------------
  // One line
  // -------------------------------------------------------------------------

  /** The command to open with and the payload held back for the first
      challenge, when the mechanism speaks first and is not inlined. */
  datatype Opening =
    | NoOpening(error: AuthError)
    | Opening(command: bytes, pending: Option<bytes>)

  function OpenExchange(m: Mechanism, opts: Options): Opening {
    if !Supported(m.name) then NoOpening(UnsupportedMechanism(m.name))
    else
      match Consult(m, [Begin])
      case Failure(e) => NoOpening(e)
      case Success(payload) =>
        if opts.initialResponse && m.name != Login then Opening(Authenticate(m.name, payload).Serialize(), None)
        else Opening(Authenticate(m.name, None).Serialize(), payload)
  }

  /** What one server line leads to. */
  datatype Reaction =
    | Answer(octets: bytes, heard: seq<SaslArg>)
    | Cancel(cause: AuthError, heard: seq<SaslArg>)
    | Stop(result: AuthResult, heard: seq<SaslArg>)
    | Refresh(heard: seq<SaslArg>)

  /** A challenge is answered from what was held back, or else decoded and fed
      to the mechanism. */
  function OnChallenge(m: Mechanism, heard: seq<SaslArg>, pending: Option<bytes>, challenge: bytes): Reaction {
    match pending
    case Some(payload) => Answer(ClientResponse(payload), heard)
    case None =>
      match Base64.Decode(challenge)
      case None => Cancel(InvalidBase64, heard)
      case Some(octets) =>
        match Consult(m, heard + [Input(octets)])
        case Failure(e) => Cancel(e, heard + [Input(octets)])
        case Success(payload) => Answer(ClientResponse(OrEmpty(payload)), heard + [Input(octets)])
  }

  /** The end of the exchange is put to the mechanism. */
  function CloseExchange(m: Mechanism, opts: Options, heard: seq<SaslArg>): Reaction {
    match Consult(m, heard + [Done])
    case Failure(e) => Stop(Failure(e), heard + [Done])
    case Success(_) =>
      if opts.ensureCapabilities then Refresh(heard + [Done])
      else Stop(Success(NO_CAPABILITIES), heard + [Done])
  }

  /** A completion ends the exchange; data riding on an OK is fed to the
      mechanism before it is asked to close. */
  function OnCompletion(m: Mechanism, opts: Options, heard: seq<SaslArg>, pending: Option<bytes>,
                        c: Completion): Reaction {
    if c.status != Ok then Stop(Failure(RejectedBy(c)), heard)
    else if pending.Some? then Stop(Failure(UnexpectedOk), heard)
    else if c.code.Some? && c.code.value.Sasl? then
      match Base64.Decode(c.code.value.data)
      case None => Stop(Failure(InvalidBase64), heard)
      case Some(octets) =>
        (match Consult(m, heard + [Input(octets)])
         case Failure(e) => Stop(Failure(e), heard + [Input(octets)])
         case Success(_) => CloseExchange(m, opts, heard + [Input(octets)]))
    else CloseExchange(m, opts, heard)
  }

  function OnLine(m: Mechanism, opts: Options, heard: seq<SaslArg>, pending: Option<bytes>, line: Line): Reaction {
    match line
    case Data(data) =>
      (match data.StringAt(0)
       case None => Stop(Failure(InvalidChallenge), heard)
       case Some(challenge) => OnChallenge(m, heard, pending, challenge))
    case Final(completion) => OnCompletion(m, opts, heard, pending, completion)
  }

  // -------------------------------------------------------------------------
  // One resume
  // -------------------------------------------------------------------------

  function RefreshResult(r: ReadResult): AuthResult {
    match CapabilityReply(r)
    case Failure(e) => Failure(RefreshFailed(e))
    case Success(capabilities) => Success(capabilities)
  }

  function RefreshStep(heard: seq<SaslArg>, buf: bytes, send: Sending, arg: Option<bytes>): (Auth,
                       Progress<AuthResult>) {
    var (next, progress) := SendStep(send, arg);
    (Auth(Refreshing(next), heard, buf),
     match progress
     case WantsRead => WantsRead
     case WantsWrite(octets) => WantsWrite(octets)
     case Complete(r) => Complete(RefreshResult(r)))
  }

  const FRESH_REFRESH := Sending(Some(Command.Capability.Serialize()), [])

  /** Carries out a reaction; `rest` is what the buffer holds past the line. */
  function Perform(r: Reaction, rest: bytes): (Auth, Progress<AuthResult>) {
    match r
    case Answer(octets, heard) => (Auth(Reading(None), heard, rest), WantsWrite(octets))
    case Cancel(cause, heard) => (Auth(Aborting(cause), heard, rest), WantsWrite(CANCEL_LINE))
    case Stop(result, heard) => (Auth(Reading(None), heard, rest), Complete(result))
    case Refresh(heard) => RefreshStep(heard, rest, FRESH_REFRESH, None)
  }

  function ReadingStep(m: Mechanism, opts: Options, a: Auth, pending: Option<bytes>, data: bytes): (Auth,
                       Progress<AuthResult>) {
    var buf := a.buf + data;
    match ReadLine(buf)
    case Failed(e) => (a.(buf := buf), Complete(Failure(MalformedLine(e))))
    case Incomplete =>
      (a.(buf := buf),
       if |buf| > MAX_RESPONSE then Complete(Failure(Broken(ResponseTooLarge))) else WantsRead)
    case Parsed(line, n) => Perform(OnLine(m, opts, a.heard, pending, line), buf[n..])
  }

  /** Drops lines up to a completion, or up to what can no longer be read. */
  function Drain(buf: bytes): (d: (bool, bytes))
    ensures |d.1| <= |buf|
    decreases |buf|
  {
    match ReadLine(buf)
    case Incomplete => (|buf| > MAX_RESPONSE, buf)
    case Failed(_) => (true, buf)
    case Parsed(Final(_), n) => (true, buf[n..])
    case Parsed(Data(_), n) => Drain(buf[n..])
  }

  function AbortingStep(a: Auth, cause: AuthError, data: bytes): (Auth, Progress<AuthResult>) {
    var (done, rest) := Drain(a.buf + data);
    (a.(buf := rest), if done then Complete(Failure(cause)) else WantsRead)
  }

  function AuthStep(m: Mechanism, opts: Options, a: Auth, arg: Option<bytes>): (Auth, Progress<AuthResult>) {
    match a.phase
    case Start =>
      (match OpenExchange(m, opts)
       case NoOpening(e) => (a.(heard := if Supported(m.name) then [Begin] else []), Complete(Failure(e)))
       case Opening(command, pending) => (Auth(Reading(pending), [Begin], a.buf), WantsWrite(command)))
    case Reading(pending) =>
      if arg == Some([]) then (a, Complete(Failure(Broken(Eof))))
      else ReadingStep(m, opts, a, pending, OrEmpty(arg))
    case Aborting(cause) =>
      if arg == Some([]) then (a, Complete(Failure(cause)))
      else AbortingStep(a, cause, OrEmpty(arg))
    case Refreshing(send) => RefreshStep(a.heard, a.buf, send, arg)
  }

  const FRESH_AUTH := Auth(Start, [], [])
}
