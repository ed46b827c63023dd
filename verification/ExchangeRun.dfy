/** Whole runs of the AUTHENTICATE exchange, for any mechanism and any server,
    against a reference that reads the stream line by line without a buffer. */
module ExchangeRun {
  import opened Bytes
  import opened Scanner
  import opened Response
  import opened Reader
  import opened Replies
  import opened Exchange
  import Command
  import R = Reading

  /** What a run wrote, everything it told the mechanism, and how it ended. */
  datatype Transcript = Transcript(writes: seq<bytes>, heard: seq<SaslArg>, result: AuthResult)

  function After(octets: bytes, t: Transcript): Transcript {
    t.(writes := [octets] + t.writes)
  }

  // -------------------------------------------------------------------------
  // Runs
  // -------------------------------------------------------------------------

  function Rank(phase: Phase): nat {
    match phase
    case Start => 3
    case Reading(_) => 2
    case Aborting(_) => 1
    case Refreshing(send) => if send.unsent.Some? then 1 else 0
  }

  /** Every resume that does not end the run makes progress. */
  lemma StepShrinks(m: Mechanism, opts: Options, a: Auth, arg: Option<bytes>)
    ensures var (next, out) := AuthStep(m, opts, a, arg);
            var held := |a.buf| + |OrEmpty(arg)|;
            match out
            case WantsRead => Rank(next.phase) == Rank(a.phase) && |next.buf| <= held
            case WantsWrite(_) =>
              Rank(next.phase) < Rank(a.phase) || (Rank(next.phase) == Rank(a.phase) && |next.buf| < held)
            case Complete(_) => true
  {
    hide ReadLine, OnLine, OpenExchange, ReadResponse, CapabilityReply;
  }

  /** Resumes the exchange to its end, delivering chunks on demand; past the
      last one the stream has ended. */
  function Run(m: Mechanism, opts: Options, a: Auth, arg: Option<bytes>, chunks: seq<bytes>): Transcript
    decreases Rank(a.phase), |a.buf| + |OrEmpty(arg)| + |Flatten(chunks)|, |chunks|
  {
    StepShrinks(m, opts, a, arg);
    var (next, out) := AuthStep(m, opts, a, arg);
    match out
    case Complete(result) => Transcript([], next.heard, result)
    case WantsWrite(octets) => After(octets, Run(m, opts, next, None, chunks))
    case WantsRead =>
      if chunks == [] then AtEnd(AuthStep(m, opts, next, Some([])))
      else Run(m, opts, next, Some(chunks[0]), chunks[1..])
  }

  function AtEnd(last: (Auth, Progress<AuthResult>)): Transcript {
    Transcript([], last.0.heard, if last.1.Complete? then last.1.result else Failure(Broken(Eof)))
  }

  // -------------------------------------------------------------------------
  // The reference
  // -------------------------------------------------------------------------

  /** The exchange on a whole stream, each line read off the front of what is
      left. `refresh` is how a capability refresh would end. */
  function Reference(m: Mechanism, opts: Options, heard: seq<SaslArg>, pending: Option<bytes>, stream: bytes,
                     refresh: AuthResult): Transcript
    decreases |stream|
  {
    match ReadLine(stream)
    case Incomplete => Transcript([], heard, Unterminated(stream))
    case Failed(e) => Transcript([], heard, Failure(MalformedLine(e)))
    case Parsed(line, n) =>
      match OnLine(m, opts, heard, pending, line)
      case Answer(octets, told) => After(octets, Reference(m, opts, told, None, stream[n..], refresh))
      case Cancel(cause, told) => Transcript([CANCEL_LINE], told, Failure(cause))
      case Stop(result, told) => Transcript([], told, result)
      case Refresh(told) => Transcript([Command.Command.Capability.Serialize()], told, refresh)
  }

  /** A line that never ends is given up at the ceiling, or at the end of the
      stream when that comes first. */
  function Unterminated(stream: bytes): AuthResult {
    Failure(Broken(if |stream| > MAX_RESPONSE then ResponseTooLarge else Eof))
  }

  /** How a capability refresh ends, reading chunks on demand. */
  function RefreshOutcome(chunks: seq<bytes>): AuthResult {
    RefreshResult(R.Drive([], chunks).result)
  }

  /** The outcome of a capability refresh whose reply is read from `s`. */
  function Refreshed(s: bytes): AuthResult {
    RefreshResult(Untrailed(R.Whole(s)))
  }

  /** A read with nothing after it. */
  function Untrailed(v: Result<Response, SendError>): ReadResult {
    match v
    case Success(r) => Success(ReadOk(r, []))
    case Failure(e) => Failure(e)
  }

  function WholeExchange(m: Mechanism, opts: Options, stream: bytes, refresh: AuthResult): Transcript {
    match OpenExchange(m, opts)
    case NoOpening(e) => Transcript([], if Supported(m.name) then [Begin] else [], Failure(e))
    case Opening(command, pending) => After(command, Reference(m, opts, [Begin], pending, stream, refresh))
  }

  /** The line at the front of a stream is not decided past the ceiling only. */
  predicate LineDecided(stream: bytes) {
    ReadLine(R.Window(stream)) == Incomplete ==> ReadLine(stream) == Incomplete
  }

  /** No line the exchange comes to is decided past the ceiling only. */
  predicate EveryLineDecided(m: Mechanism, opts: Options, heard: seq<SaslArg>, pending: Option<bytes>, stream: bytes)
    decreases |stream|
  {
    && LineDecided(stream)
    && match ReadLine(stream)
       case Parsed(line, n) =>
         (match OnLine(m, opts, heard, pending, line)
          case Answer(_, told) => EveryLineDecided(m, opts, told, None, stream[n..])
          case _ => true)
       case _ => true
  }

  /** The same of a whole exchange. */
  predicate Decided(m: Mechanism, opts: Options, stream: bytes) {
    match OpenExchange(m, opts)
    case NoOpening(_) => true
    case Opening(_, pending) => EveryLineDecided(m, opts, [Begin], pending, stream)
  }

  const TOO_LARGE: AuthResult := Failure(Broken(ResponseTooLarge))

  // -------------------------------------------------------------------------
  // Runs follow the reference
  // -------------------------------------------------------------------------

  /** Once the exchange is being given up, nothing more is written and the
      cause is what it reports, whatever arrives and however it ends. */
  lemma {:induction false} AbortReportsCause(m: Mechanism, opts: Options, a: Auth, arg: Option<bytes>,
                                             chunks: seq<bytes>)
    requires a.phase.Aborting?
    ensures Run(m, opts, a, arg, chunks) == Transcript([], a.heard, Failure(a.phase.cause))
    decreases |chunks|
  {
    hide Drain;
    var (next, out) := AuthStep(m, opts, a, arg);
    if out.WantsRead? && chunks != [] {
      AbortReportsCause(m, opts, next, Some(chunks[0]), chunks[1..]);
    }
  }

  /** A capability refresh is a read of its own. */
  lemma {:induction false} RefreshReads(m: Mechanism, opts: Options, heard: seq<SaslArg>, rest: bytes, buf: bytes,
                                        chunks: seq<bytes>)
    ensures Run(m, opts, Auth(Refreshing(Sending(None, buf)), heard, rest), None, chunks) ==
            Transcript([], heard, RefreshResult(R.Drive(buf, chunks).result))
    decreases |chunks|
  {
    hide ReadResponse, CapabilityReply;
    var a := Auth(Refreshing(Sending(None, buf)), heard, rest);
    assert AuthStep(m, opts, a, None) == (a, WantsRead);
    if chunks != [] {
      var (next, out) := Feed(buf, chunks[0]);
      if !out.Complete? {
        RefreshReads(m, opts, heard, rest, next, chunks[1..]);
        RefreshAsksAgain(m, opts, heard, rest, buf, chunks);
      }
    }
  }

  lemma RefreshAsksAgain(m: Mechanism, opts: Options, heard: seq<SaslArg>, rest: bytes, buf: bytes, chunks: seq<bytes>)
    requires chunks != [] && !Feed(buf, chunks[0]).1.Complete?
    ensures Run(m, opts, Auth(Refreshing(Sending(None, buf)), heard, rest), Some(chunks[0]), chunks[1..]) ==
            Run(m, opts, Auth(Refreshing(Sending(None, Feed(buf, chunks[0]).0)), heard, rest), None, chunks[1..])
  {
    hide ReadResponse, CapabilityReply;
  }

  /** Whether the exchange on a stream ends in a capability refresh, and after
      how many octets. */
  function RefreshPoint(m: Mechanism, opts: Options, heard: seq<SaslArg>, pending: Option<bytes>,
                        stream: bytes): Option<nat>
    decreases |stream|
  {
    match ReadLine(stream)
    case Parsed(line, n) =>
      (match OnLine(m, opts, heard, pending, line)
       case Answer(_, told) =>
         (match RefreshPoint(m, opts, told, None, stream[n..])
          case None => None
          case Some(k) => Some(n + k))
       case Refresh(_) => Some(n)
       case _ => None)
    case _ => None
  }

  /** `k` chunks, with `held` octets before them, are the fewest that hold
      `n` octets. */
  predicate Reaches(held: nat, chunks: seq<bytes>, k: nat, n: nat) {
    && k <= |chunks|
    && n <= held + |Flatten(chunks[..k])|
    && (k > 0 ==> held + |Flatten(chunks[..k - 1])| < n)
  }

  lemma RunWaits(m: Mechanism, opts: Options, a: Auth, arg: Option<bytes>, chunks: seq<bytes>)
    requires a.phase.Reading? && arg != Some([])
    requires ReadLine(a.buf + OrEmpty(arg)) == Incomplete && |a.buf + OrEmpty(arg)| <= MAX_RESPONSE
    ensures Run(m, opts, a, arg, chunks) ==
            if chunks == [] then Transcript([], a.heard, Failure(Broken(Eof)))
            else Run(m, opts, a.(buf := a.buf + OrEmpty(arg)), Some(chunks[0]), chunks[1..])
  {
    hide ReadLine, OnLine;
    var next := a.(buf := a.buf + OrEmpty(arg));
    assert AuthStep(m, opts, a, arg) == (next, WantsRead);
  }

  lemma ReachesMore(b: bytes, chunks: seq<bytes>, j: nat, p: Option<nat>)
    requires chunks != [] && j <= |chunks| - 1
    requires p.Some? ==> |b| < p.value && Reaches(|b + chunks[0]|, chunks[1..], j, p.value)
    ensures p.Some? ==> Reaches(|b|, chunks, j + 1, p.value)
  {
    var rest := chunks[1..];
    assert chunks[..j + 1] == [chunks[0]] + rest[..j];
    if j > 0 {
      assert chunks[..j] == [chunks[0]] + rest[..j - 1];
      assert chunks[..j][1..] == rest[..j - 1];
    } else {
      assert Flatten(chunks[..0]) == [];
    }
    assert chunks[..j + 1][1..] == rest[..j];
  }

  /** What a run does with the line at the front of its buffer. */
  lemma {:induction false} RunReacts(m: Mechanism, opts: Options, a: Auth, arg: Option<bytes>, chunks: seq<bytes>)
    requires a.phase.Reading? && arg != Some([])
    requires ReadLine(a.buf + OrEmpty(arg)).Parsed?
    ensures var b := a.buf + OrEmpty(arg);
            var rest := b[ReadLine(b).consumed..];
            Run(m, opts, a, arg, chunks) ==
            match OnLine(m, opts, a.heard, a.phase.pending, ReadLine(b).value)
            case Answer(octets, told) => After(octets, Run(m, opts, Auth(Reading(None), told, rest), None, chunks))
            case Cancel(cause, told) => After(CANCEL_LINE,
              Run(m, opts, Auth(Aborting(cause), told, rest), None, chunks))
            case Stop(result, told) => Transcript([], told, result)
            case Refresh(told) =>
              After(Command.Command.Capability.Serialize(),
                    Run(m, opts, Auth(Refreshing(Sending(None, [])), told, rest), None, chunks))
  {
    hide ReadLine, OnLine, Command.Command.Serialize, ReadStep;
    var b := a.buf + OrEmpty(arg);
    assert AuthStep(m, opts, a, arg) ==
           Perform(OnLine(m, opts, a.heard, a.phase.pending, ReadLine(b).value), b[ReadLine(b).consumed..]);
  }

  lemma {:induction false} RunStarts(m: Mechanism, opts: Options, chunks: seq<bytes>)
    ensures Run(m, opts, FRESH_AUTH, None, chunks) ==
            match OpenExchange(m, opts)
            case NoOpening(e) => Transcript([], if Supported(m.name) then [Begin] else [], Failure(e))
            case Opening(command, pending) =>
              After(command, Run(m, opts, Auth(Reading(pending), [Begin], []), None, chunks))
  {
    hide OpenExchange;
  }
}
