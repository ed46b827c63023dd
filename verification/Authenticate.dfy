/** The AUTHENTICATE coroutine: one object rewriting its own state. */
module Authenticate {
  import opened Bytes
  import opened Scanner
  import opened Response
  import opened Reader
  import opened Replies
  import opened Exchange
  import Command
  import Base64

  /** The states of the coroutine. Two of them, the one holding a command to
      write and the one about to cancel, are left before a resume returns. */
  datatype State =
    | Fresh
    | Write(octets: bytes, pending: Option<bytes>)
    | Read(pending: Option<bytes>)
    | Cancelling(error: Option<AuthError>)
    | Abort(error: Option<AuthError>)
    | Refreshed(send: CommandSend)

  class Authenticate {
    const described: Mechanism
    const opts: Options
    var state: State
    var sasl: Option<Mechanism>
    var mechanism: Option<Mechanism>
    var heard: seq<SaslArg>
    var buf: bytes
    var wantsRead: bool
    ghost var asked: bool

    ghost function Repr(): set<object>
      reads this
    {
      {this} + (if state.Refreshed? then {state.send, state.send.read} else {})
    }

    /** Between two resumes: credentials are there to take until they are
        taken, a cause of cancellation is there to report until it is, and the
        coroutine never waits holding more than the ceiling. */
    ghost predicate Valid()
      reads this, Repr()
    {
      && !wantsRead
      && |buf| <= ISIZE_MAX
      && (asked && !state.Refreshed? ==> |buf| <= MAX_RESPONSE)
      && (match state
          case Fresh => sasl == Some(described) && mechanism.None? && heard == [] && !asked
          case Read(_) => mechanism == Some(described)
          case Abort(error) => mechanism == Some(described) && error.Some?
          case Refreshed(send) => mechanism == Some(described) && send.Valid()
          case _ => false)
    }

    /** The machine on values this object stands for. */
    ghost function View(): Auth
      requires Valid()
      reads this, Repr()
    {
      var phase := match state
        case Fresh => Phase.Start
        case Read(pending) => Reading(pending)
        case Abort(error) => Aborting(error.value)
        case Refreshed(send) => Refreshing(send.State())
        case _ => Phase.Start;
      Auth(phase, heard, buf)
    }

    constructor (m: Mechanism, opts: Options)
      ensures Valid() && View() == FRESH_AUTH && Repr() == {this}
      ensures this.described == m && this.opts == opts
    {
      described := m;
      this.opts := opts;
      state := Fresh;
      sasl := Some(m);
      mechanism := None;
      heard := [];
      buf := [];
      wantsRead := false;
      asked := false;
    }

    /** Tells the mechanism one more thing. */
    method ResumeSasl(arg: SaslArg) returns (r: Result<Option<bytes>, AuthError>)
      requires mechanism == Some(described)
      modifies this`heard
      ensures heard == old(heard) + [arg]
      ensures r == Consult(described, heard)
    {
      heard := heard + [arg];
      match mechanism.value.react(heard) {
        case Send(octets) => return Success(Some(octets));
        case Wait => return Success(None);
        case Finish => return Success(None);
        case Refuse(reason) => return Failure(RefusedBy(reason));
      }
    }

    /** Takes the first line held, or wants a read when none is whole. */
    method TakeLine() returns (r: Result<Option<Line>, AuthError>)
      requires |buf| <= ISIZE_MAX && !wantsRead
      modifies this`buf, this`wantsRead
      ensures match ReadLine(old(buf))
              case Failed(e) => r == Failure(MalformedLine(e)) && buf == old(buf) && !wantsRead
              case Parsed(line, n) => r == Success(Some(line)) && buf == old(buf)[n..] && !wantsRead
              case Incomplete =>
                buf == old(buf) && wantsRead == (|buf| <= MAX_RESPONSE)
                && r == if |buf| > MAX_RESPONSE then Failure(Broken(ResponseTooLarge)) else Success(None)
    {
      hide ReadLine;
      var parsed := ParseLine(buf);
      match parsed {
        case Failed(e) => return Failure(MalformedLine(e));
        case Incomplete =>
          if |buf| > MAX_RESPONSE {
            return Failure(Broken(ResponseTooLarge));
          }
          wantsRead := true;
          return Success(None);
        case Parsed(line, consumed) =>
          buf := buf[consumed..];
          return Success(Some(line));
      }
    }

    /** Drops what the server says to a cancellation, line by line. Answers true
        once a completion went by, or once waiting for one is pointless. */
    method SawCancellationReply() returns (seen: bool)
      requires |buf| <= ISIZE_MAX
      modifies this`buf
      ensures (seen, buf) == Drain(old(buf))
      ensures !seen ==> |buf| <= MAX_RESPONSE
    {
      hide ReadLine;
      while true
        invariant |buf| <= ISIZE_MAX && Drain(buf) == Drain(old(buf))
        decreases |buf|
      {
        var parsed := ParseLine(buf);
        match parsed {
          case Incomplete => return |buf| > MAX_RESPONSE;
          case Failed(_) => return true;
          case Parsed(line, consumed) =>
            buf := buf[consumed..];
            if line.Final? {
              return true;
            }
        }
      }
    }

    /** Puts the completion to the mechanism: the outcome of the exchange, or
        None when the capabilities are to be refreshed first. */
    method CompleteExchange(completion: Completion, pending: bool) returns (r: Option<AuthResult>)
      requires mechanism == Some(described)
      modifies this`heard
      ensures var held: Option<bytes> := if pending then Some([]) else None;
              OnCompletion(described, opts, old(heard), held, completion) ==
              match r
              case Some(result) => Stop(result, heard)
              case None => Refresh(heard)
    {
      if completion.status != Ok {
        return Some(Failure(RejectedBy(completion)));
      }
      if pending {
        return Some(Failure(UnexpectedOk));
      }
      if completion.code.Some? && completion.code.value.Sasl? {
        var data := Base64.Decode(completion.code.value.data);
        if data.None? {
          return Some(Failure(InvalidBase64));
        }
        var fed := ResumeSasl(Input(data.value));
        if fed.Failure? {
          return Some(Failure(fed.error));
        }
      }
      var closed := ResumeSasl(Done);
      if closed.Failure? {
        return Some(Failure(closed.error));
      }
      return if opts.ensureCapabilities then None else Some(Success(NO_CAPABILITIES));
    }

    /** The state between the arms of one resume: what it has left to answer,
        the argument being spent. */
    ghost predicate InFlight()
      reads this, Repr()
    {
      && |buf| <= ISIZE_MAX
      && mechanism == Some(described)
      && (match state
          case Write(_, _) => !wantsRead
          case Cancelling(error) => !wantsRead && error.Some?
          case Read(_) => wantsRead && |buf| <= MAX_RESPONSE
          case Abort(error) => wantsRead && |buf| <= MAX_RESPONSE && error.Some?
          case Refreshed(send) => !wantsRead && send.Valid()
          case Fresh => false)
    }

    ghost function Due(): (Auth, Progress<AuthResult>)
      requires InFlight()
      reads this, Repr()
    {
      match state
      case Write(octets, pending) => (Auth(Reading(pending), heard, buf), WantsWrite(octets))
      case Cancelling(error) => (Auth(Aborting(error.value), heard, buf), WantsWrite(CANCEL_LINE))
      case Read(pending) => (Auth(Reading(pending), heard, buf), WantsRead)
      case Abort(error) => (Auth(Aborting(error.value), heard, buf), WantsRead)
      case Refreshed(send) => RefreshStep(heard, buf, send.State(), None)
    }

    /** Builds the mechanism, takes its first word and prepares the command. */
    method StartArm() returns (failed: Option<AuthError>)
      requires Valid() && state.Fresh?
      modifies this`state, this`sasl, this`mechanism, this`heard
      ensures match OpenExchange(described, opts)
              case NoOpening(e) => failed == Some(e) && heard == if Supported(described.name) then [Begin] else []
              case Opening(command, pending) =>
                failed.None? && state == Write(command, pending) && heard == [Begin] && mechanism == Some(described)
    {
      hide Command.Command.Serialize;
      var taken := sasl.value;
      sasl := None;
      if !Supported(taken.name) {
        return Some(UnsupportedMechanism(taken.name));
      }
      mechanism := Some(taken);
      var payload := ResumeSasl(Begin);
      assert heard == [Begin];
      if payload.Failure? {
        return Some(payload.error);
      }
      var inline := opts.initialResponse && taken.name != Command.Login;
      var initial, pending := None, payload.value;
      if payload.value.Some? && inline {
        initial, pending := payload.value, None;
      }
      state := Write(Command.Command.Authenticate(taken.name, initial).Serialize(), pending);
      return None;
    }

    /** Reads one line and reacts to it. */
    method ReadArm(arg: Option<bytes>) returns (result: Option<AuthResult>)
      requires state.Read? && mechanism == Some(described) && !wantsRead && |buf| <= ISIZE_MAX
      requires arg.Some? ==> |buf| + |arg.value| <= ISIZE_MAX
      modifies this`state, this`heard, this`buf, this`wantsRead
      ensures arg == Some([]) ==> result == Some(Failure(Broken(Eof))) && heard == old(heard) && buf == old(buf)
      ensures arg != Some([]) ==>
                var step := ReadingStep(described, opts, Auth(Reading(old(state.pending)), old(heard), old(buf)),
                                        old(state.pending), OrEmpty(arg));
                match result
                case Some(r) => step.1 == Complete(r) && heard == step.0.heard && buf == step.0.buf
                case None => InFlight() && Due() == step && fresh(Repr() - {this})
    {
      hide ReadLine, OnCompletion;
      var pending := state.pending;
      if arg == Some([]) {
        return Some(Failure(Broken(Eof)));
      }
      if arg.Some? {
        buf := buf + arg.value;
      } else {
        assert buf + [] == buf;
      }
      var taken := TakeLine();
      if taken.Failure? {
        return Some(Failure(taken.error));
      }
      if taken.value.None? {
        return None;
      }
      match taken.value.value {
        case Final(completion) => result := CompletionArm(completion, pending);
        case Data(line) =>
          var challenge := line.StringAt(0);
          if challenge.None? {
            return Some(Failure(InvalidChallenge));
          }
          ChallengeArm(challenge.value, pending);
          return None;
      }
    }

    /** Answers a challenge, or gives the exchange up. */
    method ChallengeArm(challenge: bytes, pending: Option<bytes>)
      requires mechanism == Some(described) && !wantsRead && |buf| <= ISIZE_MAX
      modifies this`state, this`heard
      ensures InFlight() && Repr() == {this}
      ensures Due() == Perform(OnChallenge(described, old(heard), pending, challenge), buf)
    {
      hide Consult, ClientResponse, Base64.Decode;
      var payload: Result<Option<bytes>, AuthError>;
      if pending.Some? {
        payload := Success(pending);
      } else {
        var decoded := Base64.Decode(challenge);
        if decoded.Some? {
          payload := ResumeSasl(Input(decoded.value));
        } else {
          payload := Failure(InvalidBase64);
        }
      }
      match payload {
        case Success(octets) => state := Write(ClientResponse(OrEmpty(octets)), None);
        case Failure(e) => state := Cancelling(Some(e));
      }
    }

    /** Ends the exchange, or goes on to refresh the capabilities. */
    method CompletionArm(completion: Completion, pending: Option<bytes>) returns (result: Option<AuthResult>)
      requires mechanism == Some(described) && !wantsRead && |buf| <= ISIZE_MAX
      modifies this`state, this`heard
      ensures var step := Perform(OnCompletion(described, opts, old(heard), pending, completion), buf);
              match result
              case Some(r) => step.1 == Complete(r) && heard == step.0.heard
              case None => InFlight() && Due() == step && fresh(Repr() - {this})
    {
      result := CompleteExchange(completion, pending.Some?);
      OnlyWhetherPending(described, opts, old(heard), pending, completion);
      hide OnCompletion, Command.Command.Serialize;
      if result.None? {
        var send := new CommandSend(Command.Command.Capability.Serialize());
        state := Refreshed(send);
      }
    }

    /** Passes a resume on to the capability refresh. */
    method RefreshArm(arg: Option<bytes>) returns (out: Progress<AuthResult>)
      requires state.Refreshed? && state.send.Valid() && Readable(arg)
      requires mechanism == Some(described) && !wantsRead && |buf| <= ISIZE_MAX
      modifies this`asked, state.send, state.send.read
      ensures state == old(state) && Repr() == old(Repr())
      ensures var step := RefreshStep(heard, buf, old(state.send.State()), arg);
              out == step.1 && heard == step.0.heard && buf == step.0.buf
              && (!out.Complete? ==> Valid() && View() == step.0 && asked == out.WantsRead?)
    {
      hide SendStep, RefreshResult;
      var send := state.send;
      var inner := send.Resume(arg);
      match inner {
        case WantsRead =>
          asked := true;
          return WantsRead;
        case WantsWrite(octets) =>
          asked := false;
          return WantsWrite(octets);
        case Complete(r) => return Complete(RefreshResult(r));
      }
    }

    /** Advances the exchange by one resume, going round the states until one
        of them has something to answer. A chunk is only given after a read,
        except that the first resume may carry one, which it leaves alone. */
    method Resume(arg: Option<bytes>) returns (out: Progress<AuthResult>)
      requires Valid() && Readable(arg) && (arg.Some? ==> asked || state.Fresh?)
      modifies Repr()
      ensures out == AuthStep(described, opts, old(View()), arg).1
      ensures out.Complete? ==>
                heard == AuthStep(described, opts, old(View()), arg).0.heard
                && buf == AuthStep(described, opts, old(View()), arg).0.buf
      ensures !out.Complete? ==>
                Valid() && View() == AuthStep(described, opts, old(View()), arg).0
                && asked == out.WantsRead? && fresh(Repr() - old(Repr()))
    {
      hide OpenExchange, ReadingStep, RefreshStep, Drain;
      ghost var step := AuthStep(described, opts, View(), arg);
      var taken := arg;
      ghost var idle := true;
      while true
        invariant fresh(Repr() - old(Repr()))
        invariant idle ==> Valid() && taken == arg && state == old(state)
        invariant idle ==> heard == old(heard) && buf == old(buf) && View() == old(View()) && asked == old(asked)
        invariant !idle ==> InFlight() && Due() == step && (state.Refreshed? ==> taken.None?)
        decreases idle
      {
        if wantsRead {
          wantsRead := false;
          asked := true;
          return WantsRead;
        }
        match state {
          case Fresh =>
            idle := false;
            var failed := StartArm();
            if failed.Some? {
              return Complete(Failure(failed.value));
            }
          case Write(octets, pending) =>
            state := Read(pending);
            asked := false;
            return WantsWrite(octets);
          case Read(pending) =>
            idle := false;
            var result := ReadArm(taken);
            taken := None;
            if result.Some? {
              return Complete(result.value);
            }
          case Cancelling(error) =>
            state := Abort(error);
            asked := false;
            return WantsWrite(CANCEL_LINE);
          case Abort(error) =>
            idle := false;
            var eof := taken == Some([]);
            if taken.Some? {
              buf := buf + taken.value;
              taken := None;
            } else {
              assert buf + [] == buf;
            }
            var seen := eof;
            if !eof {
              seen := SawCancellationReply();
            }
            if !seen {
              wantsRead := true;
              continue;
            }
            assert error.Some?;
            return Complete(Failure(error.value));
          case Refreshed(send) =>
            out := RefreshArm(taken);
            return out;
        }
      }
    }
  }

  /** A completion only asks whether a payload is held back, not which. */
  lemma OnlyWhetherPending(m: Mechanism, opts: Options, heard: seq<SaslArg>, pending: Option<bytes>, c: Completion)
    ensures OnCompletion(m, opts, heard, pending, c) ==
            OnCompletion(m, opts, heard, if pending.Some? then Some([]) else None, c)
  {
    hide CloseExchange, Consult;
  }
}
