/** The session-opening coroutine: one object handing each phase over to the
    next. */
module SessionOpen {
  import opened Bytes
  import opened Response
  import opened Reader
  import opened Replies
  import opened Exchange
  import opened Opening
  import A = Authenticate

  /** Reads the greeting, and again the one that follows a TLS upgrade. */
  class GreetingGet {
    const read: ResponseRead

    ghost predicate Valid()
      reads this, read
    {
      read.Valid()
    }

    constructor ()
      ensures Valid() && fresh(read) && read.buf == []
    {
      read := new ResponseRead();
    }

    method Resume(arg: Option<bytes>) returns (out: Progress<Result<Capabilities, ReplyError>>)
      requires Valid() && Readable(arg)
      modifies read
      ensures var (next, step) := ReadStep(old(read.buf), arg);
              && (step.Complete? ==> out == Complete(Greeting(step.result)))
              && (!step.Complete? ==> !out.Complete? && Relay(out) == Relay(step) && Valid() && read.buf == next)
    {
      hide ReadStep, Greeting;
      var inner := read.Resume(arg);
      match inner {
        case WantsRead => return WantsRead;
        case WantsWrite(octets) => return WantsWrite(octets);
        case Complete(r) => return Complete(Greeting(r));
      }
    }
  }

  /** Sends STARTTLS and reads its reply. */
  class StartTls {
    const send: CommandSend

    ghost predicate Valid()
      reads this, send, send.read
    {
      send.Valid()
    }

    constructor ()
      ensures Valid() && fresh(send) && fresh(send.read)
      ensures send.State() == Sending(Some(STARTTLS_COMMAND), [])
    {
      send := new CommandSend(STARTTLS_COMMAND);
    }

    method Resume(arg: Option<bytes>) returns (out: Progress<Result<(), ReplyError>>)
      requires Valid() && Readable(arg)
      modifies send, send.read
      ensures var (next, step) := SendStep(old(send.State()), arg);
              && (step.Complete? ==> out == Complete(StartTlsReply(step.result)))
              && (!step.Complete? ==> !out.Complete? && Relay(out) == Relay(step) && Valid() && send.State() == next)
    {
      hide SendStep, StartTlsReply;
      var inner := send.Resume(arg);
      match inner {
        case WantsRead => return WantsRead;
        case WantsWrite(octets) => return WantsWrite(octets);
        case Complete(r) => return Complete(StartTlsReply(r));
      }
    }
  }

  datatype State =
    | NotConnected
    | InGreeting(greeting: GreetingGet)
    | InStartTls(startTls: StartTls)
    | AfterUpgrade
    | InGreetingTls(greeting: GreetingGet)
    | InAuth(mechanism: Mechanism, auth: A.Authenticate)

  class SessionOpen {
    const cfg: Config
    var state: State
    var sasl: Option<Mechanism>
    var capabilities: Capabilities
    var upgraded: bool

    ghost function Parts(): set<object>
      reads this, if state.InAuth? then {state.auth} else {}
    {
      match state
      case InGreeting(g) => {g, g.read}
      case InGreetingTls(g) => {g, g.read}
      case InStartTls(t) => {t, t.send, t.send.read}
      case InAuth(_, auth) => auth.Repr()
      case _ => {}
    }

    ghost predicate Valid()
      reads this, Parts(), if state.InAuth? then {state.auth} else {}
    {
      && this !in Parts()
      && (match state
          case InGreeting(g) => g.Valid()
          case InGreetingTls(g) => g.Valid()
          case InStartTls(t) => t.Valid()
          case InAuth(m, auth) => auth.Valid() && auth.described == m && auth.opts == AUTH_OPTIONS
          case _ => true)
    }

    /** Whether the part in charge may be given a chunk. */
    ghost predicate Listens()
      reads this, if state.InAuth? then {state.auth} else {}
    {
      state.InAuth? ==> state.auth.asked
    }

    ghost function View(): Session
      requires Valid()
      reads this, Parts(), if state.InAuth? then {state.auth} else {}
    {
      var stage := match state
        case NotConnected => Unconnected
        case InGreeting(g) => Greeted(g.read.buf)
        case InStartTls(t) => Upgrading(t.send.State())
        case AfterUpgrade => Upgraded
        case InGreetingTls(g) => GreetedTls(g.read.buf)
        case InAuth(m, auth) => Authenticating(m, auth.View());
      Session(stage, sasl, capabilities, upgraded)
    }

    constructor (cfg: Config, sasl: Option<Mechanism>)
      ensures Valid() && View() == Unopened(sasl) && this.cfg == cfg && Parts() == {}
    {
      this.cfg := cfg;
      state := NotConnected;
      this.sasl := sasl;
      capabilities := NO_CAPABILITIES;
      upgraded := false;
    }

    /** Builds the authentication, or says there is none to do, or refuses to
        let the credentials travel. */
    method WantsAuth() returns (r: Result<bool, SessionError>)
      modifies this`state, this`sasl
      ensures match old(sasl)
              case None => r == Success(false) && state == old(state) && sasl == old(sasl)
              case Some(m) =>
                if !MayTravel(cfg, upgraded, m.name) then r == Failure(CleartextAuth(m.name))
                else
                  r == Success(true) && sasl == None && state.InAuth? && fresh(state.auth) && Valid()
                  && Parts() == {state.auth}
                  && View() == Session(Authenticating(m, FRESH_AUTH), None, capabilities, upgraded)
    {
      if sasl.None? {
        return Success(false);
      }
      var m := sasl.value;
      sasl := None;
      var protected := upgraded || cfg.transport.IsProtected();
      if !protected && !cfg.allowCleartextAuth && Discloses(m.name) {
        return Failure(CleartextAuth(m.name));
      }
      var auth := new A.Authenticate(m, AUTH_OPTIONS);
      state := InAuth(m, auth);
      return Success(true);
    }

    /** Whether the part in charge takes `arg`, or leaves it alone. */
    ghost predicate Takes(arg: Option<bytes>)
      reads this, if state.InAuth? then {state.auth} else {}
    {
      arg.Some? && state.InAuth? ==> state.auth.asked || state.auth.state.Fresh?
    }

    /** A resume that has answered: `step` is what it had to answer. */
    ghost predicate Answered(step: (Session, SessionProgress), out: SessionProgress)
      reads this, Parts(), if state.InAuth? then {state.auth} else {}
    {
      && out == step.1
      && (out.Ask? ==> Valid() && View() == step.0)
      && (out == Ask(Read) ==> Listens())
    }

    /** A resume that goes on in another state, still to answer `step`. */
    ghost predicate Continues(step: (Session, SessionProgress), arg: Option<bytes>)
      reads this, Parts(), if state.InAuth? then {state.auth} else {}
    {
      && Valid() && Takes(arg)
      && Agree(SessionStep(cfg, View(), arg), step)
    }

    /** Goes on to the authentication, or ends where there is none to do. */
    method AuthenticationArm(arg: Option<bytes>) returns (done: Option<SessionProgress>)
      requires state.InGreeting? || state.InGreetingTls?
      modifies this`state, this`sasl
      ensures var step := Authenticate(cfg, Session(Unconnected, old(sasl), capabilities, upgraded), arg);
              match done
              case Some(out) => out.Finished? && out == step.1
              case None => state.InAuth? && fresh(Parts()) && Continues(step, arg)
    {
      hide AuthStep, Discloses;
      var wanted := WantsAuth();
      match wanted {
        case Failure(e) => return Some(Finished(Failure(e)));
        case Success(false) => return Some(Finished(Success(capabilities)));
        case Success(true) => return None;
      }
    }

    method GreetingArm(arg: Option<bytes>) returns (done: Option<SessionProgress>)
      requires Valid() && state.InGreeting? && Readable(arg)
      modifies this`state, this`sasl, this`capabilities, Parts()
      ensures done.None? || done.value.Ask? ==> fresh(Parts() - old(Parts()))
      ensures var step := SessionStep(cfg, old(View()), arg);
              match done
              case Some(out) => Answered(step, out)
              case None => (state.InStartTls? || state.InAuth?) && Continues(step, arg)
    {
      hide AuthStep, ReadStep, SendStep, Replies.Greeting, MayTravel, Capabilities.StartTls, Authenticate;
      ghost var stage := View().stage;
      var greeting := state.greeting;
      if !ReadStep(greeting.read.buf, arg).1.Complete? {
        GreetedRelays(cfg, View(), greeting.read.buf, arg);
      }
      var inner := greeting.Resume(arg);
      match inner {
        case WantsRead => return Some(Ask(Relay(inner)));
        case WantsWrite(_) => return Some(Ask(Relay(inner)));
        case Complete(Failure(e)) => return Some(Finished(Failure(GreetingFailed(e))));
        case Complete(Success(seen)) => capabilities := seen;
      }
      if !cfg.startTls {
        StageIsLeft(cfg, Session(Unconnected, sasl, capabilities, upgraded), stage, arg);
        done := AuthenticationArm(arg);
        return;
      }
      if !capabilities.StartTls() {
        return Some(Finished(Failure(StartTlsUnsupported)));
      }
      var startTls := new StartTls();
      state := InStartTls(startTls);
      return None;
    }

    method GreetingTlsArm(arg: Option<bytes>) returns (done: Option<SessionProgress>)
      requires Valid() && state.InGreetingTls? && Readable(arg)
      modifies this`state, this`sasl, this`capabilities, Parts()
      ensures done.None? || done.value.Ask? ==> fresh(Parts() - old(Parts()))
      ensures var step := SessionStep(cfg, old(View()), arg);
              match done
              case Some(out) => Answered(step, out)
              case None => state.InAuth? && Continues(step, arg)
    {
      hide AuthStep, ReadStep, SendStep, Replies.Greeting, MayTravel, Authenticate;
      ghost var stage := View().stage;
      var greeting := state.greeting;
      if !ReadStep(greeting.read.buf, arg).1.Complete? {
        GreetedRelays(cfg, View(), greeting.read.buf, arg);
      }
      var inner := greeting.Resume(arg);
      match inner {
        case WantsRead => return Some(Ask(Relay(inner)));
        case WantsWrite(_) => return Some(Ask(Relay(inner)));
        case Complete(Failure(e)) => return Some(Finished(Failure(GreetingFailed(e))));
        case Complete(Success(seen)) => capabilities := seen;
      }
      StageIsLeft(cfg, Session(Unconnected, sasl, capabilities, upgraded), stage, arg);
      done := AuthenticationArm(arg);
    }

    method StartTlsArm(arg: Option<bytes>) returns (out: SessionProgress)
      requires Valid() && state.InStartTls? && Readable(arg)
      modifies this`state, this`upgraded, Parts()
      ensures out.Ask? ==> fresh(Parts() - old(Parts()))
      ensures Answered(SessionStep(cfg, old(View()), arg), out)
    {
      hide AuthStep, ReadStep, SendStep, StartTlsReply;
      var startTls := state.startTls;
      if !SendStep(startTls.send.State(), arg).1.Complete? {
        UpgradingRelays(View(), startTls.send.State(), arg);
      }
      var inner := startTls.Resume(arg);
      match inner {
        case WantsRead => return Ask(Relay(inner));
        case WantsWrite(_) => return Ask(Relay(inner));
        case Complete(Failure(e)) => return Finished(Failure(StartTlsFailed(e)));
        case Complete(Success(_)) =>
          upgraded := true;
          state := AfterUpgrade;
          return Ask(UpgradeTls);
      }
    }

    method AuthArm(arg: Option<bytes>) returns (out: SessionProgress)
      requires Valid() && state.InAuth? && Readable(arg) && Takes(arg)
      modifies this`capabilities, Parts()
      ensures out.Ask? ==> fresh(Parts() - old(Parts()))
      ensures Answered(SessionStep(cfg, old(View()), arg), out)
    {
      hide AuthStep;
      var auth := state.auth;
      var inner := auth.Resume(arg);
      match inner {
        case WantsRead => return Ask(Relay(inner));
        case WantsWrite(_) => return Ask(Relay(inner));
        case Complete(Failure(e)) => return Finished(Failure(AuthenticateFailed(e)));
        case Complete(Success(seen)) =>
          capabilities := seen;
          return Finished(Success(capabilities));
      }
    }

    /** The first state connects, and the one after the upgrade starts reading
        the second greeting. */
    method PlainArm(arg: Option<bytes>) returns (done: Option<SessionProgress>)
      requires Valid() && (state.NotConnected? || state.AfterUpgrade?)
      modifies this`state
      ensures fresh(Parts())
      ensures var step := SessionStep(cfg, old(View()), arg);
              match done
              case Some(out) => Answered(step, out)
              case None => state.InGreetingTls? && Continues(step, arg)
    {
      hide ReadStep, Authenticate;
      if state.NotConnected? && cfg.startTls && cfg.transport.IsProtected() {
        return Some(Finished(Failure(StartTlsOverTls)));
      }
      var greeting := new GreetingGet();
      if state.NotConnected? {
        state := InGreeting(greeting);
        return Some(Ask(Connect(cfg.transport)));
      }
      SecondGreeting(cfg, View(), arg);
      state := InGreetingTls(greeting);
      return None;
    }

    lemma AnsweredToo(a: (Session, SessionProgress), b: (Session, SessionProgress), out: SessionProgress)
      requires Answered(a, out) && Agree(a, b)
      ensures Answered(b, out)
    {
      hide Valid, View;
    }

    ghost function Rank(): nat
      reads this
    {
      match state
      case NotConnected => 2
      case InGreeting(_) => 2
      case InStartTls(_) => 0
      case AfterUpgrade => 2
      case InGreetingTls(_) => 1
      case InAuth(_, _) => 0
    }

    /** One turn of the loop: the arm of the state the session is in. */
    method Arm(arg: Option<bytes>) returns (done: Option<SessionProgress>)
      requires Valid() && Readable(arg) && Takes(arg)
      modifies this, Parts()
      ensures done.None? || done.value.Ask? ==> fresh(Parts() - old(Parts()))
      ensures var step := SessionStep(cfg, old(View()), arg);
              match done
              case Some(out) => Answered(step, out)
              case None => Rank() < old(Rank()) && Continues(step, arg)
    {
      hide SessionStep, Answered, Continues, View;
      match state {
        case NotConnected => done := PlainArm(arg);
        case InGreeting(_) => done := GreetingArm(arg);
        case InStartTls(_) =>
          var out := StartTlsArm(arg);
          return Some(out);
        case AfterUpgrade => done := PlainArm(arg);
        case InGreetingTls(_) => done := GreetingTlsArm(arg);
        case InAuth(_, _) =>
          var out := AuthArm(arg);
          return Some(out);
      }
    }

    /** Advances the session by one resume, handing the argument on to each
        part it enters. A chunk is only given after a read. */
    method Resume(arg: Option<bytes>) returns (out: SessionProgress)
      requires Valid() && Readable(arg) && (arg.Some? ==> Listens())
      modifies this, Parts()
      ensures Answered(SessionStep(cfg, old(View()), arg), out)
      ensures out.Ask? ==> fresh(Parts() - old(Parts()))
    {
      hide SessionStep, Answered, Agree, View, Rank;
      ghost var step := SessionStep(cfg, View(), arg);
      AgreeOn(step, step, step);
      while true
        invariant fresh(Parts() - old(Parts())) && Continues(step, arg)
        decreases Rank()
      {
        ghost var here := SessionStep(cfg, View(), arg);
        var done := Arm(arg);
        if done.Some? {
          AnsweredToo(here, step, done.value);
          return done.value;
        }
        AgreeOn(SessionStep(cfg, View(), arg), here, step);
      }
    }
  }

  /** The same answer, and the same session unless that ends it. */
  ghost predicate Agree(a: (Session, SessionProgress), b: (Session, SessionProgress)) {
    a.1 == b.1 && (a.1.Ask? ==> a.0 == b.0)
  }

  /** Authenticating does not depend on the stage it is entered from. */
  lemma StageIsLeft(cfg: Config, s: Session, stage: Stage, arg: Option<bytes>)
    ensures Agree(Authenticate(cfg, s, arg), Authenticate(cfg, s.(stage := stage), arg))
  {
    hide AuthStep, MayTravel;
  }

  /** A greeting still being read passes its request on. */
  lemma GreetedRelays(cfg: Config, s: Session, buf: bytes, arg: Option<bytes>)
    requires !ReadStep(buf, arg).1.Complete?
    ensures var (next, out) := ReadStep(buf, arg);
            && GreetedStep(cfg, s, buf, arg) == (s.(stage := Greeted(next)), Ask(Relay(out)))
            && GreetedTlsStep(cfg, s, buf, arg) == (s.(stage := GreetedTls(next)), Ask(Relay(out)))
  {
    hide ReadResponse;
  }

  /** So does STARTTLS. */
  lemma UpgradingRelays(s: Session, send: Sending, arg: Option<bytes>)
    requires !SendStep(send, arg).1.Complete?
    ensures var (next, out) := SendStep(send, arg);
            UpgradingStep(s, send, arg) == (s.(stage := Upgrading(next)), Ask(Relay(out)))
  {
    hide ReadStep;
  }

  /** The second greeting is read from nothing. */
  lemma SecondGreeting(cfg: Config, s: Session, arg: Option<bytes>)
    requires s.stage.Upgraded?
    ensures Agree(SessionStep(cfg, s.(stage := GreetedTls([])), arg), SessionStep(cfg, s, arg))
  {
    hide ReadStep, AuthStep, MayTravel, Replies.Greeting;
  }

  lemma AgreeOn(a: (Session, SessionProgress), b: (Session, SessionProgress), c: (Session, SessionProgress))
    requires Agree(a, b) && Agree(b, c)
    ensures Agree(a, c)
  {
  }
}
