/** What a successful opening has earned: the connection, the upgrade that was
    asked for, the consent of the mechanism, and the capabilities. */
module SessionSuccess {
  import opened Bytes
  import opened Response
  import opened Reader
  import opened Replies
  import opened Exchange
  import opened ExchangeRun
  import opened RunEndings
  import opened Opening
  import opened Pump
  import opened SessionStory
  import opened SessionEnding
  import opened SessionProtocol
  import Calls
  import Consent
  import ResponsePrefix

  // -------------------------------------------------------------------------
  // The authentication of a session is a run of its own
  // -------------------------------------------------------------------------

  /** What was written, in order. */
  function Writes(log: seq<Event>): seq<bytes> {
    if log == [] then []
    else
      var e := log[|log| - 1];
      Writes(log[..|log| - 1]) + if e.Asked? && e.ask.Write? then [e.ask.octets] else []
  }

  /** The chunks that arrived, the end of the stream aside. */
  function Chunks(log: seq<Event>): seq<bytes> {
    if log == [] then []
    else
      var e := log[|log| - 1];
      Chunks(log[..|log| - 1]) + if e.Received? && e.chunk != [] then [e.chunk] else []
  }

  lemma OneMoreEvent(log: seq<Event>, e: Event)
    ensures Writes(log + [e]) == Writes(log) + if e.Asked? && e.ask.Write? then [e.ask.octets] else []
    ensures Chunks(log + [e]) == Chunks(log) + if e.Received? && e.chunk != [] then [e.chunk] else []
  {
    assert (log + [e])[..|log|] == log;
  }

  /** An arrival adds a chunk and no write. */
  lemma Arrived(log: seq<Event>, arg: Option<bytes>)
    ensures Writes(log + Arrival(arg)) == Writes(log)
    ensures Chunks(log + Arrival(arg)) ==
            if arg.Some? && arg.value != [] then Chunks(log) + [arg.value] else Chunks(log)
  {
    hide Writes, Chunks;
    if arg.Some? {
      OneMoreEvent(log, Received(arg.value));
    } else {
      assert log + [] == log;
    }
  }

  /** What an exchange asks for adds a write or nothing. */
  lemma AskedFor(log: seq<Event>, out: Progress<AuthResult>)
    requires !out.Complete?
    ensures Chunks(log + [Asked(Relay(out))]) == Chunks(log)
    ensures Writes(log + [Asked(Relay(out))]) == if out.WantsWrite? then Writes(log) + [out.octets] else Writes(log)
  {
    hide Writes, Chunks;
    OneMoreEvent(log, Asked(Relay(out)));
  }

  /** Resumed as its contract has it, the exchange is under way as a pump would
      have it. */
  lemma {:induction false} AuthFollows(m: Mechanism, args: seq<Option<bytes>>)
    requires AuthLegal(m, args) && args != []
    ensures var before, arg := args[..|args| - 1], args[|args| - 1];
            Exchanging(m, AUTH_OPTIONS, AuthAfter(m, before), arg, Chunks(AuthLog(m, before) + Arrival(arg)),
                       Writes(AuthLog(m, before)))
    decreases |args|
  {
    hide AuthStep, Exchanging, Chunks, Writes, Arrival, AUTH_OPTIONS;
    var before, arg := args[..|args| - 1], args[|args| - 1];
    if before == [] {
      NothingLogged(m, arg);
      ExchangeBegins(m, AUTH_OPTIONS);
    } else {
      AuthFollows(m, before);
      var bb, ba := before[..|before| - 1], before[|before| - 1];
      var log := AuthLog(m, bb) + Arrival(ba);
      var a, out := AuthAfter(m, bb), AuthOutput(m, before);
      Arrived(AuthLog(m, bb), ba);
      AskedFor(log, out);
      Arrived(AuthLog(m, before), arg);
      if out.WantsRead? {
        ExchangeReads(m, AUTH_OPTIONS, a, ba, Chunks(log), Writes(log), arg.value);
      } else {
        ExchangeWrites(m, AUTH_OPTIONS, a, ba, Chunks(log), Writes(log));
      }
    }
  }

  lemma NothingLogged(m: Mechanism, arg: Option<bytes>)
    requires arg.None?
    ensures AuthAfter(m, []) == FRESH_AUTH && Writes(AuthLog(m, [])) == []
            && Chunks(AuthLog(m, []) + Arrival(arg)) == []
  {
    assert AuthLog(m, []) + [] == [];
  }

  /** An exchange resumed to its end is a run on exactly the chunks it was
      given. */
  lemma AuthIsARun(m: Mechanism, args: seq<Option<bytes>>)
    requires args != [] && AuthLegal(m, args) && AuthOutput(m, args).Complete?
    ensures var log := AuthLog(m, args);
            && NonEmptyChunks(Chunks(log))
            && Run(m, AUTH_OPTIONS, FRESH_AUTH, None, Chunks(log)) ==
               Transcript(Writes(log), AuthAfter(m, args).heard, AuthOutput(m, args).result)
  {
    hide AuthStep, Chunks, Writes, Arrival, AUTH_OPTIONS, Run;
    var before, arg := args[..|args| - 1], args[|args| - 1];
    AuthFollows(m, args);
    Arrived(AuthLog(m, before), arg);
    assert AuthLog(m, before) + Arrival(arg) + [] == AuthLog(m, before) + Arrival(arg);
    ExchangeEnds(m, AUTH_OPTIONS, AuthAfter(m, before), arg, Chunks(AuthLog(m, args)), Writes(AuthLog(m, before)));
  }

  // -------------------------------------------------------------------------
  // Success
  // -------------------------------------------------------------------------

  /** The chunks of the greeting a story is reading. */
  function LastGreeting(c: Chapter): seq<bytes> {
    if (c.Greeting? || c.TlsGreeting?) && c.now.Some? then c.now.value else []
  }

  /** An opening that authenticated: the exchange ran on exactly the chunks that
      arrived after it began, the mechanism consented to what they said, its
      first word inlined where it can be, and the capabilities are those listed
      by the OK response read from the chunk boundary at or past the end of the
      exchange. */
  predicate Authenticated(m: Mechanism, auth: seq<Event>, k: nat, seen: Capabilities) {
    var chunks, opts := Chunks(auth), Options(true, true);
    && NonEmptyChunks(chunks) && k <= |chunks|
    && Consent.Willing(m, opts, Flatten(chunks))
    && Reaches(0, chunks, k, ReadResponse(Flatten(chunks)).consumed)
    && var refreshed := ReadResponse(Flatten(chunks[k..]));
    && refreshed.Parsed? && refreshed.value.completion.status == Ok
    && Calls.ListsCapabilities(refreshed.value.data, seen.entries)
    && Writes(auth) == Consent.Granted(m, opts, ReadResponse(Flatten(chunks)).value, Success(seen)).writes
  }

  lemma AuthEarned(m: Mechanism, args: seq<Option<bytes>>, seen: Capabilities) returns (k: nat)
    requires args != [] && AuthLegal(m, args) && AuthOutput(m, args).Complete?
    requires AuthOutput(m, args).result == Success(seen)
    ensures Authenticated(m, AuthLog(m, args), k, seen)
  {
    hide AuthAfter, AuthLog, AuthOutput, AuthLegal, Chunks, Writes, Run, Consent.Willing, Reaches, ReadResponse;
    hide RefreshOutcome, Calls.ListsCapabilities;
    hide Flatten, NonEmptyChunks, Consent.Granted;
    AuthIsARun(m, args);
    var chunks := Chunks(AuthLog(m, args));
    k := RunEarned(m, AUTH_OPTIONS, chunks, seen);
    RefreshLists(chunks[k..], seen);
  }

  /** A run that succeeds with a refresh, and what it earned. */
  lemma RunEarned(m: Mechanism, opts: Options, chunks: seq<bytes>, seen: Capabilities) returns (k: nat)
    requires opts.ensureCapabilities && NonEmptyChunks(chunks)
    requires Run(m, opts, FRESH_AUTH, None, chunks).result == Success(seen)
    ensures k <= |chunks| && Consent.Willing(m, opts, Flatten(chunks))
    ensures ReadResponse(Flatten(chunks)).Parsed?
    ensures Reaches(0, chunks, k, ReadResponse(Flatten(chunks)).consumed)
    ensures RefreshOutcome(chunks[k..]) == Success(seen)
    ensures Consent.Consented(m, [Begin], Consent.Held(m, opts), ReadResponse(Flatten(chunks)).value)
    ensures Run(m, opts, FRESH_AUTH, None, chunks).writes ==
            Consent.Granted(m, opts, ReadResponse(Flatten(chunks)).value, RefreshOutcome(chunks[k..])).writes
  {
    hide Run, Reaches, ReadResponse, RefreshOutcome, Flatten, NonEmptyChunks, Consent.Granted, Consent.Held;
    hide Consent.Consented;
    hide FRESH_AUTH;
    k := Consent.SucceedsIffConsented(m, opts, chunks);
    GrantedResult(m, opts, ReadResponse(Flatten(chunks)).value, RefreshOutcome(chunks[k..]));
  }

  /** An exchange granted a refresh reports its outcome. */
  lemma GrantedResult(m: Mechanism, opts: Options, r: Response, refresh: AuthResult)
    requires opts.ensureCapabilities && Consent.Consented(m, [Begin], Consent.Held(m, opts), r)
    ensures Consent.Granted(m, opts, r, refresh).result == refresh
  {
    hide Consent.Consented;
  }

  /** The capabilities are those a clean greeting lists. */
  predicate ListedBy(greeting: seq<bytes>, seen: Capabilities)
    requires Clean(greeting)
  {
    Calls.ListsCapabilities(ReadResponse(Flatten(greeting)).value.data, seen.entries)
  }

  lemma GreetingLists(greeting: seq<bytes>)
    requires Clean(greeting)
    ensures ListedBy(greeting, CapabilitiesOf(greeting))
  {
    hide ReadResponse, ReadCapabilities, Calls.ListsCapabilities, Flatten;
    ResponsePrefix.DataOpensOnString(Flatten(greeting));
    Calls.CapabilitiesListed(ReadResponse(Flatten(greeting)).value.data, CapabilitiesOf(greeting).entries);
  }

  /** An opening that succeeds did all it was asked: it connected first, it
      upgraded if and only if STARTTLS was asked for, and it authenticated if
      and only if it was given credentials, which were free to travel, with the
      consent of their mechanism. The capabilities it returns are those of its
      last phase, read from exactly the chunks of that phase. */
  lemma SuccessIsEarned(cfg: Config, sasl: Option<Mechanism>, args: seq<Option<bytes>>) returns (c: Chapter, k: nat)
    requires Legal(cfg, sasl, args) && args != []
    requires Output(cfg, sasl, args).Finished? && Output(cfg, sasl, args).result.Success?
    ensures var log, last, seen := Log(cfg, sasl, args), args[|args| - 1], Output(cfg, sasl, args).result.value;
            && log != [] && log[0] == Asked(Connect(cfg.transport)) && InOrder(cfg, sasl, log)
            && (cfg.startTls <==> Asked(UpgradeTls) in log)
            && (sasl.Some? <==> c.Auth?)
            && match sasl
               case None =>
                 && log == Preamble(cfg, c) + Arrival(last) && last.Some?
                 && Clean(LastGreeting(c) + [last.value]) && ListedBy(LastGreeting(c) + [last.value], seen)
               case Some(m) =>
                 && MayTravel(cfg, c.upgrade.Some?, m.name)
                 && var auth := AuthLog(m, [None] + c.args + [last]);
                    log == Preamble(cfg, c) + auth && Authenticated(m, auth, k, seen)
  {
    hide SessionStep, Tell, InOrder, Founded, Ends, Legal, Preamble, Credentials, Authenticated, Log, AuthLog;
    hide AuthLegal, AuthOutput, MayTravel;
    hide Clean, CapabilitiesOf, ListedBy;
    var last, result := args[|args| - 1], Output(cfg, sasl, args).result;
    c := EveryRunEnds(cfg, sasl, args);
    EveryRunIsOrdered(cfg, sasl, args);
    StoryInOrder(cfg, sasl, c);
    TellSplits(cfg, sasl, c);
    SuccessUpgraded(cfg, sasl, c, last, result);
    NoUpgradeArrives(Tell(cfg, sasl, c), last);
    ConnectedFirst(cfg, sasl, Log(cfg, sasl, args));
    k := 0;
    if sasl.Some? {
      CredentialsThenLast(cfg, sasl, c, last);
      k := AuthEarned(sasl.value, [None] + c.args + [last], result.value);
    } else {
      NoCredentials(sasl, c);
      GreetingLists(LastGreeting(c) + [last.value]);
      assert Preamble(cfg, c) + [] == Preamble(cfg, c);
    }
  }

  lemma ConnectedFirst(cfg: Config, sasl: Option<Mechanism>, log: seq<Event>)
    requires InOrder(cfg, sasl, log) && log != []
    ensures log[0] == Asked(Connect(cfg.transport))
  {
    hide MayTravel;
  }

  /** Only a story in its last phase ends in success. */
  lemma SuccessUpgraded(cfg: Config, sasl: Option<Mechanism>, c: Chapter, last: Option<bytes>,
                        result: Result<Capabilities, SessionError>)
    requires Founded(cfg, sasl, c) && Ends(cfg, sasl, c, last, result) && result.Success?
    ensures (cfg.startTls <==> HasUpgraded(c)) && (sasl.Some? <==> c.Auth?)
    ensures sasl.None? ==>
              && last.Some? && Clean(LastGreeting(c) + [last.value])
              && result.value == CapabilitiesOf(LastGreeting(c) + [last.value])
    ensures sasl.Some? ==>
              && MayTravel(cfg, c.upgrade.Some?, sasl.value.name)
              && AuthLegal(sasl.value, [None] + c.args + [last])
              && AuthOutput(sasl.value, [None] + c.args + [last]) == Complete(Success(result.value))
  {
    hide Clean, Advertised, AuthLegal, AuthOutput, Refused, Unbegun, MayTravel;
    hide Unfinished;
    hide CapabilitiesOf, Connectable;
  }

  lemma NoUpgradeArrives(log: seq<Event>, last: Option<bytes>)
    ensures Asked(UpgradeTls) in log + Arrival(last) <==> Asked(UpgradeTls) in log
  {
  }

  lemma CredentialsThenLast(cfg: Config, sasl: Option<Mechanism>, c: Chapter, last: Option<bytes>)
    requires sasl.Some? && c.Auth? && AuthOutput(sasl.value, [None] + c.args + [last]).Complete?
    ensures Preamble(cfg, c) + Credentials(sasl, c) + Arrival(last) ==
            Preamble(cfg, c) + AuthLog(sasl.value, [None] + c.args + [last])
  {
    hide AuthLog, AuthOutput, Preamble, AuthStep;
    assert [None] + (c.args + [last]) == [None] + c.args + [last];
    AuthGoesOn(sasl.value, c.args, last);
    var events := AuthEvents(sasl.value, c.args) + Arrival(last);
    assert events + [] == events;
    assert Preamble(cfg, c) + Credentials(sasl, c) + Arrival(last) == Preamble(cfg, c) + events;
  }

  lemma NoCredentials(sasl: Option<Mechanism>, c: Chapter)
    requires sasl.None?
    ensures Credentials(sasl, c) == []
  {
  }
}
