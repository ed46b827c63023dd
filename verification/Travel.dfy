/** Which credentials an opening lets travel, and the three refusals it decides
    by itself, from its configuration and the octets it has received. */
module Travel {
  import opened Bytes
  import opened Response
  import opened Replies
  import opened Exchange
  import opened Opening
  import opened SessionStory
  import opened SessionEnding
  import opened SessionProtocol
  import opened SessionSuccess
  import Calls
  import Command
  import ResponsePrefix
  import Words

  /** The mechanisms whose payload an observer could use again. */
  predicate Replayable(name: Command.MechanismName) {
    name.Plain? || name.Login? || name.OAuthBearer? || name.XOAuth2?
  }

  /** Their payload would cross a network in the clear, unless the connection is
      upgraded first. */
  predicate Exposed(cfg: Config, name: Command.MechanismName) {
    cfg.transport.Tcp? && !cfg.allowCleartextAuth && Replayable(name)
  }

  lemma TravelsUnlessExposed(cfg: Config, upgraded: bool, name: Command.MechanismName)
    ensures MayTravel(cfg, upgraded, name) <==> upgraded || !Exposed(cfg, name)
  {
  }

  lemma StartTlsOnTheWire()
    ensures STARTTLS_COMMAND == Ascii("STARTTLS\r\n")
  {
  }

  /** In every legal run, exposed credentials are not written before the upgrade:
      nothing is but the STARTTLS command. */
  lemma NothingIsExposed(cfg: Config, m: Mechanism, args: seq<Option<bytes>>, i: nat, octets: bytes)
    requires Legal(cfg, Some(m), args) && Exposed(cfg, m.name)
    requires i < |Log(cfg, Some(m), args)| && Log(cfg, Some(m), args)[i] == Asked(Write(octets))
    ensures octets == Ascii("STARTTLS\r\n") || Asked(UpgradeTls) in Log(cfg, Some(m), args)[..i]
  {
    hide Log, Legal, MayTravel, Exposed, Ascii, STARTTLS_COMMAND;
    var log := Log(cfg, Some(m), args);
    EveryRunIsOrdered(cfg, Some(m), args);
    StartTlsOnTheWire();
    TravelsUnlessExposed(cfg, Asked(UpgradeTls) in log[..i], m.name);
  }

  // -------------------------------------------------------------------------
  // What has been received and written
  // -------------------------------------------------------------------------

  lemma {:induction false} ReadsOnlyReceive(log: seq<Event>, chunks: seq<bytes>)
    requires NonEmptyChunks(chunks)
    ensures Chunks(log + Reads(chunks)) == Chunks(log) + chunks
    ensures Writes(log + Reads(chunks)) == Writes(log)
  {
    hide Chunks, Writes;
    if chunks == [] {
      assert log + [] == log;
      assert Chunks(log) + [] == Chunks(log);
    } else {
      var before, last := chunks[..|chunks| - 1], chunks[|chunks| - 1];
      ReadsOnlyReceive(log, before);
      OneMoreEvent(log + Reads(before), Asked(Read));
      OneMoreEvent(log + Reads(before) + [Asked(Read)], Received(last));
      assert log + Reads(chunks) == log + Reads(before) + [Asked(Read)] + [Received(last)];
      assert Chunks(log) + chunks == Chunks(log) + before + [last];
    }
  }

  lemma {:induction false} WritesGrow(a: seq<Event>, b: seq<Event>)
    ensures Writes(a) <= Writes(a + b)
  {
    hide Writes;
    if b == [] {
      assert a + b == a;
    } else {
      var before, last := b[..|b| - 1], b[|b| - 1];
      WritesGrow(a, before);
      OneMoreEvent(a + before, last);
      assert a + b == a + before + [last];
    }
  }

  /** What a greeting still being read has received, and that nothing was
      written. */
  lemma GreetingReceives(cfg: Config, sasl: Option<Mechanism>, now: Option<seq<bytes>>)
    requires Unfinished(now)
    ensures Writes(Tell(cfg, sasl, Greeting(now))) == []
    ensures Chunks(Tell(cfg, sasl, Greeting(now))) == if now.Some? then now.value else []
  {
    hide Chunks, Writes, ReadResponse, Reads;
    var connect := [Asked(Connect(cfg.transport))];
    OneMoreEvent([], connect[0]);
    assert [] + connect == connect && connect + [] == connect;
    NothingSeen();
    if now.Some? {
      ReadsOnlyReceive(connect, now.value);
      OneMoreEvent(connect + Reads(now.value), Asked(Read));
      assert connect + (Reads(now.value) + [Asked(Read)]) == connect + Reads(now.value) + [Asked(Read)];
      assert [] + now.value == now.value;
    }
  }

  lemma NothingSeen()
    ensures Chunks([]) == [] && Writes([]) == []
  {
  }

  /** Past the greeting of an upgrade, something was written. */
  lemma UpgradeWrites(cfg: Config, sasl: Option<Mechanism>, c: Chapter)
    requires c.StartTls? || HasUpgraded(c)
    ensures Writes(Tell(cfg, sasl, c)) != []
  {
    hide Writes, Reads, Now, AuthEvents;
    var front := ToStartTls(cfg, c.greeting);
    OneMoreEvent([Asked(Connect(cfg.transport))] + Reads(c.greeting), Asked(Write(STARTTLS_COMMAND)));
    var rest := Tell(cfg, sasl, c)[|front|..];
    assert Tell(cfg, sasl, c) == front + rest;
    WritesGrow(front, rest);
  }

  // -------------------------------------------------------------------------
  // The greeting decides
  // -------------------------------------------------------------------------

  /** The configurations in which nothing happens past a greeting without a
      write: the upgrade was asked for, or the credentials are exposed. */
  predicate DecidesOnGreeting(cfg: Config, sasl: Option<Mechanism>, log: seq<Event>) {
    if cfg.startTls then cfg.transport.Tcp? && Writes(log) == []
    else sasl.Some? && Exposed(cfg, sasl.value.name)
  }

  lemma OnlyGreeting(cfg: Config, sasl: Option<Mechanism>, c: Chapter, last: Option<bytes>)
    requires Founded(cfg, sasl, c) && DecidesOnGreeting(cfg, sasl, Tell(cfg, sasl, c) + Arrival(last))
    ensures c == Blank || (c.Greeting? && Unfinished(c.now))
  {
    hide Tell, Clean, Advertised, AuthLegal, AuthOutput, Writes, Unfinished;
    Arrived(Tell(cfg, sasl, c), last);
    if c.StartTls? || HasUpgraded(c) {
      UpgradeWrites(cfg, sasl, c);
    }
  }

  /** What a greeting read to its end has received. */
  lemma GreetingReceived(cfg: Config, sasl: Option<Mechanism>, chunks: seq<bytes>, chunk: bytes)
    requires Unfinished(Some(chunks))
    ensures var log := Tell(cfg, sasl, Greeting(Some(chunks))) + Arrival(Some(chunk));
            Flatten(Chunks(log)) == Flatten(chunks + [chunk]) && Writes(log) == []
  {
    hide Tell, Chunks, Writes, Unfinished, Flatten;
    GreetingReceives(cfg, sasl, Some(chunks));
    Arrived(Tell(cfg, sasl, Greeting(Some(chunks))), Some(chunk));
    FlattenSnoc(chunks, chunk);
    assert Flatten(chunks) + [] == Flatten(chunks);
  }

  lemma UnfinishedIsNotClean(now: Option<seq<bytes>>)
    requires Unfinished(now)
    ensures !Clean(if now.Some? then now.value else [])
  {
    hide ReadResponse;
    NothingRead();
  }

  lemma NothingRead()
    ensures !ReadResponse(Flatten([])).Parsed?
  {
  }

  /** A clean greeting ends such an opening there and then. */
  lemma GreetingDecides(cfg: Config, sasl: Option<Mechanism>, args: seq<Option<bytes>>)
    returns (chunks: seq<bytes>, chunk: bytes)
    requires Legal(cfg, sasl, args) && args != []
    requires DecidesOnGreeting(cfg, sasl, Log(cfg, sasl, args)) && Clean(Chunks(Log(cfg, sasl, args)))
    ensures Output(cfg, sasl, args).Finished?
    ensures GreetingEnds(cfg, sasl, chunks, chunk, Output(cfg, sasl, args).result)
    ensures Flatten(Chunks(Log(cfg, sasl, args))) == Flatten(chunks + [chunk])
  {
    hide SessionStep, Tell, Founded, Stands, Ends, Legal, Log, Chunks, Clean, GreetingEnds, DecidesOnGreeting;
    hide EndsOnRead, Unfinished, Output;
    if Output(cfg, sasl, args).Ask? {
      var c := EveryRunIsAStory(cfg, sasl, args);
      assert Tell(cfg, sasl, c) + [] == Tell(cfg, sasl, c);
      OnlyGreeting(cfg, sasl, c, None);
      GreetingReceives(cfg, sasl, c.now);
      UnfinishedIsNotClean(c.now);
      assert false;
    } else {
      var c := EveryRunEnds(cfg, sasl, args);
      var arg := args[|args| - 1];
      OnlyGreeting(cfg, sasl, c, arg);
      GreetingEndsIt(cfg, sasl, c, arg, Output(cfg, sasl, args).result, Log(cfg, sasl, args));
      chunks, chunk := c.now.value, arg.value;
      GreetingReceived(cfg, sasl, chunks, chunk);
    }
  }

  lemma GreetingEndsIt(cfg: Config, sasl: Option<Mechanism>, c: Chapter, arg: Option<bytes>,
                       result: Result<Capabilities, SessionError>, log: seq<Event>)
    requires c == Blank || c.Greeting?
    requires Ends(cfg, sasl, c, arg, result) && DecidesOnGreeting(cfg, sasl, log)
    ensures c.Greeting? && c.now.Some? && arg.Some? && GreetingEnds(cfg, sasl, c.now.value, arg.value, result)
  {
    hide GreetingEnds, Writes;
  }

  // -------------------------------------------------------------------------
  // The three refusals
  // -------------------------------------------------------------------------

  /** What an ending of the opener's own tells. */
  lemma OwnEnding(cfg: Config, sasl: Option<Mechanism>, c: Chapter, arg: Option<bytes>,
                  result: Result<Capabilities, SessionError>)
    requires Founded(cfg, sasl, c) && Ends(cfg, sasl, c, arg, result)
    requires result.Failure? && (result.error.CleartextAuth? || result.error.StartTlsUnsupported?)
    ensures c.Greeting? && c.now.Some? && arg.Some? && Unfinished(c.now) && Connectable(cfg)
    ensures Clean(c.now.value + [arg.value])
    ensures result.error.StartTlsUnsupported? ==> cfg.startTls && !SessionStory.Advertised(c.now.value + [arg.value])
    ensures result.error.CleartextAuth? ==>
              && !cfg.startTls && sasl.Some? && result.error.name == sasl.value.name
              && !MayTravel(cfg, false, sasl.value.name)
  {
    hide Clean, SessionStory.Advertised, AuthLegal, AuthOutput, Refused, Unbegun, Unfinished, CapabilitiesOf;
  }

  lemma ReceivedAlike(a: seq<bytes>, b: seq<bytes>)
    requires Flatten(a) == Flatten(b)
    ensures Clean(a) <==> Clean(b)
    ensures SessionStory.Advertised(a) <==> SessionStory.Advertised(b)
    ensures Offers(a) <==> Offers(b)
  {
    hide ReadResponse, Flatten, ReadCapabilities;
  }

  /** What was received up to an ending of the opener's own. */
  lemma OwnEndingReceived(cfg: Config, sasl: Option<Mechanism>, args: seq<Option<bytes>>) returns (all: seq<bytes>)
    requires Legal(cfg, sasl, args) && args != []
    requires var out := Output(cfg, sasl, args);
             && out.Finished? && out.result.Failure?
             && (out.result.error.CleartextAuth? || out.result.error.StartTlsUnsupported?)
    ensures Flatten(Chunks(Log(cfg, sasl, args))) == Flatten(all) && Writes(Log(cfg, sasl, args)) == []
    ensures Clean(all) && Connectable(cfg)
    ensures var e := Output(cfg, sasl, args).result.error;
            && (e.StartTlsUnsupported? ==> cfg.startTls && !SessionStory.Advertised(all))
            && (e.CleartextAuth? ==>
                  && !cfg.startTls && sasl.Some? && e.name == sasl.value.name
                  && !MayTravel(cfg, false, sasl.value.name))
  {
    hide SessionStep, Tell, Founded, Stands, Ends, Legal, Log, Chunks, Writes, Clean, SessionStory.Advertised, Output;
    hide MayTravel, Unfinished, Connectable;
    var c := EveryRunEnds(cfg, sasl, args);
    var arg := args[|args| - 1];
    OwnEnding(cfg, sasl, c, arg, Output(cfg, sasl, args).result);
    GreetingReceived(cfg, sasl, c.now.value, arg.value);
    all := c.now.value + [arg.value];
  }

  /** An opening is refused for its credentials if and only if they are exposed,
      no upgrade was asked for, and the greeting is a clean OK; it is refused
      with their name. Over TLS or a socket, where allowed, after an upgrade and
      for any other mechanism it never is. */
  lemma CleartextExactly(cfg: Config, sasl: Option<Mechanism>, args: seq<Option<bytes>>, name: Command.MechanismName)
    requires Legal(cfg, sasl, args) && args != []
    ensures Output(cfg, sasl, args) == Finished(Failure(CleartextAuth(name))) <==>
            && sasl.Some? && sasl.value.name == name && Exposed(cfg, name) && !cfg.startTls
            && Clean(Chunks(Log(cfg, sasl, args)))
  {
    hide SessionStep, Ends, Legal, Log, Chunks, Writes, Clean, SessionStory.Advertised, Output, MayTravel, Exposed;
    TravelsUnlessExposed(cfg, false, name);
    var received := Chunks(Log(cfg, sasl, args));
    if Output(cfg, sasl, args) == Finished(Failure(CleartextAuth(name))) {
      var all := OwnEndingReceived(cfg, sasl, args);
      ReceivedAlike(received, all);
    }
    if sasl.Some? && sasl.value.name == name && Exposed(cfg, name) && !cfg.startTls && Clean(received) {
      var chunks, chunk := GreetingDecides(cfg, sasl, args);
      ReceivedAlike(received, chunks + [chunk]);
    }
  }

  /** Some line of the greeting opens on a string that spells STARTTLS. */
  predicate Offers(chunks: seq<bytes>) {
    var p := ReadResponse(Flatten(chunks));
    p.Parsed? && exists i :: 0 <= i < |p.value.data| && OffersStartTls(p.value.data[i])
  }

  predicate OffersStartTls(line: DataLine) {
    line.tokens != [] && line.tokens[0].Text? && Words.SpelledAs(line.tokens[0].octets, "STARTTLS")
  }

  /** An offer is made in so many words. */
  lemma OfferIsSpelled(chunks: seq<bytes>)
    ensures SessionStory.Advertised(chunks) <==> Clean(chunks) && Offers(chunks)
  {
    hide ReadResponse, Flatten, ReadCapabilities, Words.SpelledAs, EqIgnoreCase, Ascii;
    if Clean(chunks) {
      var data := ReadResponse(Flatten(chunks)).value.data;
      ResponsePrefix.DataOpensOnString(Flatten(chunks));
      Calls.CapabilitiesListed(data, ReadCapabilities(data));
      forall i | 0 <= i < |data|
        ensures EqIgnoreCase(ReadCapabilities(data)[i].name, Ascii("STARTTLS")) <==> OffersStartTls(data[i])
      {
        Words.SpellingExactly(ReadCapabilities(data)[i].name, "STARTTLS");
        assert Calls.NamesCapability(data[i], ReadCapabilities(data)[i]);
      }
    }
  }

  /** An upgrade that was asked for is refused if and only if the greeting is a
      clean OK that does not offer it. */
  lemma UnsupportedExactly(cfg: Config, sasl: Option<Mechanism>, args: seq<Option<bytes>>)
    requires Legal(cfg, sasl, args) && args != []
    ensures Output(cfg, sasl, args) == Finished(Failure(StartTlsUnsupported)) <==>
            && cfg.startTls && cfg.transport.Tcp? && Writes(Log(cfg, sasl, args)) == []
            && Clean(Chunks(Log(cfg, sasl, args))) && !Offers(Chunks(Log(cfg, sasl, args)))
  {
    hide SessionStep, Ends, Legal, Log, Chunks, Writes, Clean, SessionStory.Advertised, Output, MayTravel, Exposed;
    hide Offers;
    var received := Chunks(Log(cfg, sasl, args));
    OfferIsSpelled(received);
    if Output(cfg, sasl, args) == Finished(Failure(StartTlsUnsupported)) {
      var all := OwnEndingReceived(cfg, sasl, args);
      ReceivedAlike(received, all);
    }
    if cfg.startTls && cfg.transport.Tcp? && Writes(Log(cfg, sasl, args)) == [] && Clean(received)
       && !Offers(received) {
      var chunks, chunk := GreetingDecides(cfg, sasl, args);
      ReceivedAlike(received, chunks + [chunk]);
    }
  }

  /** An upgrade of anything but a plain connection is refused by the first
      resume, and nothing else is. */
  lemma OverTlsExactly(cfg: Config, sasl: Option<Mechanism>, args: seq<Option<bytes>>)
    requires Legal(cfg, sasl, args) && args != []
    ensures Output(cfg, sasl, args) == Finished(Failure(StartTlsOverTls)) <==> cfg.startTls && !cfg.transport.Tcp?
  {
    hide SessionStep, Tell, Founded, Ends, Legal, Log;
    var c, last := StoryOf(cfg, sasl, args);
    OnlyBlankIsUnconnected(cfg, sasl, c);
    if Output(cfg, sasl, args) == Finished(Failure(StartTlsOverTls)) {
      var d := EveryRunEnds(cfg, sasl, args);
      NothingBeforeConnecting(cfg, sasl, d, args[|args| - 1], Output(cfg, sasl, args).result);
      BlankIsUnconnected(cfg, sasl, args[|args| - 1], Output(cfg, sasl, args).result);
    }
  }

  lemma OnlyBlankIsUnconnected(cfg: Config, sasl: Option<Mechanism>, c: Chapter)
    requires Founded(cfg, sasl, c)
    ensures cfg.startTls && !cfg.transport.Tcp? ==> c == Blank
  {
    hide Clean, SessionStory.Advertised, AuthLegal, AuthOutput, Unfinished, MayTravel;
  }

  lemma BlankIsUnconnected(cfg: Config, sasl: Option<Mechanism>, arg: Option<bytes>,
                           result: Result<Capabilities, SessionError>)
    requires Ends(cfg, sasl, Blank, arg, result)
    ensures cfg.startTls && !cfg.transport.Tcp?
  {
  }
}
