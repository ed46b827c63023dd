/** What the stories of the session opener promise a caller. */
module SessionProtocol {
  import opened Bytes
  import opened Replies
  import opened Exchange
  import opened Opening
  import opened SessionStory
  import opened SessionEnding

  /** A read or what it brought. */
  predicate IsRead(e: Event) {
    e == Asked(Read) || e.Received?
  }

  /** A read, what it brought, or a write. */
  predicate IsExchange(e: Event) {
    IsRead(e) || (e.Asked? && e.ask.Write?)
  }

  lemma {:induction false} ReadsOnlyRead(chunks: seq<bytes>)
    ensures forall i :: 0 <= i < |Reads(chunks)| ==> IsRead(Reads(chunks)[i])
  {
    if chunks != [] {
      ReadsOnlyRead(chunks[..|chunks| - 1]);
    }
  }

  lemma NowOnlyReads(now: Option<seq<bytes>>)
    ensures forall i :: 0 <= i < |Now(now)| ==> IsRead(Now(now)[i])
  {
    if now.Some? {
      ReadsOnlyRead(now.value);
    }
  }

  lemma {:induction false} AuthOnlyExchanges(m: Mechanism, args: seq<Option<bytes>>)
    ensures forall i :: 0 <= i < |AuthLog(m, args)| ==> IsExchange(AuthLog(m, args)[i])
  {
    hide AuthStep;
    if args != [] {
      AuthOnlyExchanges(m, args[..|args| - 1]);
    }
  }

  /** The part of a story before the authentication. */
  function Preamble(cfg: Config, c: Chapter): seq<Event> {
    match c
    case Auth(greeting, None, _) => [Asked(Connect(cfg.transport))] + Reads(greeting)
    case Auth(greeting, Some(up), _) => ToUpgrade(cfg, greeting, up.reply) + Reads(up.greeting)
    case _ => Tell(cfg, None, c)
  }

  /** The authentication part. */
  function Credentials(m: Option<Mechanism>, c: Chapter): seq<Event> {
    if c.Auth? && m.Some? then AuthEvents(m.value, c.args) else []
  }

  /** At most one upgrade, in its place. */
  predicate Ordered(cfg: Config, p: seq<Event>, upgraded: bool) {
    && (p != [] ==> p[0] == Asked(Connect(cfg.transport)))
    && (forall i :: 0 < i < |p| ==> !(p[i].Asked? && p[i].ask.Connect?))
    && (forall i, j :: 0 <= i < |p| && 0 <= j < |p| ==>
          p[i] == Asked(UpgradeTls) && p[j] == Asked(UpgradeTls) ==> i == j)
    && (forall i :: 0 <= i < |p| && p[i].Asked? && p[i].ask.Write? ==> p[i].ask.octets == STARTTLS_COMMAND)
    && (Asked(UpgradeTls) in p <==> upgraded)
  }

  lemma OrderedReads(cfg: Config, p: seq<Event>, upgraded: bool, r: seq<Event>)
    requires Ordered(cfg, p, upgraded) && p != []
    requires forall i :: 0 <= i < |r| ==> IsRead(r[i])
    ensures Ordered(cfg, p + r, upgraded)
  {
    hide STARTTLS_COMMAND;
    var q := p + r;
    assert forall i :: |p| <= i < |q| ==> IsRead(q[i]);
    if Asked(UpgradeTls) in q {
      var i :| 0 <= i < |q| && q[i] == Asked(UpgradeTls);
      assert i < |p|;
    }
  }

  lemma OrderedConnect(cfg: Config)
    ensures Ordered(cfg, [Asked(Connect(cfg.transport))], false)
  {
  }

  lemma OrderedStartTls(cfg: Config, greeting: seq<bytes>)
    ensures Ordered(cfg, ToStartTls(cfg, greeting), false)
  {
    hide Reads, STARTTLS_COMMAND, Ordered;
    OrderedConnect(cfg);
    ReadsOnlyRead(greeting);
    OrderedReads(cfg, [Asked(Connect(cfg.transport))], false, Reads(greeting));
    OrderedWrite(cfg, [Asked(Connect(cfg.transport))] + Reads(greeting));
  }

  lemma OrderedWrite(cfg: Config, p: seq<Event>)
    requires Ordered(cfg, p, false) && p != []
    ensures Ordered(cfg, p + [Asked(Write(STARTTLS_COMMAND))], false)
  {
    hide STARTTLS_COMMAND;
  }

  lemma OrderedUpgrade(cfg: Config, greeting: seq<bytes>, reply: seq<bytes>)
    ensures Ordered(cfg, ToUpgrade(cfg, greeting, reply), true)
  {
    hide Reads, STARTTLS_COMMAND, ToStartTls, Ordered;
    OrderedStartTls(cfg, greeting);
    ReadsOnlyRead(reply);
    StartTlsNotEmpty(cfg, greeting);
    OrderedReads(cfg, ToStartTls(cfg, greeting), false, Reads(reply));
    OrderedOnce(cfg, ToStartTls(cfg, greeting) + Reads(reply));
  }

  lemma StartTlsNotEmpty(cfg: Config, greeting: seq<bytes>)
    ensures ToStartTls(cfg, greeting) != []
  {
    hide Reads;
  }

  lemma OrderedOnce(cfg: Config, p: seq<Event>)
    requires Ordered(cfg, p, false) && p != []
    ensures Ordered(cfg, p + [Asked(UpgradeTls)], true)
  {
    hide STARTTLS_COMMAND;
    var q := p + [Asked(UpgradeTls)];
    assert q[|p|] == Asked(UpgradeTls);
  }

  predicate HasUpgraded(c: Chapter) {
    c.TlsUp? || c.TlsGreeting? || (c.Auth? && c.upgrade.Some?)
  }

  lemma PreambleOrdered(cfg: Config, c: Chapter)
    ensures Ordered(cfg, Preamble(cfg, c), HasUpgraded(c))
    ensures c != Blank ==> Preamble(cfg, c) != []
  {
    hide Reads, Now, ToStartTls, ToUpgrade, Ordered;
    OrderedConnect(cfg);
    match c
    case Blank => assert Ordered(cfg, [], false) by { OrderedNothing(cfg); }
    case Greeting(now) =>
      NowOnlyReads(now);
      OrderedReads(cfg, [Asked(Connect(cfg.transport))], false, Now(now));
    case StartTls(greeting, now) =>
      NowOnlyReads(now);
      OrderedStartTls(cfg, greeting);
      StartTlsNotEmpty(cfg, greeting);
      OrderedReads(cfg, ToStartTls(cfg, greeting), false, Now(now));
    case TlsUp(greeting, reply) =>
      OrderedUpgrade(cfg, greeting, reply);
      UpgradeNotEmpty(cfg, greeting, reply);
    case TlsGreeting(greeting, reply, now) =>
      NowOnlyReads(now);
      OrderedUpgrade(cfg, greeting, reply);
      UpgradeNotEmpty(cfg, greeting, reply);
      OrderedReads(cfg, ToUpgrade(cfg, greeting, reply), true, Now(now));
    case Auth(greeting, None, _) =>
      ReadsOnlyRead(greeting);
      OrderedReads(cfg, [Asked(Connect(cfg.transport))], false, Reads(greeting));
    case Auth(greeting, Some(up), _) =>
      ReadsOnlyRead(up.greeting);
      OrderedUpgrade(cfg, greeting, up.reply);
      UpgradeNotEmpty(cfg, greeting, up.reply);
      OrderedReads(cfg, ToUpgrade(cfg, greeting, up.reply), true, Reads(up.greeting));
  }

  lemma OrderedNothing(cfg: Config)
    ensures Ordered(cfg, [], false)
  {
  }

  lemma UpgradeNotEmpty(cfg: Config, greeting: seq<bytes>, reply: seq<bytes>)
    ensures ToUpgrade(cfg, greeting, reply) != []
  {
    hide Reads, ToStartTls;
  }

  lemma TellSplits(cfg: Config, sasl: Option<Mechanism>, c: Chapter)
    ensures Tell(cfg, sasl, c) == Preamble(cfg, c) + Credentials(sasl, c)
  {
    hide Reads, Now, ToStartTls, ToUpgrade, AuthEvents;
  }

  /** Exactly one connect, and it comes first; at most one upgrade; and anything
      written but the STARTTLS command belongs to credentials that may travel at
      that point, the transport being protected from the start or by an upgrade
      already made. */
  predicate InOrder(cfg: Config, sasl: Option<Mechanism>, log: seq<Event>) {
    && (log != [] ==> log[0] == Asked(Connect(cfg.transport)))
    && (forall i :: 0 < i < |log| ==> !(log[i].Asked? && log[i].ask.Connect?))
    && (forall i, j :: 0 <= i < |log| && 0 <= j < |log| ==>
          log[i] == Asked(UpgradeTls) && log[j] == Asked(UpgradeTls) ==> i == j)
    && (forall i :: 0 <= i < |log| && log[i].Asked? && log[i].ask.Write? && log[i].ask.octets != STARTTLS_COMMAND ==>
          sasl.Some? && MayTravel(cfg, Asked(UpgradeTls) in log[..i], sasl.value.name))
  }

  lemma StoryInOrder(cfg: Config, sasl: Option<Mechanism>, c: Chapter)
    requires Founded(cfg, sasl, c)
    ensures InOrder(cfg, sasl, Tell(cfg, sasl, c))
    ensures c != Blank ==> Tell(cfg, sasl, c) != []
    ensures Asked(UpgradeTls) in Tell(cfg, sasl, c) <==> HasUpgraded(c)
  {
    hide Tell, Preamble, STARTTLS_COMMAND, Founded, Credentials, InOrder;
    TellSplits(cfg, sasl, c);
    PreambleOrdered(cfg, c);
    CredentialsMayTravel(cfg, sasl, c, Preamble(cfg, c), Credentials(sasl, c));
  }

  lemma CredentialsMayTravel(cfg: Config, sasl: Option<Mechanism>, c: Chapter, p: seq<Event>, q: seq<Event>)
    requires Ordered(cfg, p, HasUpgraded(c)) && (c != Blank ==> p != []) && Founded(cfg, sasl, c)
             && q == Credentials(sasl, c)
    ensures InOrder(cfg, sasl, p + q)
    ensures Asked(UpgradeTls) in p + q <==> HasUpgraded(c)
  {
    hide MayTravel, Clean, Advertised, STARTTLS_COMMAND, AuthLog, Connectable, Unfinished, AuthLegal, AuthOutput;
    if sasl.Some? && c.Auth? {
      AuthOnlyExchanges(sasl.value, [None] + c.args);
    }
    var log := p + q;
    assert forall i :: |p| <= i < |log| ==> log[i] == q[i - |p|] && IsExchange(log[i]);
    if Asked(UpgradeTls) in log {
      var i :| 0 <= i < |log| && log[i] == Asked(UpgradeTls);
      assert i < |p| && p[i] == log[i];
    }
    forall i | 0 <= i < |log| && log[i].Asked? && log[i].ask.Write? && log[i].ask.octets != STARTTLS_COMMAND
      ensures sasl.Some? && MayTravel(cfg, Asked(UpgradeTls) in log[..i], sasl.value.name)
    {
      assert i >= |p| && c.Auth?;
      assert log[..i] == p + q[..i - |p|];
      var earlier := q[..i - |p|];
      assert forall k :: 0 <= k < |earlier| ==> IsExchange(earlier[k]);
      assert Asked(UpgradeTls) in log[..i] <==> c.upgrade.Some?;
    }
  }

  /** The chunk that ends a run is out of no order. */
  lemma ArrivalInOrder(cfg: Config, sasl: Option<Mechanism>, log: seq<Event>, arg: Option<bytes>)
    requires InOrder(cfg, sasl, log) && (arg.Some? ==> log != [])
    ensures InOrder(cfg, sasl, log + Arrival(arg))
  {
    hide MayTravel, STARTTLS_COMMAND;
    var all := log + Arrival(arg);
    forall i | 0 <= i < |all| && all[i].Asked? && all[i].ask.Write? && all[i].ask.octets != STARTTLS_COMMAND
      ensures sasl.Some? && MayTravel(cfg, Asked(UpgradeTls) in all[..i], sasl.value.name)
    {
      assert all[..i] == log[..i];
    }
  }

  /** The story of any legal run, finished or not. */
  lemma StoryOf(cfg: Config, sasl: Option<Mechanism>, args: seq<Option<bytes>>)
    returns (c: Chapter, last: Option<bytes>)
    requires Legal(cfg, sasl, args)
    ensures Founded(cfg, sasl, c) && Log(cfg, sasl, args) == Tell(cfg, sasl, c) + Arrival(last)
    ensures last.Some? ==> c != Blank
    ensures c == Blank <==> args == [] || Output(cfg, sasl, args) == Finished(Failure(StartTlsOverTls))
  {
    hide SessionStep, Tell, Founded, Stands, Ends;
    if args == [] || Output(cfg, sasl, args).Ask? {
      c := EveryRunIsAStory(cfg, sasl, args);
      last := None;
      if args == [] {
        OnlyBlank(cfg, sasl, c);
      }
      assert Tell(cfg, sasl, c) + [] == Tell(cfg, sasl, c);
    } else {
      c := EveryRunEnds(cfg, sasl, args);
      last := args[|args| - 1];
      NothingBeforeConnecting(cfg, sasl, c, last, Output(cfg, sasl, args).result);
    }
  }

  lemma NothingBeforeConnecting(cfg: Config, sasl: Option<Mechanism>, c: Chapter, arg: Option<bytes>,
                                result: Result<Capabilities, SessionError>)
    requires Ends(cfg, sasl, c, arg, result)
    ensures c == Blank <==> result == Failure(StartTlsOverTls)
    ensures c == Blank ==> arg.None?
  {
    hide Clean, Advertised, AuthLegal, AuthOutput, Refused, Unbegun, MayTravel;
    hide Connectable;
  }

  /** Every legal run is in order, whether it is still going, has succeeded or
      has failed; one that never connected was refused before it asked for
      anything. */
  lemma EveryRunIsOrdered(cfg: Config, sasl: Option<Mechanism>, args: seq<Option<bytes>>)
    requires Legal(cfg, sasl, args)
    ensures InOrder(cfg, sasl, Log(cfg, sasl, args))
    ensures Log(cfg, sasl, args) == [] <==> args == [] || Output(cfg, sasl, args) == Finished(Failure(StartTlsOverTls))
  {
    hide SessionStep, Tell, InOrder, Founded, Ends, Legal, Log;
    var c, last := StoryOf(cfg, sasl, args);
    TellBlank(cfg, sasl);
    StoryInOrder(cfg, sasl, c);
    ArrivalInOrder(cfg, sasl, Tell(cfg, sasl, c), last);
  }

  function ReplyOf(c: Chapter): seq<bytes>
    requires HasUpgraded(c)
  {
    if c.Auth? then c.upgrade.value.reply else c.reply
  }

  function SecondOf(c: Chapter): seq<bytes> {
    if c.Auth? && c.upgrade.Some? then c.upgrade.value.greeting else []
  }

  lemma Continuation(cfg: Config, sasl: Option<Mechanism>, c: Chapter) returns (rest: seq<Event>)
    requires HasUpgraded(c)
    ensures Tell(cfg, sasl, c) == ToUpgrade(cfg, c.greeting, ReplyOf(c)) + rest
    ensures if c.Auth? then rest == Reads(SecondOf(c)) + Credentials(sasl, c)
            else forall i :: 0 <= i < |rest| ==> IsRead(rest[i])
  {
    hide Reads, Now, ToUpgrade, AuthEvents;
    match c
    case TlsUp(_, _) => rest := [];
    case TlsGreeting(_, _, now) =>
      NowOnlyReads(now);
      rest := Now(now);
    case Auth(_, Some(up), _) => rest := Reads(up.greeting) + Credentials(sasl, c);
  }

  lemma UpgradeEnds(cfg: Config, greeting: seq<bytes>, reply: seq<bytes>)
    ensures var front := ToUpgrade(cfg, greeting, reply); front != [] && front[|front| - 1] == Asked(UpgradeTls)
  {
    hide Reads, ToStartTls;
  }

  lemma UpgradedStory(cfg: Config, sasl: Option<Mechanism>, c: Chapter)
    requires Asked(UpgradeTls) in Tell(cfg, sasl, c)
    ensures HasUpgraded(c)
  {
    hide Tell, Preamble, AuthLog;
    TellSplits(cfg, sasl, c);
    PreambleOrdered(cfg, c);
    if sasl.Some? && c.Auth? {
      AuthOnlyExchanges(sasl.value, [None] + c.args);
    }
  }

  lemma FoundedUpgrade(cfg: Config, sasl: Option<Mechanism>, c: Chapter)
    requires HasUpgraded(c) && Founded(cfg, sasl, c)
    ensures cfg.startTls && Advertised(c.greeting) && Clean(ReplyOf(c))
    ensures c.Auth? ==> Clean(SecondOf(c))
  {
    hide Clean, Advertised, MayTravel, Connectable;
  }

  /** The upgrade at `u` was asked for only after a greeting that offered it, a
      written STARTTLS and an OK nothing trailed; and nothing is written after
      it until the second greeting has been read, OK and nothing trailing it
      either. */
  predicate Earned(cfg: Config, log: seq<Event>, u: nat, greeting: seq<bytes>, reply: seq<bytes>, second: seq<bytes>)
    requires u < |log|
  {
    && log[..u + 1] == ToUpgrade(cfg, greeting, reply)
    && cfg.startTls && Advertised(greeting) && Clean(reply)
    && (forall w :: u < w < |log| && log[w].Asked? && log[w].ask.Write? ==>
          && Clean(second) && u + 1 + |Reads(second)| <= w
          && log[u + 1..][..|Reads(second)|] == Reads(second))
  }

  lemma StoryEarns(cfg: Config, sasl: Option<Mechanism>, c: Chapter, u: nat)
    requires Founded(cfg, sasl, c) && u < |Tell(cfg, sasl, c)| && Tell(cfg, sasl, c)[u] == Asked(UpgradeTls)
    ensures HasUpgraded(c) && Earned(cfg, Tell(cfg, sasl, c), u, c.greeting, ReplyOf(c), SecondOf(c))
  {
    hide Tell, Founded, MayTravel, Clean, Advertised, ToUpgrade, Reads, Credentials;
    var log := Tell(cfg, sasl, c);
    UpgradedStory(cfg, sasl, c);
    FoundedUpgrade(cfg, sasl, c);
    var second := SecondOf(c);
    var front := ToUpgrade(cfg, c.greeting, ReplyOf(c));
    var rest := Continuation(cfg, sasl, c);
    UpgradeEnds(cfg, c.greeting, ReplyOf(c));
    StoryInOrder(cfg, sasl, c);
    assert log[|front| - 1] == Asked(UpgradeTls);
    assert log[u + 1..] == rest;
    if c.Auth? {
      ReadsOnlyRead(second);
      assert forall i :: 0 <= i < |Reads(second)| ==> rest[i] == Reads(second)[i] && IsRead(rest[i]);
    }
    forall w | u < w < |log| && log[w].Asked? && log[w].ask.Write?
      ensures c.Auth? && u + 1 + |Reads(second)| <= w
    {
      assert log[w] == rest[w - |front|];
    }
  }

  /** The chunk that ends a run is not a write. */
  lemma ArrivalEarns(cfg: Config, log: seq<Event>, arg: Option<bytes>, u: nat,
                     greeting: seq<bytes>, reply: seq<bytes>, second: seq<bytes>)
    requires u < |log| && Earned(cfg, log, u, greeting, reply, second)
    ensures Earned(cfg, log + Arrival(arg), u, greeting, reply, second)
  {
    hide Clean, Advertised, ToUpgrade, Reads;
    var all := log + Arrival(arg);
    assert all[..u + 1] == log[..u + 1];
    forall w | u < w < |all| && all[w].Asked? && all[w].ask.Write?
      ensures Clean(second) && u + 1 + |Reads(second)| <= w && all[u + 1..][..|Reads(second)|] == Reads(second)
    {
      assert w < |log| && log[w] == all[w];
      assert all[u + 1..][..|Reads(second)|] == log[u + 1..][..|Reads(second)|];
    }
  }

  /** In every legal run, finished or not, the upgrade is earned. */
  lemma UpgradeIsEarned(cfg: Config, sasl: Option<Mechanism>, args: seq<Option<bytes>>, u: nat)
    returns (greeting: seq<bytes>, reply: seq<bytes>, second: seq<bytes>)
    requires Legal(cfg, sasl, args)
    requires u < |Log(cfg, sasl, args)| && Log(cfg, sasl, args)[u] == Asked(UpgradeTls)
    ensures Earned(cfg, Log(cfg, sasl, args), u, greeting, reply, second)
  {
    hide SessionStep, Tell, Founded, Legal, Earned;
    var c, last := StoryOf(cfg, sasl, args);
    StoryEarns(cfg, sasl, c, u);
    greeting, reply, second := c.greeting, ReplyOf(c), SecondOf(c);
    ArrivalEarns(cfg, Tell(cfg, sasl, c), last, u, greeting, reply, second);
  }
}
