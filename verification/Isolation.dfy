/** Nothing that was read in the clear reaches what happens over TLS (section
    2.2 of RFC 5804). */
module Isolation {
  import opened Bytes
  import opened Reader
  import opened Replies
  import opened Exchange
  import opened Opening
  import opened SessionStory

  /** The same session, but for the capabilities once read in the clear. */
  ghost predicate Alike(a: Session, b: Session) {
    && a.stage == b.stage && a.sasl == b.sasl && a.upgraded == b.upgraded
    && (a.stage.Upgraded? || a.stage.GreetedTls? || a.stage.Authenticating?)
  }

  /** A session resumed many times: everything it answers, up to its end. */
  function Answers(cfg: Config, s: Session, args: seq<Option<bytes>>): seq<SessionProgress>
    decreases |args|
  {
    if args == [] then []
    else
      var (next, out) := SessionStep(cfg, s, args[0]);
      [out] + if out.Finished? then [] else Answers(cfg, next, args[1..])
  }

  lemma AlikeStep(cfg: Config, a: Session, b: Session, arg: Option<bytes>)
    requires Alike(a, b)
    ensures SessionStep(cfg, a, arg).1 == SessionStep(cfg, b, arg).1
    ensures SessionStep(cfg, a, arg).1.Ask? ==> Alike(SessionStep(cfg, a, arg).0, SessionStep(cfg, b, arg).0)
  {
    hide AuthStep, ReadStep, Replies.Greeting, MayTravel;
  }

  lemma {:induction false} AlikeAnswers(cfg: Config, a: Session, b: Session, args: seq<Option<bytes>>)
    requires Alike(a, b)
    ensures Answers(cfg, a, args) == Answers(cfg, b, args)
    decreases |args|
  {
    hide SessionStep, Alike;
    if args != [] {
      AlikeStep(cfg, a, b, args[0]);
      var (next, out) := SessionStep(cfg, a, args[0]);
      if out.Ask? {
        AlikeAnswers(cfg, next, SessionStep(cfg, b, args[0]).0, args[1..]);
      }
    }
  }

  /** What a session holds when it asks for the upgrade, whatever it has read. */
  lemma AtTheUpgrade(cfg: Config, sasl: Option<Mechanism>, args: seq<Option<bytes>>)
    requires Legal(cfg, sasl, args) && args != [] && Output(cfg, sasl, args) == Ask(UpgradeTls)
    ensures var s := SessionAfter(cfg, sasl, args); s.stage == Upgraded && s.sasl == sasl && s.upgraded
  {
    hide SessionStep, Tell, Founded, Legal;
    var c := EveryRunIsAStory(cfg, sasl, args);
    AsksUpgradeOnlyOnce(cfg, SessionAfter(cfg, sasl, args[..|args| - 1]), args[|args| - 1]);
  }

  /** Only the stage that heard OK to STARTTLS asks for the upgrade. */
  lemma AsksUpgradeOnlyOnce(cfg: Config, s: Session, arg: Option<bytes>)
    requires SessionStep(cfg, s, arg).1 == Ask(UpgradeTls)
    ensures SessionStep(cfg, s, arg).0.stage == Upgraded && SessionStep(cfg, s, arg).0.upgraded
    ensures SessionStep(cfg, s, arg).0.sasl == s.sasl
  {
    hide AuthStep, ReadStep, Replies.Greeting, MayTravel, StartTlsReply;
  }

  /** Two openings with the same options and credentials that both reach the
      upgrade answer alike from there on, to the same arguments: nothing the
      cleartext greetings or the replies to STARTTLS said makes a difference. */
  lemma NothingCrossesTheUpgrade(cfg: Config, sasl: Option<Mechanism>, before: seq<Option<bytes>>,
                                 other: seq<Option<bytes>>,
                                 args: seq<Option<bytes>>)
    requires Legal(cfg, sasl, before) && before != [] && Output(cfg, sasl, before) == Ask(UpgradeTls)
    requires Legal(cfg, sasl, other) && other != [] && Output(cfg, sasl, other) == Ask(UpgradeTls)
    ensures Answers(cfg, SessionAfter(cfg, sasl, before), args) == Answers(cfg, SessionAfter(cfg, sasl, other), args)
  {
    hide SessionStep, Legal, Output;
    AtTheUpgrade(cfg, sasl, before);
    AtTheUpgrade(cfg, sasl, other);
    AlikeAnswers(cfg, SessionAfter(cfg, sasl, before), SessionAfter(cfg, sasl, other), args);
  }
}
