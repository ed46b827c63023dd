/** A sign-in in step with its server has one outcome: that of the exchange on
    the replies, its capability refresh reading the whole of the last one. */
module SignIn {
  import opened Bytes
  import opened Response
  import opened Reader
  import opened Exchange
  import opened ExchangeRun
  import opened Draining
  import opened InStep
  import opened RunEndings
  import Command
  import Endings
  import C = ExchangeCuts
  import I = Injection
  import L = RefreshLoss
  import R = Reading
  import ResponsePrefix

  /** The replies of a server, each to one write, read as one stream; the last
      of them is what a refresh would be answered with. */
  function ExchangeOn(m: Mechanism, opts: Options, replies: seq<bytes>): Transcript {
    WholeExchange(m, opts, Flatten(replies), Refreshed(if replies == [] then [] else replies[|replies| - 1]))
  }

  /** The transcript that the lines of the replies and the mechanism spell out,
      a refresh being answered by the whole of the last reply. */
  ghost predicate SignsIn(m: Mechanism, opts: Options, replies: seq<bytes>, t: Transcript) {
    exists refresh ::
      && RefreshEnds(R.Whole(if replies == [] then [] else replies[|replies| - 1]), refresh)
      && Endings.Transcribes(m, opts, Flatten(replies), refresh, t)
  }

  lemma ExchangeSignsIn(m: Mechanism, opts: Options, replies: seq<bytes>, t: Transcript)
    ensures ExchangeOn(m, opts, replies) == t <==> SignsIn(m, opts, replies, t)
  {
    hide R.Whole, RefreshEnds, Endings.Transcribes, Flatten, Refreshed, WholeExchange;
    var last := if replies == [] then [] else replies[|replies| - 1];
    var refreshed := Refreshed(last);
    RefreshedConcludes(last, refreshed);
    Endings.ExchangeTranscribes(m, opts, Flatten(replies), refreshed, t);
    forall refresh | RefreshEnds(R.Whole(last), refresh)
      ensures refresh == refreshed
    {
      RefreshedConcludes(last, refresh);
    }
  }

  /** A reply suits each write of an exchange, past the first reply. */
  predicate Follow(writes: seq<bytes>, replies: seq<bytes>) {
    && |replies| == |writes| + 1
    && forall i :: 0 <= i < |writes| ==> Suits(writes[i], replies[i + 1])
  }

  /** The line at the front of the replies is the first of them. */
  lemma FirstReply(replies: seq<bytes>)
    requires replies != [] && OneLine(replies[0])
    ensures ReadLine(Flatten(replies)) == ReadLine(replies[0])
    ensures Flatten(replies)[|replies[0]|..] == Flatten(replies[1..])
  {
    hide ReadLine;
    ResponsePrefix.LineStable(replies[0], Flatten(replies[1..]));
  }

  lemma FollowMore(writes: seq<bytes>, replies: seq<bytes>)
    requires Follow(writes, replies) && writes != []
    ensures Follow(writes[1..], replies[1..]) && Suits(writes[0], replies[1])
  {
    hide Suits;
    forall i | 0 <= i < |writes| - 1
      ensures Suits(writes[1..][i], replies[1..][i + 1])
    {
      assert Suits(writes[i + 1], replies[i + 2]);
    }
  }

  /** The last write of an exchange that refreshes asks for capabilities. */
  predicate EndsInRefresh(writes: seq<bytes>, replies: seq<bytes>, point: nat) {
    && writes != [] && |replies| == |writes| + 1
    && point == |Flatten(replies[..|replies| - 1])|
    && OneResponse(replies[|replies| - 1])
  }

  lemma RefreshCallsForResponse(reply: bytes)
    requires Suits(Command.Command.Capability.Serialize(), reply)
    ensures OneResponse(reply)
  {
    hide OneLine, OneResponse, CallsForLine, Command.Command.Serialize;
    CommandCallsForResponse(Command.Command.Capability);
  }

  lemma AnswerCallsForLine(m: Mechanism, opts: Options, heard: seq<SaslArg>, pending: Option<bytes>, line: Line,
                           reply: bytes)
    requires OnLine(m, opts, heard, pending, line).Answer?
    requires Suits(OnLine(m, opts, heard, pending, line).octets, reply)
    ensures OneLine(reply)
  {
    hide OneLine, OneResponse, CallsForLine, ClientResponse, OnChallenge, OnCompletion;
    OnlyDataIsAnswered(m, opts, heard, pending, line);
    var payload := Challenged(m, heard, pending, line.line.StringAt(0).value);
    ClientResponseCallsForLine(payload);
  }

  lemma OnlyDataIsAnswered(m: Mechanism, opts: Options, heard: seq<SaslArg>, pending: Option<bytes>, line: Line)
    requires OnLine(m, opts, heard, pending, line).Answer?
    ensures line.Data? && line.line.StringAt(0).Some?
    ensures OnLine(m, opts, heard, pending, line) == OnChallenge(m, heard, pending, line.line.StringAt(0).value)
  {
    hide OnChallenge;
    C.OnlyCompletionsRefresh(m, opts, heard, pending, line);
  }

  /** In step, the refresh comes right before the last reply. */
  lemma {:induction false} PointInStep(m: Mechanism, opts: Options, heard: seq<SaslArg>, pending: Option<bytes>,
                                       replies: seq<bytes>, writes: seq<bytes>, refresh: AuthResult)
    requires Follow(writes, replies) && OneLine(replies[0])
    requires Reference(m, opts, heard, pending, Flatten(replies), refresh).writes == writes
    ensures var point := RefreshPoint(m, opts, heard, pending, Flatten(replies));
            point.Some? ==> EndsInRefresh(writes, replies, point.value)
    decreases |replies|
  {
    hide ReadLine, OnLine, OneLine, OneResponse, Suits, Flatten, Command.Command.Serialize;
    FirstReply(replies);
    FrontLine(replies);
    var line, n := ReadLine(Flatten(replies)).value, |replies[0]|;
    var r := OnLine(m, opts, heard, pending, line);
    if r.Answer? {
      FollowMore(writes, replies);
      AnswerCallsForLine(m, opts, heard, pending, line, replies[1]);
      PointInStep(m, opts, r.heard, None, replies[1..], writes[1..], refresh);
      OneReplyMore(replies);
    } else if r.Refresh? {
      FollowMore(writes, replies);
      RefreshCallsForResponse(replies[1]);
      OneReply(replies);
    }
  }

  lemma FrontLine(replies: seq<bytes>)
    requires replies != [] && OneLine(replies[0])
    ensures ReadLine(replies[0]).Parsed? && ReadLine(replies[0]).consumed == |replies[0]|
  {
  }

  lemma OneReplyMore(replies: seq<bytes>)
    requires |replies| >= 2
    ensures |Flatten(replies[..|replies| - 1])| == |replies[0]| + |Flatten(replies[1..][..|replies| - 2])|
  {
    assert replies[..|replies| - 1][1..] == replies[1..][..|replies| - 2];
  }

  lemma OneReply(replies: seq<bytes>)
    requires |replies| >= 1
    ensures |Flatten(replies[..1])| == |replies[0]|
  {
    assert replies[..1][1..] == [];
  }

  lemma OneResponseIsDecided(s: bytes)
    requires OneResponse(s)
    ensures R.DecidedInWindow(s)
  {
    hide ReadResponse;
    assert |s| <= MAX_RESPONSE + 1 ==> R.Window(s) == s;
  }

  /** The last reply is what is left of the stream past the others. */
  lemma LastReply(replies: seq<bytes>)
    requires replies != []
    ensures var n := |Flatten(replies[..|replies| - 1])|;
            n <= |Flatten(replies)| && Flatten(replies)[n..] == replies[|replies| - 1]
  {
    hide Flatten;
    assert replies == replies[..|replies| - 1] + [replies[|replies| - 1]];
    FlattenSnoc(replies[..|replies| - 1], replies[|replies| - 1]);
  }

  /** A refresh that begins where a read ended has its whole reply to read. */
  lemma RefreshInStep(got: seq<bytes>, k: nat, replies: seq<bytes>, n: nat)
    requires NonEmptyChunks(got) && replies != [] && Flatten(got) == Flatten(replies)
    requires n == |Flatten(replies[..|replies| - 1])| && Reaches(0, got, k, n) && I.Parted(got, n)
    requires OneResponse(replies[|replies| - 1])
    ensures k <= |got| && RefreshOutcome(got[k..]) == Refreshed(replies[|replies| - 1])
  {
    hide OneResponse, Flatten, I.Parted, RefreshOutcome, Refreshed, NonEmptyChunks, R.DecidedInWindow;
    LastReply(replies);
    L.DroppedExactly(got, k, n);
    ReachesWithin(got, k, n);
    L.LaterChunks(got, k);
    OneResponseIsDecided(replies[|replies| - 1]);
    L.RefreshVerdict(got[k..]);
  }

  lemma ReachesWithin(got: seq<bytes>, k: nat, n: nat)
    requires Reaches(0, got, k, n)
    ensures k <= |got|
  {
  }

  lemma WritesFollow(said: seq<bytes>, replies: seq<bytes>)
    requires Keeps(said, replies) && |said| == |replies| && said != []
    ensures Follow(said[1..], replies) && Suits(said[0], replies[0])
  {
    hide Suits;
  }

  lemma OpeningIsAnswered(m: Mechanism, opts: Options, reply: bytes)
    requires OpenExchange(m, opts).Opening? && Suits(OpenExchange(m, opts).command, reply)
    ensures OneLine(reply)
  {
    hide OneLine, OneResponse, CallsForLine, OpenExchange;
    OpeningCallsForLine(m, opts);
  }

  /** Where the refresh of an opened exchange comes in step. */
  lemma WholePointInStep(m: Mechanism, opts: Options, replies: seq<bytes>, said: seq<bytes>, refresh: AuthResult)
    requires Keeps(said, replies) && |said| == |replies|
    requires WholeExchange(m, opts, Flatten(replies), refresh).writes == said
    ensures var point := C.WholePoint(m, opts, Flatten(replies));
            point.Some? ==>
              && said != [] && point.value == |Flatten(replies[..|replies| - 1])|
              && OneResponse(replies[|replies| - 1])
  {
    hide OpenExchange, Reference, RefreshPoint, Keeps, Suits, OneLine, OneResponse, Flatten, Follow;
    if OpenExchange(m, opts).Opening? {
      var command, pending := OpenExchange(m, opts).command, OpenExchange(m, opts).pending;
      assert said[0] == command && said[1..] == Reference(m, opts, [Begin], pending, Flatten(replies), refresh).writes;
      WritesFollow(said, replies);
      OpeningIsAnswered(m, opts, replies[0]);
      PointInStep(m, opts, [Begin], pending, replies, said[1..], refresh);
    }
  }

  /** An exchange in step, whatever its reads were, is the one on the replies:
      what it writes, what it tells the mechanism and how it ends. */
  lemma InStepIsExact(m: Mechanism, opts: Options, got: seq<bytes>, t: Transcript, replies: seq<bytes>)
    requires NonEmptyChunks(got) && Flatten(got) == Flatten(replies)
    requires Run(m, opts, FRESH_AUTH, None, got) == t && Understood(t.result)
    requires Keeps(t.writes, replies) && |t.writes| == |replies|
    requires replies != [] ==> I.Parted(got, |Flatten(replies[..|replies| - 1])|)
    ensures t == ExchangeOn(m, opts, replies)
  {
    hide Run, WholeExchange, C.WholePoint, Decided, Flatten, NonEmptyChunks, Keeps, Reaches, RefreshOutcome, Refreshed;
    hide I.Parted, OneResponse;
    var stream := Flatten(replies);
    var k := C.ExchangeUnderEveryCut(m, opts, got);
    var outcome := RefreshOutcome(got[k..]);
    WholePointInStep(m, opts, replies, t.writes, outcome);
    var point := C.WholePoint(m, opts, stream);
    if point.Some? {
      RefreshInStep(got, k, replies, point.value);
    }
    C.WholeShows(m, opts, stream, outcome, Refreshed(if replies == [] then [] else replies[|replies| - 1]));
  }
}
