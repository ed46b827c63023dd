/** AUTHENTICATE under every cut of the server's octets, and exactly when the
    cut makes no difference. */
module ExchangeCuts {
  import opened Bytes
  import opened Scanner
  import opened Response
  import opened Reader
  import opened Replies
  import opened Exchange
  import opened ExchangeRun
  import Command
  import Base64
  import ResponsePrefix
  import R = Reading

  // -------------------------------------------------------------------------
  // Runs follow the reference
  // -------------------------------------------------------------------------

  /** A line that outgrows the ceiling in the buffer never ends, or is decided
      past the ceiling only. */
  lemma OutgrownIsUndecided(b: bytes, rest: bytes)
    requires ReadLine(b) == Incomplete && |b| > MAX_RESPONSE
    ensures ReadLine(b + rest) == Incomplete || !LineDecided(b + rest)
  {
    hide ReadLine;
    var w := R.Window(b + rest);
    assert b == w + b[|w|..];
    if ReadLine(w) != Incomplete {
      ResponsePrefix.LineStable(w, b[|w|..]);
      assert false;
    }
  }

  /** A line still incomplete in the buffer ends past it. */
  lemma RefreshIsLater(m: Mechanism, opts: Options, a: Auth, b: bytes, rest: bytes)
    requires a.phase.Reading? && ReadLine(b) == Incomplete
    ensures var p := RefreshPoint(m, opts, a.heard, a.phase.pending, b + rest);
            p.Some? ==> |b| < p.value
  {
    hide ReadLine, OnLine;
    var s := b + rest;
    if ReadLine(s).Parsed? && ReadLine(s).consumed <= |b| {
      var n := ReadLine(s).consumed;
      assert b == s[..n] + b[n..];
      ResponsePrefix.LineLocal(s);
      ResponsePrefix.LineStable(s[..n], b[n..]);
    }
  }

  /** A run of the reading phase is the reference, its capability refresh
      reading the chunks past the first `k`, the fewest that hold the
      completion. */
  predicate Follows(m: Mechanism, opts: Options, a: Auth, b: bytes, run: Transcript, chunks: seq<bytes>, k: nat)
    requires a.phase.Reading?
  {
    var stream := b + Flatten(chunks);
    var point := RefreshPoint(m, opts, a.heard, a.phase.pending, stream);
    && k <= |chunks|
    && run == Reference(m, opts, a.heard, a.phase.pending, stream, RefreshOutcome(chunks[k..]))
    && (point.Some? ==> Reaches(|b|, chunks, k, point.value))
  }

  /** What was written and what the mechanism was told, cut short. */
  predicate Begins(t: Transcript, u: Transcript) {
    t.writes <= u.writes && t.heard <= u.heard
  }

  /** The run gave up a line for being too long which some other cut reads; up
      to there it went as the reference. */
  predicate GivesUp(m: Mechanism, opts: Options, a: Auth, stream: bytes, run: Transcript)
    requires a.phase.Reading?
  {
    && run.result == TOO_LARGE && !EveryLineDecided(m, opts, a.heard, a.phase.pending, stream)
    && Begins(run, Reference(m, opts, a.heard, a.phase.pending, stream, TOO_LARGE))
  }

  /** A mechanism is only ever told more. */
  lemma {:induction false} HeardGrows(m: Mechanism, opts: Options, heard: seq<SaslArg>, pending: Option<bytes>,
                                      stream: bytes, refresh: AuthResult)
    ensures heard <= Reference(m, opts, heard, pending, stream, refresh).heard
    decreases |stream|
  {
    hide ReadLine, OnLine;
    if ReadLine(stream).Parsed? {
      var line, n := ReadLine(stream).value, ReadLine(stream).consumed;
      LineTells(m, opts, heard, pending, line);
      var r := OnLine(m, opts, heard, pending, line);
      if r.Answer? {
        HeardGrows(m, opts, r.heard, None, stream[n..], refresh);
      }
    }
  }

  lemma LineTells(m: Mechanism, opts: Options, heard: seq<SaslArg>, pending: Option<bytes>, line: Line)
    ensures heard <= OnLine(m, opts, heard, pending, line).heard
  {
    hide Base64.Decode, ClientResponse;
  }

  lemma AfterBegins(octets: bytes, t: Transcript, u: Transcript)
    requires Begins(t, u)
    ensures Begins(After(octets, t), After(octets, u))
  {
  }

  lemma ReferenceEnds(m: Mechanism, opts: Options, a: Auth, stream: bytes, refresh: AuthResult)
    requires a.phase.Reading? && ReadLine(stream) == Incomplete
    ensures Reference(m, opts, a.heard, a.phase.pending, stream, refresh) ==
            Transcript([], a.heard, Unterminated(stream))
    ensures RefreshPoint(m, opts, a.heard, a.phase.pending, stream).None?
  {
    hide ReadLine, OnLine;
  }

  /** A buffer past the ceiling without a line in it ends the run. */
  lemma RunOutgrown(m: Mechanism, opts: Options, a: Auth, arg: Option<bytes>, chunks: seq<bytes>)
    requires a.phase.Reading? && arg != Some([])
    requires ReadLine(a.buf + OrEmpty(arg)) == Incomplete && |a.buf + OrEmpty(arg)| > MAX_RESPONSE
    ensures Run(m, opts, a, arg, chunks) == Transcript([], a.heard, TOO_LARGE)
  {
    hide ReadLine, OnLine;
  }

  lemma UndecidedFirst(m: Mechanism, opts: Options, a: Auth, stream: bytes)
    requires a.phase.Reading? && !LineDecided(stream)
    ensures !EveryLineDecided(m, opts, a.heard, a.phase.pending, stream)
  {
    hide ReadLine, OnLine, LineDecided;
  }

  lemma UndecidedNext(m: Mechanism, opts: Options, a: Auth, stream: bytes)
    requires a.phase.Reading? && ReadLine(stream).Parsed?
    requires OnLine(m, opts, a.heard, a.phase.pending, ReadLine(stream).value).Answer?
    requires var r := OnLine(m, opts, a.heard, a.phase.pending, ReadLine(stream).value);
             !EveryLineDecided(m, opts, r.heard, None, stream[ReadLine(stream).consumed..])
    ensures !EveryLineDecided(m, opts, a.heard, a.phase.pending, stream)
  {
    hide ReadLine, OnLine, LineDecided;
  }

  lemma Outgrown(m: Mechanism, opts: Options, a: Auth, arg: Option<bytes>, chunks: seq<bytes>)
    requires a.phase.Reading? && arg != Some([])
    requires ReadLine(a.buf + OrEmpty(arg)) == Incomplete && |a.buf + OrEmpty(arg)| > MAX_RESPONSE
    ensures var b, run := a.buf + OrEmpty(arg), Run(m, opts, a, arg, chunks);
            || Follows(m, opts, a, b, run, chunks, 0)
            || (chunks != [] && GivesUp(m, opts, a, b + Flatten(chunks), run))
  {
    hide ReadLine, OnLine, Run, Reference, RefreshPoint, LineDecided, EveryLineDecided, Reaches, RefreshOutcome;
    var b := a.buf + OrEmpty(arg);
    var stream := b + Flatten(chunks);
    RunOutgrown(m, opts, a, arg, chunks);
    assert chunks == [] ==> stream == b;
    if ReadLine(stream) == Incomplete {
      ReferenceEnds(m, opts, a, stream, RefreshOutcome(chunks[0..]));
    } else {
      OutgrownIsUndecided(b, Flatten(chunks));
      UndecidedFirst(m, opts, a, stream);
      HeardGrows(m, opts, a.heard, a.phase.pending, stream, TOO_LARGE);
    }
  }

  lemma BothRefuse(m: Mechanism, opts: Options, a: Auth, arg: Option<bytes>, chunks: seq<bytes>, refresh: AuthResult)
    requires a.phase.Reading? && arg != Some([])
    requires ReadLine(a.buf + OrEmpty(arg)).Failed?
    requires ReadLine(a.buf + OrEmpty(arg) + Flatten(chunks)) == ReadLine(a.buf + OrEmpty(arg))
    ensures var stream := a.buf + OrEmpty(arg) + Flatten(chunks);
            Run(m, opts, a, arg, chunks) == Reference(m, opts, a.heard, a.phase.pending, stream, refresh)
            && RefreshPoint(m, opts, a.heard, a.phase.pending, stream).None?
  {
    hide ReadLine, OnLine;
  }

  lemma BothAnswer(m: Mechanism, opts: Options, a: Auth, arg: Option<bytes>, chunks: seq<bytes>, refresh: AuthResult)
    requires a.phase.Reading? && arg != Some([])
    requires ReadLine(a.buf + OrEmpty(arg)).Parsed?
    requires ReadLine(a.buf + OrEmpty(arg) + Flatten(chunks)) == ReadLine(a.buf + OrEmpty(arg))
    requires OnLine(m, opts, a.heard, a.phase.pending, ReadLine(a.buf + OrEmpty(arg)).value).Answer?
    ensures var b := a.buf + OrEmpty(arg);
            var stream, n := b + Flatten(chunks), ReadLine(b).consumed;
            var r := OnLine(m, opts, a.heard, a.phase.pending, ReadLine(b).value);
            && Run(m, opts, a, arg, chunks) ==
               After(r.octets, Run(m, opts, Auth(Reading(None), r.heard, b[n..]), None, chunks))
            && Reference(m, opts, a.heard, a.phase.pending, stream, refresh) ==
               After(r.octets, Reference(m, opts, r.heard, None, stream[n..], refresh))
            && RefreshPoint(m, opts, a.heard, a.phase.pending, stream) ==
               match RefreshPoint(m, opts, r.heard, None, stream[n..])
               case None => None
               case Some(k) => Some(n + k)
  {
    hide ReadLine, OnLine, Run;
    RunReacts(m, opts, a, arg, chunks);
  }

  lemma RefreshBegins(m: Mechanism, opts: Options, heard: seq<SaslArg>, rest: bytes, chunks: seq<bytes>)
    ensures Run(m, opts, Auth(Refreshing(Sending(None, [])), heard, rest), None, chunks) ==
            Transcript([], heard, RefreshOutcome(chunks))
  {
    hide Run, R.Drive, RefreshResult;
    RefreshReads(m, opts, heard, rest, [], chunks);
  }

  lemma BothEnd(m: Mechanism, opts: Options, a: Auth, arg: Option<bytes>, chunks: seq<bytes>)
    requires a.phase.Reading? && arg != Some([])
    requires ReadLine(a.buf + OrEmpty(arg)).Parsed?
    requires ReadLine(a.buf + OrEmpty(arg) + Flatten(chunks)) == ReadLine(a.buf + OrEmpty(arg))
    requires !OnLine(m, opts, a.heard, a.phase.pending, ReadLine(a.buf + OrEmpty(arg)).value).Answer?
    ensures Follows(m, opts, a, a.buf + OrEmpty(arg), Run(m, opts, a, arg, chunks), chunks, 0)
  {
    hide ReadLine, OnLine, Run, Command.Command.Serialize, RefreshOutcome;
    var b := a.buf + OrEmpty(arg);
    var rest := b[ReadLine(b).consumed..];
    assert Flatten(chunks[..0]) == [] && chunks[0..] == chunks;
    RunReacts(m, opts, a, arg, chunks);
    match OnLine(m, opts, a.heard, a.phase.pending, ReadLine(b).value)
    case Cancel(cause, told) => AbortReportsCause(m, opts, Auth(Aborting(cause), told, rest), None, chunks);
    case Stop(_, _) =>
    case Refresh(told) => RefreshBegins(m, opts, told, rest, chunks);
  }

  /** A chunk taken into the buffer before the line at its front is whole. */
  lemma FollowsMore(m: Mechanism, opts: Options, a: Auth, b: bytes, run: Transcript, chunks: seq<bytes>, j: nat)
    requires a.phase.Reading? && chunks != [] && ReadLine(b) == Incomplete
    requires Follows(m, opts, a, b + chunks[0], run, chunks[1..], j)
    ensures Follows(m, opts, a, b, run, chunks, j + 1)
  {
    hide ReadLine, Reference, RefreshPoint, Reaches, RefreshOutcome;
    var rest := chunks[1..];
    assert b + Flatten(chunks) == b + chunks[0] + Flatten(rest);
    assert chunks[j + 1..] == rest[j..];
    RefreshIsLater(m, opts, a, b, Flatten(chunks));
    ReachesMore(b, chunks, j, RefreshPoint(m, opts, a.heard, a.phase.pending, b + Flatten(chunks)));
  }

  lemma FollowsAnswer(m: Mechanism, opts: Options, a: Auth, arg: Option<bytes>, chunks: seq<bytes>, k: nat)
    requires a.phase.Reading? && arg != Some([])
    requires ReadLine(a.buf + OrEmpty(arg)).Parsed?
    requires ReadLine(a.buf + OrEmpty(arg) + Flatten(chunks)) == ReadLine(a.buf + OrEmpty(arg))
    requires OnLine(m, opts, a.heard, a.phase.pending, ReadLine(a.buf + OrEmpty(arg)).value).Answer?
    requires var b := a.buf + OrEmpty(arg);
             var r := OnLine(m, opts, a.heard, a.phase.pending, ReadLine(b).value);
             var next := Auth(Reading(None), r.heard, b[ReadLine(b).consumed..]);
             Follows(m, opts, next, next.buf, Run(m, opts, next, None, chunks), chunks, k)
    ensures Follows(m, opts, a, a.buf + OrEmpty(arg), Run(m, opts, a, arg, chunks), chunks, k)
  {
    hide ReadLine, OnLine, Run, Reference, RefreshPoint, RefreshOutcome;
    var b := a.buf + OrEmpty(arg);
    var n := ReadLine(b).consumed;
    assert (b + Flatten(chunks))[n..] == b[n..] + Flatten(chunks);
    BothAnswer(m, opts, a, arg, chunks, RefreshOutcome(chunks[k..]));
  }

  /** The reading phase of a run follows the reference, or gives up a line some
      other cut reads. */
  lemma {:induction false} ReadingFollows(m: Mechanism, opts: Options, a: Auth, arg: Option<bytes>, chunks: seq<bytes>)
    returns (k: nat)
    requires a.phase.Reading? && arg != Some([]) && NonEmptyChunks(chunks)
    ensures var b, run := a.buf + OrEmpty(arg), Run(m, opts, a, arg, chunks);
            || Follows(m, opts, a, b, run, chunks, k)
            || (chunks != [] && GivesUp(m, opts, a, b + Flatten(chunks), run))
    decreases |a.buf| + |OrEmpty(arg)| + |Flatten(chunks)|, |chunks|
  {
    hide ReadLine, OnLine, Run, Reference, RefreshPoint, LineDecided, EveryLineDecided, Follows, Begins;
    var b := a.buf + OrEmpty(arg);
    var stream := b + Flatten(chunks);
    k := 0;
    match ReadLine(b)
    case Incomplete =>
      if |b| > MAX_RESPONSE {
        Outgrown(m, opts, a, arg, chunks);
      } else {
        RunWaits(m, opts, a, arg, chunks);
        if chunks == [] {
          assert stream == b;
          ReferenceEnds(m, opts, a, b, RefreshOutcome(chunks[0..]));
          FollowsFirst(m, opts, a, b, Run(m, opts, a, arg, chunks), chunks);
        } else {
          assert stream == b + chunks[0] + Flatten(chunks[1..]);
          var j := ReadingFollows(m, opts, a.(buf := b), Some(chunks[0]), chunks[1..]);
          k := j + 1;
          if Follows(m, opts, a.(buf := b), b + chunks[0], Run(m, opts, a, arg, chunks), chunks[1..], j) {
            SameReader(m, opts, a, b, b + chunks[0], Run(m, opts, a, arg, chunks), chunks[1..], j);
            FollowsMore(m, opts, a, b, Run(m, opts, a, arg, chunks), chunks, j);
          }
        }
      }
    case Failed(_) =>
      ResponsePrefix.LineStable(b, Flatten(chunks));
      BothRefuse(m, opts, a, arg, chunks, RefreshOutcome(chunks[0..]));
      FollowsFirst(m, opts, a, b, Run(m, opts, a, arg, chunks), chunks);
    case Parsed(line, n) =>
      ResponsePrefix.LineStable(b, Flatten(chunks));
      var r := OnLine(m, opts, a.heard, a.phase.pending, line);
      if r.Answer? {
        var next := Auth(Reading(None), r.heard, b[n..]);
        assert next.buf + OrEmpty(None) == b[n..];
        assert stream[n..] == b[n..] + Flatten(chunks);
        k := ReadingFollows(m, opts, next, None, chunks);
        if Follows(m, opts, next, next.buf, Run(m, opts, next, None, chunks), chunks, k) {
          FollowsAnswer(m, opts, a, arg, chunks, k);
        } else {
          BothAnswer(m, opts, a, arg, chunks, TOO_LARGE);
          UndecidedNext(m, opts, a, stream);
          AfterBegins(r.octets, Run(m, opts, next, None, chunks),
                      Reference(m, opts, r.heard, None, stream[n..], TOO_LARGE));
        }
      } else {
        BothEnd(m, opts, a, arg, chunks);
      }
  }

  /** Where the reference asks for no refresh, nothing need be said of one. */
  lemma FollowsFirst(m: Mechanism, opts: Options, a: Auth, b: bytes, run: Transcript, chunks: seq<bytes>)
    requires a.phase.Reading?
    requires RefreshPoint(m, opts, a.heard, a.phase.pending, b + Flatten(chunks)).None?
    requires run == Reference(m, opts, a.heard, a.phase.pending, b + Flatten(chunks), RefreshOutcome(chunks[0..]))
    ensures Follows(m, opts, a, b, run, chunks, 0)
  {
    hide Reference, RefreshPoint, RefreshOutcome;
  }

  /** What a reader holds is only part of the stream. */
  lemma SameReader(m: Mechanism, opts: Options, a: Auth, held: bytes, b: bytes, run: Transcript, chunks: seq<bytes>,
                   k: nat)
    requires a.phase.Reading? && Follows(m, opts, a.(buf := held), b, run, chunks, k)
    ensures Follows(m, opts, a, b, run, chunks, k)
  {
    hide Reference, RefreshPoint, RefreshOutcome, Reaches;
  }

  // -------------------------------------------------------------------------
  // Whole runs
  // -------------------------------------------------------------------------

  /** Where on a stream a whole exchange goes on to refresh, if it does. */
  function WholePoint(m: Mechanism, opts: Options, stream: bytes): Option<nat> {
    match OpenExchange(m, opts)
    case NoOpening(_) => None
    case Opening(_, pending) => RefreshPoint(m, opts, [Begin], pending, stream)
  }

  predicate WholeReaches(m: Mechanism, opts: Options, chunks: seq<bytes>, k: nat) {
    var point := WholePoint(m, opts, Flatten(chunks));
    k <= |chunks| && (point.Some? ==> Reaches(0, chunks, k, point.value))
  }

  /** Under every cut of the server's octets, what AUTHENTICATE writes, what it
      tells the mechanism and how it ends are those of the reference on the
      whole stream, lines arriving ahead of the write they answer included. A
      capability refresh reads from the first chunk boundary at or past the
      completion. The one other outcome is to give up a line for its length,
      and only a line decided past the ceiling, which some cut reads; what was
      written and told before it is then as on the whole stream. */
  lemma ExchangeUnderEveryCut(m: Mechanism, opts: Options, chunks: seq<bytes>) returns (k: nat)
    requires NonEmptyChunks(chunks)
    ensures k <= |chunks|
    ensures var stream, run := Flatten(chunks), Run(m, opts, FRESH_AUTH, None, chunks);
            || (run == WholeExchange(m, opts, stream, RefreshOutcome(chunks[k..])) && WholeReaches(m, opts, chunks, k))
            || (run.result == TOO_LARGE && !Decided(m, opts, stream)
                && Begins(run, WholeExchange(m, opts, stream, TOO_LARGE)))
  {
    hide OpenExchange, Run, Reference, EveryLineDecided, Flatten, NonEmptyChunks, RefreshPoint, Reaches, RefreshOutcome;
    RunStarts(m, opts, chunks);
    k := 0;
    if OpenExchange(m, opts).Opening? {
      var a := Auth(Reading(OpenExchange(m, opts).pending), [Begin], []);
      assert [] + [] + Flatten(chunks) == Flatten(chunks) && |[] + OrEmpty(None)| == 0;
      k := ReadingFollows(m, opts, a, None, chunks);
      if !Follows(m, opts, a, [], Run(m, opts, a, None, chunks), chunks, k) {
        k := 0;
        AfterBegins(OpenExchange(m, opts).command, Run(m, opts, a, None, chunks),
                    Reference(m, opts, [Begin], a.phase.pending, Flatten(chunks), TOO_LARGE));
      }
    }
  }

  /** A stream that arrives in one read. */
  function AtOnce(s: bytes): seq<bytes> {
    if s == [] then [] else [s]
  }

  lemma AtOnceIsCut(s: bytes)
    ensures R.Cut(AtOnce(s), s)
  {
    if s != [] {
      assert [s][1..] == [] && Flatten([]) == [] && s + [] == s;
    }
  }

  /** A stream that arrives in one read is read as the reference reads it. */
  lemma ReadAtOnce(m: Mechanism, opts: Options, s: bytes)
    ensures Run(m, opts, FRESH_AUTH, None, AtOnce(s)) == WholeExchange(m, opts, s, RefreshOutcome([]))
  {
    hide OpenExchange, Run, Reference, EveryLineDecided, RefreshPoint, Reaches, RefreshOutcome, ReadLine;
    var chunks := AtOnce(s);
    RunStarts(m, opts, chunks);
    if OpenExchange(m, opts).Opening? {
      var a := Auth(Reading(OpenExchange(m, opts).pending), [Begin], []);
      var none: seq<bytes> := [];
      assert Flatten(none) == [] && s + [] == s;
      if s == [] {
        var k := ReadingFollows(m, opts, a, None, none);
        assert none[k..] == none && a.buf + OrEmpty(None) == [];
      } else {
        NothingYet();
        assert a.buf + OrEmpty(None) == [] && a.(buf := []) == a;
        assert chunks[1..] == none;
        RunWaits(m, opts, a, None, chunks);
        var k := ReadingFollows(m, opts, a, Some(s), none);
        assert none[k..] == none && a.buf + OrEmpty(Some(s)) == s;
      }
    }
  }

  lemma NothingYet()
    ensures ReadLine([]) == Incomplete
  {
  }

  // -------------------------------------------------------------------------
  // The cut that gives up
  // -------------------------------------------------------------------------

  /** The octet past the window of the first line decided too late. */
  function LateAt(m: Mechanism, opts: Options, heard: seq<SaslArg>, pending: Option<bytes>, stream: bytes): (q: nat)
    requires !EveryLineDecided(m, opts, heard, pending, stream)
    ensures 0 < q < |stream|
    decreases |stream|
  {
    if !LineDecided(stream) then
      LateIsLong(stream);
      MAX_RESPONSE + 1
    else
      var n := ReadLine(stream).consumed;
      n + LateAt(m, opts, OnLine(m, opts, heard, pending, ReadLine(stream).value).heard, None, stream[n..])
  }

  lemma LateIsLong(stream: bytes)
    requires !LineDecided(stream)
    ensures MAX_RESPONSE + 1 < |stream|
  {
    hide ReadLine;
    assert |stream| <= MAX_RESPONSE + 1 ==> R.Window(stream) == stream;
  }

  /** A run resumed with the first octets of a stream and then the rest. */
  function InTwo(m: Mechanism, opts: Options, a: Auth, stream: bytes, q: nat): Transcript
    requires q <= |stream|
  {
    Run(m, opts, a.(buf := stream[..q]), None, [stream[q..]])
  }

  lemma GivesUpLate(m: Mechanism, opts: Options, a: Auth, stream: bytes)
    requires a.phase.Reading? && !LineDecided(stream)
    ensures MAX_RESPONSE + 1 < |stream|
    ensures InTwo(m, opts, a, stream, MAX_RESPONSE + 1) == Transcript([], a.heard, TOO_LARGE)
  {
    hide ReadLine, Run;
    LateIsLong(stream);
    var b := a.(buf := stream[..MAX_RESPONSE + 1]);
    assert b.buf + OrEmpty(None) == b.buf;
    RunOutgrown(m, opts, b, None, [stream[MAX_RESPONSE + 1..]]);
  }

  /** A line that is decided does not have the exchange give up. */
  lemma ReferenceGoesOn(m: Mechanism, opts: Options, a: Auth, stream: bytes, refresh: AuthResult)
    requires a.phase.Reading? && ReadLine(stream) != Incomplete && refresh != TOO_LARGE
    ensures Reference(m, opts, a.heard, a.phase.pending, stream, refresh) != Transcript([], a.heard, TOO_LARGE)
  {
    hide ReadLine, OnLine, Command.Command.Serialize;
    if ReadLine(stream).Parsed? {
      StopsElsewhere(m, opts, a, ReadLine(stream).value);
    }
  }

  lemma StopsElsewhere(m: Mechanism, opts: Options, a: Auth, line: Line)
    requires a.phase.Reading?
    ensures var r := OnLine(m, opts, a.heard, a.phase.pending, line); r.Stop? ==> r.result != TOO_LARGE
  {
    hide Base64.Decode, ClientResponse;
  }

  /** Cut past the window of the first line decided too late, the exchange
      gives up, where the reference goes on. */
  lemma {:induction false} CutLate(m: Mechanism, opts: Options, a: Auth, stream: bytes, refresh: AuthResult)
    requires a.phase.Reading? && !EveryLineDecided(m, opts, a.heard, a.phase.pending, stream) && refresh != TOO_LARGE
    ensures var q := LateAt(m, opts, a.heard, a.phase.pending, stream);
            InTwo(m, opts, a, stream, q) != Reference(m, opts, a.heard, a.phase.pending, stream, refresh)
    decreases |stream|
  {
    hide ReadLine, OnLine, Run, LineDecided;
    if !LineDecided(stream) {
      GivesUpLate(m, opts, a, stream);
      LateDecides(stream);
      ReferenceGoesOn(m, opts, a, stream, refresh);
    } else {
      var q := LateAt(m, opts, a.heard, a.phase.pending, stream);
      var line, n := ReadLine(stream).value, ReadLine(stream).consumed;
      var r := OnLine(m, opts, a.heard, a.phase.pending, line);
      var next := Auth(Reading(None), r.heard, []);
      CutLate(m, opts, next, stream[n..], refresh);
      TwoReact(m, opts, a, stream, q);
      AfterInjective(r.octets, InTwo(m, opts, next, stream[n..], q - n),
                     Reference(m, opts, r.heard, None, stream[n..], refresh));
    }
  }

  lemma AfterInjective(octets: bytes, t: Transcript, u: Transcript)
    ensures After(octets, t) == After(octets, u) ==> t == u
  {
    assert After(octets, t).writes[1..] == t.writes && After(octets, u).writes[1..] == u.writes;
  }

  lemma LateDecides(stream: bytes)
    requires !LineDecided(stream)
    ensures ReadLine(stream) != Incomplete
  {
    hide ReadLine;
  }

  /** A line within the first octets is reacted to before the rest is read. */
  lemma TwoReact(m: Mechanism, opts: Options, a: Auth, stream: bytes, q: nat)
    requires a.phase.Reading? && ReadLine(stream).Parsed? && ReadLine(stream).consumed <= q <= |stream|
    requires OnLine(m, opts, a.heard, a.phase.pending, ReadLine(stream).value).Answer?
    ensures var r := OnLine(m, opts, a.heard, a.phase.pending, ReadLine(stream).value);
            var n := ReadLine(stream).consumed;
            InTwo(m, opts, a, stream, q) ==
            After(r.octets, InTwo(m, opts, Auth(Reading(None), r.heard, []), stream[n..], q - n))
  {
    hide ReadLine, OnLine, Run;
    var n := ReadLine(stream).consumed;
    var b := a.(buf := stream[..q]);
    assert b.buf + OrEmpty(None) == b.buf;
    assert stream[..q] == stream[..n] + stream[n..q];
    ResponsePrefix.LineLocal(stream);
    ResponsePrefix.LineStable(stream[..n], stream[n..q]);
    assert stream[..q][n..] == stream[n..][..q - n] && stream[q..] == stream[n..][q - n..];
    RunReacts(m, opts, b, None, [stream[q..]]);
  }

  /** A first read is as good as a buffer. */
  lemma FirstRead(m: Mechanism, opts: Options, a: Auth, stream: bytes, q: nat)
    requires a.phase.Reading? && a.buf == [] && 0 < q <= |stream|
    ensures Run(m, opts, a, None, [stream[..q], stream[q..]]) == InTwo(m, opts, a, stream, q)
  {
    hide ReadLine, Run;
    NothingYet();
    var chunks := [stream[..q], stream[q..]];
    assert a.buf + OrEmpty(None) == [] && a.(buf := []) == a;
    assert chunks[1..] == [stream[q..]];
    RunWaits(m, opts, a, None, chunks);
    GivenIsHeld(m, opts, a, stream[..q], chunks[1..]);
  }

  lemma GivenIsHeld(m: Mechanism, opts: Options, a: Auth, chunk: bytes, rest: seq<bytes>)
    requires a.phase.Reading? && a.buf == [] && chunk != []
    ensures Run(m, opts, a, Some(chunk), rest) == Run(m, opts, a.(buf := chunk), None, rest)
  {
    hide ReadLine, OnLine, Perform;
    var held := a.(buf := chunk);
    assert a.buf + chunk == chunk && chunk + [] == chunk;
    assert AuthStep(m, opts, a, Some(chunk)) == AuthStep(m, opts, held, None);
  }

  // -------------------------------------------------------------------------
  // Exactly when the cut does not matter
  // -------------------------------------------------------------------------

  /** All cuts of a stream give one transcript. */
  ghost predicate CutsAgree(m: Mechanism, opts: Options, s: bytes) {
    forall a, b :: R.Cut(a, s) && R.Cut(b, s) ==> Run(m, opts, FRESH_AUTH, None, a) == Run(m, opts, FRESH_AUTH, None, b)
  }

  /** No read of what is left ever decides anything. */
  predicate NeverDecides(s: bytes) {
    |s| <= MAX_RESPONSE && forall j :: 0 <= j <= |s| ==> ReadResponse(s[j..]) == Incomplete
  }

  /** What a refresh reports when the stream ends before its reply. */
  const CUT_OFF: AuthResult := Failure(RefreshFailed(ReplyError.Send(Eof)))

  lemma NothingRefreshed(chunks: seq<bytes>)
    requires chunks == []
    ensures RefreshOutcome(chunks) == CUT_OFF
  {
    hide R.Drive;
    R.NothingMore([], chunks);
  }

  lemma OutcomeCutOff(chunks: seq<bytes>)
    requires NonEmptyChunks(chunks) && ReadResponse(Flatten(chunks)) == Incomplete && |Flatten(chunks)| <= MAX_RESPONSE
    ensures RefreshOutcome(chunks) == CUT_OFF
  {
    hide ReadResponse, R.Drive;
    R.ChunksDoNotMatter(chunks);
  }

  lemma OutcomeReached(t: bytes)
    requires t != [] && (ReadResponse(t) != Incomplete || |t| > MAX_RESPONSE)
    ensures RefreshOutcome([t]) != CUT_OFF
  {
    hide ReadResponse, ReadCapabilities;
    assert [] + t == t && [t][1..] == [];
  }

  lemma TwoChunks(s: bytes, q: nat)
    requires 0 < q < |s|
    ensures R.Cut([s[..q], s[q..]], s)
  {
    var chunks := [s[..q], s[q..]];
    assert chunks[1..] == [s[q..]] && [s[q..]][1..] == [];
    assert Flatten([s[q..]]) == s[q..] + [] == s[q..];
    assert s[..q] + s[q..] == s;
  }

  /** A stream with a line decided too late, cut in two. */
  lemma LateCuts(m: Mechanism, opts: Options, s: bytes) returns (q: nat)
    requires !Decided(m, opts, s)
    ensures 0 < q < |s|
    ensures Run(m, opts, FRESH_AUTH, None, [s[..q], s[q..]]) != Run(m, opts, FRESH_AUTH, None, AtOnce(s))
  {
    hide OpenExchange, Run, Reference, EveryLineDecided, InTwo;
    var a := Auth(Reading(OpenExchange(m, opts).pending), [Begin], []);
    q := LateAt(m, opts, [Begin], a.phase.pending, s);
    NothingRefreshed([]);
    ReadAtOnce(m, opts, s);
    CutLate(m, opts, a, s, RefreshOutcome([]));
    RunStarts(m, opts, [s[..q], s[q..]]);
    FirstRead(m, opts, a, s, q);
    AfterInjective(OpenExchange(m, opts).command, InTwo(m, opts, a, s, q),
                   Reference(m, opts, [Begin], a.phase.pending, s, RefreshOutcome([])));
  }

  /** The reference shows its refresh exactly when it comes to one. */
  lemma {:induction false} RefreshShows(m: Mechanism, opts: Options, heard: seq<SaslArg>, pending: Option<bytes>,
                                        stream: bytes,
                                        x: AuthResult, y: AuthResult)
    ensures Reference(m, opts, heard, pending, stream, x) == Reference(m, opts, heard, pending, stream, y)
            <==> x == y || RefreshPoint(m, opts, heard, pending, stream).None?
    decreases |stream|
  {
    hide ReadLine, OnLine;
    if ReadLine(stream).Parsed? {
      var r := OnLine(m, opts, heard, pending, ReadLine(stream).value);
      if r.Answer? {
        var rest := stream[ReadLine(stream).consumed..];
        RefreshShows(m, opts, r.heard, None, rest, x, y);
        AfterInjective(r.octets, Reference(m, opts, r.heard, None, rest, x),
                       Reference(m, opts, r.heard, None, rest, y));
      }
    }
  }

  /** How a refresh ends makes no difference to what comes before it. */
  lemma {:induction false} RefreshOnlyEnds(m: Mechanism, opts: Options, heard: seq<SaslArg>, pending: Option<bytes>,
                                           stream: bytes, x: AuthResult, y: AuthResult)
    ensures var t, u := Reference(m, opts, heard, pending, stream, x), Reference(m, opts, heard, pending, stream, y);
            t.writes == u.writes && t.heard == u.heard
    decreases |stream|
  {
    hide ReadLine, OnLine;
    if ReadLine(stream).Parsed? {
      var r := OnLine(m, opts, heard, pending, ReadLine(stream).value);
      if r.Answer? {
        RefreshOnlyEnds(m, opts, r.heard, None, stream[ReadLine(stream).consumed..], x, y);
      }
    }
  }

  lemma WholeOnlyEnds(m: Mechanism, opts: Options, s: bytes, x: AuthResult, y: AuthResult)
    ensures var t, u := WholeExchange(m, opts, s, x), WholeExchange(m, opts, s, y);
            t.writes == u.writes && t.heard == u.heard
  {
    hide OpenExchange, Reference;
    if OpenExchange(m, opts).Opening? {
      RefreshOnlyEnds(m, opts, [Begin], OpenExchange(m, opts).pending, s, x, y);
    }
  }

  /** In every run, under every cut and whatever the lengths of lines, what is
      written and what the mechanism is told are the beginning of what the
      reference writes and tells. */
  lemma EveryRunBegins(m: Mechanism, opts: Options, chunks: seq<bytes>, refresh: AuthResult)
    requires NonEmptyChunks(chunks)
    ensures Begins(Run(m, opts, FRESH_AUTH, None, chunks), WholeExchange(m, opts, Flatten(chunks), refresh))
  {
    hide Run, WholeExchange, Decided, WholeReaches, Flatten, NonEmptyChunks, RefreshOutcome;
    var k := ExchangeUnderEveryCut(m, opts, chunks);
    WholeOnlyEnds(m, opts, Flatten(chunks), refresh, RefreshOutcome(chunks[k..]));
    WholeOnlyEnds(m, opts, Flatten(chunks), refresh, TOO_LARGE);
  }

  lemma WholeShows(m: Mechanism, opts: Options, s: bytes, x: AuthResult, y: AuthResult)
    ensures WholeExchange(m, opts, s, x) == WholeExchange(m, opts, s, y) <==> x == y || WholePoint(m, opts, s).None?
  {
    hide OpenExchange, Reference, RefreshPoint;
    if OpenExchange(m, opts).Opening? {
      var pending := OpenExchange(m, opts).pending;
      RefreshShows(m, opts, [Begin], pending, s, x, y);
      AfterInjective(OpenExchange(m, opts).command, Reference(m, opts, [Begin], pending, s, x),
                     Reference(m, opts, [Begin], pending, s, y));
    }
  }

  /** A refresh comes right after a response, and only when asked for. */
  lemma {:induction false} RefreshAfterResponse(m: Mechanism, opts: Options, heard: seq<SaslArg>,
                                                pending: Option<bytes>, stream: bytes)
    requires RefreshPoint(m, opts, heard, pending, stream).Some?
    ensures opts.ensureCapabilities
    ensures ReadResponse(stream).Parsed? && ReadResponse(stream).consumed ==
            RefreshPoint(m, opts, heard, pending, stream).value
    decreases |stream|
  {
    hide ReadLine, OnLine;
    var line, n := ReadLine(stream).value, ReadLine(stream).consumed;
    var r := OnLine(m, opts, heard, pending, line);
    OnlyCompletionsRefresh(m, opts, heard, pending, line);
    if r.Answer? {
      RefreshAfterResponse(m, opts, r.heard, None, stream[n..]);
    }
  }

  lemma OnlyCompletionsRefresh(m: Mechanism, opts: Options, heard: seq<SaslArg>, pending: Option<bytes>, line: Line)
    ensures var r := OnLine(m, opts, heard, pending, line);
            (r.Refresh? ==> line.Final? && opts.ensureCapabilities) && (r.Answer? ==> line.Data?)
  {
    hide Base64.Decode, ClientResponse;
  }

  lemma PointInStream(m: Mechanism, opts: Options, s: bytes)
    requires WholePoint(m, opts, s).Some?
    ensures 0 < WholePoint(m, opts, s).value <= |s| && opts.ensureCapabilities
  {
    hide OpenExchange, RefreshPoint;
    RefreshAfterResponse(m, opts, [Begin], OpenExchange(m, opts).pending, s);
  }

  /** A stream with something to decide past the completion, cut before it. */
  lemma RefreshCut(m: Mechanism, opts: Options, s: bytes, q: nat)
    requires Decided(m, opts, s) && WholePoint(m, opts, s).Some?
    requires WholePoint(m, opts, s).value <= q < |s|
    requires ReadResponse(s[q..]) != Incomplete || |s[q..]| > MAX_RESPONSE
    ensures 0 < q && Run(m, opts, FRESH_AUTH, None, [s[..q], s[q..]]) != Run(m, opts, FRESH_AUTH, None, AtOnce(s))
  {
    hide Run, Decided, WholePoint, WholeExchange, ReadResponse, RefreshOutcome;
    PointInStream(m, opts, s);
    TwoChunks(s, q);
    var chunks := [s[..q], s[q..]];
    var k := ExchangeUnderEveryCut(m, opts, chunks);
    FirstOfTwo(s[..q], s[q..], k, WholePoint(m, opts, s).value);
    OutcomeReached(s[q..]);
    NothingRefreshed([]);
    ReadAtOnce(m, opts, s);
    WholeShows(m, opts, s, RefreshOutcome([s[q..]]), RefreshOutcome([]));
  }

  lemma FirstOfTwo(a: bytes, b: bytes, k: nat, n: nat)
    requires 0 < n <= |a| && Reaches(0, [a, b], k, n)
    ensures k == 1 && [a, b][k..] == [b]
  {
    var chunks := [a, b];
    assert chunks[..0] == [] && chunks[..1] == [a] && [a][1..] == [];
    assert Flatten([a]) == a + [] == a && Flatten(chunks[..0]) == [];
  }

  /** What is left of a stream after some of its chunks. */
  lemma ChunksLeft(chunks: seq<bytes>, k: nat, n: nat)
    requires Reaches(0, chunks, k, n) && n <= |Flatten(chunks)| && NeverDecides(Flatten(chunks)[n..])
    requires NonEmptyChunks(chunks)
    ensures RefreshOutcome(chunks[k..]) == CUT_OFF
  {
    hide ReadResponse, RefreshOutcome;
    var s, j := Flatten(chunks), |Flatten(chunks[..k])|;
    FlattenSplit(chunks, k);
    assert Flatten(chunks[k..]) == s[j..] == s[n..][j - n..];
    OutcomeCutOff(chunks[k..]);
  }

  lemma AgreesWithReference(m: Mechanism, opts: Options, chunks: seq<bytes>)
    requires NonEmptyChunks(chunks) && Decided(m, opts, Flatten(chunks))
    requires var point := WholePoint(m, opts, Flatten(chunks));
             point.Some? ==> point.value <= |Flatten(chunks)| && NeverDecides(Flatten(chunks)[point.value..])
    ensures Run(m, opts, FRESH_AUTH, None, chunks) == WholeExchange(m, opts, Flatten(chunks), CUT_OFF)
  {
    hide Run, Decided, WholePoint, WholeExchange, NeverDecides, RefreshOutcome, Flatten, NonEmptyChunks, Reaches;
    var k := ExchangeUnderEveryCut(m, opts, chunks);
    var point := WholePoint(m, opts, Flatten(chunks));
    if point.Some? {
      ChunksLeft(chunks, k, point.value);
    }
    WholeShows(m, opts, Flatten(chunks), RefreshOutcome(chunks[k..]), CUT_OFF);
  }

  /** All cuts of a stream agree on the transcript if and only if no line the
      exchange comes to is decided past the ceiling only and, when it goes on to
      refresh the capabilities, the stream holds nothing past the completion a
      refresh could decide on. Two cuts that differ are given otherwise. */
  lemma ExactlyWhenCutsDoNotMatter(m: Mechanism, opts: Options, s: bytes)
    ensures CutsAgree(m, opts, s) <==>
            && Decided(m, opts, s)
            && (WholePoint(m, opts, s).Some? ==>
                  WholePoint(m, opts, s).value <= |s| && NeverDecides(s[WholePoint(m, opts, s).value..]))
  {
    hide Run, Decided, WholePoint, WholeExchange, ReadResponse, NonEmptyChunks, Flatten;
    AtOnceIsCut(s);
    var point := WholePoint(m, opts, s);
    if !Decided(m, opts, s) {
      var q := LateCuts(m, opts, s);
      TwoChunks(s, q);
    } else if point.Some? && !(point.value <= |s| && NeverDecides(s[point.value..])) {
      PointInStream(m, opts, s);
      var q := SomethingDecides(s, point.value);
      RefreshCut(m, opts, s, q);
      TwoChunks(s, q);
    } else {
      forall a, b | R.Cut(a, s) && R.Cut(b, s)
        ensures Run(m, opts, FRESH_AUTH, None, a) == Run(m, opts, FRESH_AUTH, None, b)
      {
        AgreesWithReference(m, opts, a);
        AgreesWithReference(m, opts, b);
      }
    }
  }

  lemma SomethingDecides(s: bytes, n: nat) returns (q: nat)
    requires n <= |s| && !NeverDecides(s[n..])
    ensures n <= q < |s| && (ReadResponse(s[q..]) != Incomplete || |s[q..]| > MAX_RESPONSE)
  {
    hide ReadResponse;
    R.NothingRead();
    q := n;
    if |s[n..]| <= MAX_RESPONSE {
      var j :| 0 <= j <= |s[n..]| && ReadResponse(s[n..][j..]) != Incomplete;
      q := n + j;
      assert s[n..][j..] == s[q..];
    }
  }

  /** Without a refresh, only the ceiling makes the cut matter. */
  lemma CutsDoNotMatterWithoutRefresh(m: Mechanism, opts: Options, s: bytes)
    requires !opts.ensureCapabilities
    ensures CutsAgree(m, opts, s) <==> Decided(m, opts, s)
  {
    hide CutsAgree, Decided, WholePoint, NeverDecides;
    ExactlyWhenCutsDoNotMatter(m, opts, s);
    if WholePoint(m, opts, s).Some? {
      PointInStream(m, opts, s);
      assert false;
    }
  }
}
