/** Inputs on which the cut of a stream does make a difference. */
module Witnesses {
  import opened Bytes
  import opened Scanner
  import opened Response
  import opened Reader
  import opened Replies
  import opened Printer
  import opened PrintedReply
  import opened Exchange
  import opened ExchangeRun
  import opened Draining
  import opened InStep
  import opened SignIn
  import Command
  import RoundTrip
  import ResponsePrefix
  import C = ExchangeCuts
  import E = Endings
  import I = Injection
  import L = RefreshLoss
  import R = Reading

  // -------------------------------------------------------------------------
  // Past the ceiling
  // -------------------------------------------------------------------------

  function Zeros(n: nat): (s: bytes)
    ensures |s| == n
  {
    seq(n, i => 0)
  }

  /** One data line of two strings, each printed as a literal. */
  function TwoLiterals(a: bytes, b: bytes): seq<Piece> {
    [Piece(0, LiteralText(a, false)), Piece(0, LiteralText(b, false))]
  }

  function LongLine(a: bytes, b: bytes): bytes {
    Render(TwoLiterals(a, b)) + CRLF
  }

  lemma LongLineReads(a: bytes, b: bytes, tail: bytes)
    requires |a| <= MAX_LITERAL && |b| <= MAX_LITERAL
    ensures ReadLine(LongLine(a, b) + tail) == Parsed(Data(DataLine([Text(a), Text(b)])), |LongLine(a, b)|)
    ensures |LongLine(a, b)| >= |a| + |b|
  {
    hide Scan, Render, Tokens, ReadData;
    var pieces := TwoLiterals(a, b);
    Command.RenderTwo(pieces[0], pieces[1]);
    RoundTrip.ScanUndoesPrinting(pieces, tail);
    TwoTexts(a, b);
  }

  lemma TwoTexts(a: bytes, b: bytes)
    ensures ReadData([String(a), String(b)]) == Success([Text(a), Text(b)])
  {
    var tokens := [String(a), String(b)];
    var last := tokens[1..];
    assert last[1..] == [];
    assert ReadData(last) == Success([Text(b)] + []) && [Text(b)] + [] == [Text(b)];
    assert [Text(a)] + [Text(b)] == [Text(a), Text(b)];
  }

  /** The line is decided past its window only. */
  lemma LongLineIsLate(a: bytes, b: bytes, tail: bytes)
    requires |a| <= MAX_LITERAL && |b| <= MAX_LITERAL && |a| + |b| > MAX_RESPONSE + 1
    ensures !LineDecided(LongLine(a, b) + tail)
  {
    hide ReadLine, LongLine;
    LongLineReads(a, b, tail);
    ResponsePrefix.LinePrefix(LongLine(a, b) + tail, MAX_RESPONSE + 1);
  }

  /** A response whose verdict depends on the cut: the line, and then OK. */
  lemma LateResponse(a: bytes, b: bytes, ok: bytes)
    requires |a| <= MAX_LITERAL && |b| <= MAX_LITERAL && |a| + |b| > MAX_RESPONSE + 1 && L.BareOk(ok)
    ensures ReadResponse(LongLine(a, b) + ok).Parsed? && !R.DecidedInWindow(LongLine(a, b) + ok)
  {
    hide ReadLine, LongLine;
    var s := LongLine(a, b) + ok;
    LongLineReads(a, b, ok);
    assert s[|LongLine(a, b)|..] == ok;
    ResponsePrefix.ResponsePrefix(s, MAX_RESPONSE + 1);
  }

  /** There is a stream two cuts of which are read differently. */
  lemma SomeVerdictDependsOnTheCut() returns (s: bytes, a: seq<bytes>, b: seq<bytes>)
    ensures R.Cut(a, s) && R.Cut(b, s) && R.Verdict(R.Drive([], a).result) != R.Verdict(R.Drive([], b).result)
  {
    hide LongLine, L.BareOk, R.DecidedInWindow, R.Drive, R.Cut, Zeros;
    var ok := SomeOk();
    var literal := Zeros(MAX_LITERAL);
    LateResponse(literal, literal, ok);
    s := LongLine(literal, literal) + ok;
    a, b := R.LateVerdict(s);
  }

  lemma SomeOk() returns (ok: bytes)
    ensures L.BareOk(ok) && 0 < |ok| <= MAX_RESPONSE
  {
    ok := OK_LINE;
    L.OkLineIsBare(ok);
  }

  // -------------------------------------------------------------------------
  // In the exchange
  // -------------------------------------------------------------------------

  /** A mechanism that has nothing to say. */
  const SILENT := Mechanism(Command.Anonymous, (heard: seq<SaslArg>) => Wait)

  lemma SilentOpens(m: Mechanism, opts: Options)
    requires m == SILENT
    ensures OpenExchange(m, opts) == Opening(Command.Command.Authenticate(m.name, None).Serialize(), None)
    ensures L.Yielding(m, opts)
  {
    hide Command.Command.Serialize;
  }

  /** There is a mechanism and a stream two cuts of which give different
      transcripts, though no refresh is asked for. */
  lemma SomeExchangeDependsOnTheCut() returns (m: Mechanism, opts: Options, s: bytes)
    ensures !opts.ensureCapabilities && !C.CutsAgree(m, opts, s)
  {
    hide LongLine, C.CutsAgree, OpenExchange, LineDecided, Zeros, ReadLine, OnLine;
    m, opts := SILENT, Options(true, false);
    var literal := Zeros(MAX_LITERAL);
    s := LongLine(literal, literal);
    assert s + [] == s;
    LongLineIsLate(literal, literal, []);
    SilentOpens(m, opts);
    C.CutsDoNotMatterWithoutRefresh(m, opts, s);
  }

  lemma SomeYielding() returns (m: Mechanism, opts: Options)
    ensures L.Yielding(m, opts) && opts.ensureCapabilities
  {
    hide L.Yielding;
    m, opts := SILENT, Options(true, true);
    SilentOpens(m, opts);
  }

  /** There is a mechanism and a stream whose refresh succeeds under one cut and
      is lost under another. */
  lemma SomeRefreshIsLost() returns (m: Mechanism, opts: Options, parted: seq<bytes>, joined: seq<bytes>)
    ensures Flatten(parted) == Flatten(joined) && NonEmptyChunks(parted) && NonEmptyChunks(joined)
    ensures Run(m, opts, FRESH_AUTH, None, parted).result == Success(NO_CAPABILITIES)
    ensures Run(m, opts, FRESH_AUTH, None, joined).result == Failure(RefreshFailed(ReplyError.Send(Eof)))
  {
    hide Run, Flatten, L.BareOk, L.Yielding, FRESH_AUTH;
    m, opts := SomeYielding();
    var ok := SomeOk();
    parted, joined := [ok, ok], [ok + ok];
    L.BufferedReplyIsLost(m, opts, ok, parted, joined);
  }

  // -------------------------------------------------------------------------
  // After a greeting
  // -------------------------------------------------------------------------

  /** There is a stream whose greeting passes the guard under one cut and is
      refused under another. */
  lemma SomeGreetingDependsOnTheCut() returns (parted: seq<bytes>, joined: seq<bytes>)
    ensures Flatten(parted) == Flatten(joined) && NonEmptyChunks(parted) && NonEmptyChunks(joined)
    ensures Greeting(R.Drive([], parted).result) != Failure(ReplyError.Injection)
    ensures Greeting(R.Drive([], joined).result) == Failure(ReplyError.Injection)
  {
    hide L.BareOk, R.Drive, Greeting, ReadResponse;
    var ok := SomeOk();
    parted, joined := [ok, [SPACE]], [ok + [SPACE]];
    TrailedByOne(ok);
    FlattenTwo(ok, [SPACE]);
    FlattenOne(ok);
    FlattenOne(ok + [SPACE]);
    assert parted[..1] == [ok];
    assert joined[..0] == [] && joined[..1] == joined;
    I.InjectionExactly(parted, |ok|);
    I.InjectionExactly(joined, |ok|);
  }

  lemma FlattenOne(a: bytes)
    ensures Flatten([a]) == a
  {
    FlattenSnoc([], a);
    assert [] + [a] == [a];
  }

  lemma FlattenTwo(a: bytes, b: bytes)
    ensures Flatten([a, b]) == a + b
  {
    FlattenOne(a);
    FlattenSnoc([a], b);
    assert [a] + [b] == [a, b];
  }

  lemma TrailedByOne(ok: bytes)
    requires L.BareOk(ok)
    ensures ReadResponse(ok + [SPACE]) == Parsed(Response([], PLAIN_OK), |ok|)
  {
    hide ReadLine;
    ResponsePrefix.LineStable(ok, [SPACE]);
  }

  // -------------------------------------------------------------------------
  // In step
  // -------------------------------------------------------------------------

  lemma OkSuits(octets: bytes)
    ensures OneLine(OK_LINE) && OneResponse(OK_LINE) && Suits(octets, OK_LINE)
  {
    hide ReadLine, ReadResponse, CallsForLine;
    OkReads([]);
    assert OK_LINE + [] == OK_LINE;
  }

  /** There is a sign-in in step that succeeds, its refresh included. */
  lemma SomeSignInIsInStep() returns (m: Mechanism, opts: Options, replies: seq<bytes>, t: Transcript)
    ensures Keeps(t.writes, replies) && |t.writes| == |replies| == 2
    ensures SignsIn(m, opts, replies, t) && t.result.Success?
  {
    hide SignsIn, ExchangeOn, Flatten, Suits, E.CompletionEnds, E.Engaged, E.ToldBy, E.Told, ReadResponse, OpenExchange;
    hide WholeExchange, Refreshed, OK_LINE;
    m, opts := SILENT, Options(true, true);
    replies := [OK_LINE, OK_LINE];
    OkReads(OK_LINE);
    OnTwo(m, opts, OK_LINE, OK_LINE);
    t := ExchangeOn(m, opts, replies);
    ExchangeSignsIn(m, opts, replies, t);
    OkRefreshes();
    SilentGoesThrough(m, opts, OK_LINE + OK_LINE, t);
    OkSuits(t.writes[0]);
    OkSuits(t.writes[1]);
  }

  lemma OnTwo(m: Mechanism, opts: Options, a: bytes, b: bytes)
    ensures ExchangeOn(m, opts, [a, b]) == WholeExchange(m, opts, a + b, Refreshed(b))
  {
    hide WholeExchange, Refreshed, Flatten;
    FlattenTwo(a, b);
  }

  lemma OkRefreshes()
    ensures Refreshed(OK_LINE) == Success(NO_CAPABILITIES)
  {
    hide ReadResponse;
    OkReads([]);
    assert OK_LINE + [] == OK_LINE && R.Window(OK_LINE) == OK_LINE;
  }

  /** A bare OK ends the exchange of a mechanism that has nothing to say. */
  lemma SilentGoesThrough(m: Mechanism, opts: Options, stream: bytes, t: Transcript)
    requires m == SILENT && opts == Options(true, true) && ReadResponse(stream) == Parsed(Response([], PLAIN_OK), 4)
    requires t == WholeExchange(m, opts, stream, Success(NO_CAPABILITIES))
    ensures |t.writes| == 2 && t.result.Success?
  {
    hide ReadResponse, WholeExchange, Command.Command.Serialize;
    E.NothingAnswered(m, [Begin], None, t);
    var last := E.CompletionHasItsWay(m, opts, stream, Success(NO_CAPABILITIES));
  }
}
