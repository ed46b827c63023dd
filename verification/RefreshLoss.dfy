/** Where AUTHENTICATE does depend on how the network cuts the stream: when it
    goes on to refresh the capabilities, it drops what it had buffered. */
module RefreshLoss {
  import opened Bytes
  import opened Scanner
  import opened Response
  import opened Reader
  import opened Replies
  import opened Exchange
  import opened ExchangeRun
  import Command
  import C = ExchangeCuts
  import I = Injection
  import R = Reading
  import ResponsePrefix
  import opened PrintedReply

  /** A mechanism that lets the server end the exchange at once. */
  predicate Yielding(m: Mechanism, opts: Options) {
    && OpenExchange(m, opts).Opening? && OpenExchange(m, opts).pending.None?
    && !m.react([Begin, Done]).Refuse?
  }

  lemma Closes(m: Mechanism, opts: Options)
    requires Yielding(m, opts) && opts.ensureCapabilities
    ensures OnLine(m, opts, [Begin], None, Final(PLAIN_OK)) == Refresh([Begin, Done])
  {
    assert [Begin] + [Done] == [Begin, Done];
  }

  /** A line that is nothing but an OK, such as `PrintedReply.OK_LINE`. */
  predicate BareOk(ok: bytes) {
    ReadLine(ok) == Parsed(Final(PLAIN_OK), |ok|)
  }

  lemma OkLineIsBare(ok: bytes)
    requires ok == OK_LINE
    ensures BareOk(ok)
  {
    hide ReadLine;
    OkReads([]);
    assert ok + [] == ok;
  }

  /** The run up to the refresh, the completion heading the first chunk. */
  lemma UpToRefresh(m: Mechanism, opts: Options, ok: bytes, tail: bytes, chunks: seq<bytes>)
    requires Yielding(m, opts) && opts.ensureCapabilities && BareOk(ok)
    ensures Run(m, opts, FRESH_AUTH, None, [ok + tail] + chunks).result == RefreshOutcome(chunks)
  {
    hide OpenExchange, OnLine, Run, ReadLine, ReadResponse, R.Drive, RefreshResult, Command.Command.Serialize;
    var first := [ok + tail] + chunks;
    var a := Auth(Reading(None), [Begin], []);
    RunStarts(m, opts, first);
    ResponsePrefix.LineStable(ok, tail);
    C.NothingYet();
    assert a.buf + OrEmpty(None) == [] && first[1..] == chunks;
    RunWaits(m, opts, a, None, first);
    var arg := Some(ok + tail);
    assert a.(buf := []) == a && a.buf + OrEmpty(arg) == ok + tail;
    Closes(m, opts);
    RunReacts(m, opts, a, arg, chunks);
    RefreshReads(m, opts, [Begin, Done], (ok + tail)[|ok|..], [], chunks);
  }

  /** The same octets, an OK and then the reply to the refresh, succeed when
      the reads part between the two and fail when one read brings both. */
  lemma BufferedReplyIsLost(m: Mechanism, opts: Options, ok: bytes, parted: seq<bytes>, joined: seq<bytes>)
    requires Yielding(m, opts) && opts.ensureCapabilities && BareOk(ok)
    requires parted == [ok, ok] && joined == [ok + ok]
    ensures Flatten(joined) == Flatten(parted)
    ensures Run(m, opts, FRESH_AUTH, None, parted).result == Success(NO_CAPABILITIES)
    ensures Run(m, opts, FRESH_AUTH, None, joined).result == Failure(RefreshFailed(ReplyError.Send(Eof)))
  {
    hide Run, Yielding, Flatten, BareOk, FRESH_AUTH;
    TwoWays(ok);
    ReplyParted(m, opts, ok, parted);
    ReplyJoined(m, opts, ok, joined);
  }

  lemma ReplyParted(m: Mechanism, opts: Options, ok: bytes, parted: seq<bytes>)
    requires Yielding(m, opts) && opts.ensureCapabilities && BareOk(ok) && parted == [ok, ok]
    ensures Run(m, opts, FRESH_AUTH, None, parted).result == Success(NO_CAPABILITIES)
  {
    hide Run, Yielding, RefreshOutcome, BareOk, FRESH_AUTH;
    var none, last := ok[|ok|..], parted[1..];
    UpToRefresh(m, opts, ok, none, last);
    assert ok + none == ok;
    assert [ok] + last == parted;
    RefreshAnswered(ok, last);
  }

  lemma ReplyJoined(m: Mechanism, opts: Options, ok: bytes, joined: seq<bytes>)
    requires Yielding(m, opts) && opts.ensureCapabilities && BareOk(ok) && joined == [ok + ok]
    ensures Run(m, opts, FRESH_AUTH, None, joined).result == Failure(RefreshFailed(ReplyError.Send(Eof)))
  {
    hide Run, Yielding, RefreshOutcome, BareOk, FRESH_AUTH;
    var rest := joined[1..];
    UpToRefresh(m, opts, ok, ok, rest);
    assert [ok + ok] + rest == joined;
    C.NothingRefreshed(rest);
  }

  lemma RefreshAnswered(ok: bytes, chunks: seq<bytes>)
    requires BareOk(ok) && chunks == [ok]
    ensures RefreshOutcome(chunks) == Success(NO_CAPABILITIES)
  {
    hide ReadLine;
    assert [] + ok == ok;
    assert ReadResponse(ok) == Parsed(Response([], PLAIN_OK), |ok|);
    assert ReadCapabilities([]) == [];
  }

  lemma TwoWays(s: bytes)
    ensures Flatten([s + s]) == s + s == Flatten([s, s])
  {
    assert [s, s][1..] == [s] && [s][1..] == [] && [s + s][1..] == [];
    assert Flatten([]) == [] && Flatten([s]) == s + [] == s;
    assert Flatten([s + s]) == s + s + [];
  }

  /** What the refresh reads is what follows the completion if and only if some
      read ended where the completion does: otherwise octets are dropped. */
  lemma DroppedExactly(chunks: seq<bytes>, k: nat, n: nat)
    requires NonEmptyChunks(chunks) && n <= |Flatten(chunks)| && Reaches(0, chunks, k, n)
    ensures Flatten(chunks[k..]) == Flatten(chunks)[n..] <==> I.Parted(chunks, n)
  {
    hide Flatten;
    FlattenSplit(chunks, k);
    if Flatten(chunks[k..]) == Flatten(chunks)[n..] {
      assert |Flatten(chunks[..k])| == n;
    }
    if I.Parted(chunks, n) {
      var j :| 0 <= j <= |chunks| && |Flatten(chunks[..j])| == n;
      I.FirstToReach(chunks, k, j, n);
    }
  }

  /** An exchange that comes to its refresh after `n` octets is the reference,
      the refresh reading what follows the completion if and only if some read
      ended where it does. */
  lemma RefreshReadsExactly(m: Mechanism, opts: Options, chunks: seq<bytes>, n: nat) returns (k: nat)
    requires NonEmptyChunks(chunks) && Decided(m, opts, Flatten(chunks))
    requires C.WholePoint(m, opts, Flatten(chunks)) == Some(n)
    ensures k <= |chunks| && n <= |Flatten(chunks)|
    ensures Run(m, opts, FRESH_AUTH, None, chunks) == WholeExchange(m, opts, Flatten(chunks),
            RefreshOutcome(chunks[k..]))
    ensures Flatten(chunks[k..]) == Flatten(chunks)[n..] <==> I.Parted(chunks, n)
    ensures I.Parted(chunks, n) && R.DecidedInWindow(Flatten(chunks)[n..]) ==>
              Run(m, opts, FRESH_AUTH, None, chunks) ==
              WholeExchange(m, opts, Flatten(chunks), Refreshed(Flatten(chunks)[n..]))
  {
    hide Run, Decided, C.WholePoint, WholeExchange, RefreshOutcome, Flatten, NonEmptyChunks, Reaches, I.Parted;
    hide Refreshed;
    hide R.DecidedInWindow;
    C.PointInStream(m, opts, Flatten(chunks));
    k := C.ExchangeUnderEveryCut(m, opts, chunks);
    DroppedExactly(chunks, k, n);
    LaterChunks(chunks, k);
    if R.DecidedInWindow(Flatten(chunks[k..])) {
      RefreshVerdict(chunks[k..]);
    }
  }

  lemma LaterChunks(chunks: seq<bytes>, k: nat)
    requires NonEmptyChunks(chunks) && k <= |chunks|
    ensures NonEmptyChunks(chunks[k..])
  {
  }

  lemma RefreshVerdict(chunks: seq<bytes>)
    requires NonEmptyChunks(chunks) && R.DecidedInWindow(Flatten(chunks))
    ensures RefreshOutcome(chunks) == Refreshed(Flatten(chunks))
  {
    hide R.Drive, R.DecidedInWindow, R.Whole, RefreshResult, NonEmptyChunks, Flatten, R.Verdict;
    R.ChunksDoNotMatter(chunks);
    RefreshIgnoresTrailing(R.Drive([], chunks).result);
  }

  lemma RefreshIgnoresTrailing(r: ReadResult)
    ensures RefreshResult(r) == RefreshResult(Untrailed(R.Verdict(r)))
  {
    hide ReadCapabilities;
  }
}
