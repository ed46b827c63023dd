/** Reading a response off a stream, whatever chunks the network cuts it into. */
module Reading {
  import opened Bytes
  import opened Scanner
  import opened Response
  import opened Reader
  import ResponsePrefix

  /** How a read ended, and the chunks it never asked for. */
  datatype Outcome = Outcome(result: ReadResult, unread: seq<bytes>)

  /** Delivers chunks on demand to a reader holding `buf`; past the last one
      the stream has ended. */
  function Drive(buf: bytes, chunks: seq<bytes>): (o: Outcome)
    ensures |o.unread| <= |chunks| && o.unread == chunks[|chunks| - |o.unread|..]
    decreases |chunks|
  {
    match Feed(buf, if chunks == [] then [] else chunks[0])
    case (_, Complete(result)) => Outcome(result, if chunks == [] then [] else chunks[1..])
    case (next, _) => if chunks == [] then Outcome(Failure(Eof), []) else Drive(next, chunks[1..])
  }

  /** A result without its trailing octets. */
  function Verdict(r: ReadResult): Result<Response, SendError> {
    match r
    case Failure(e) => Failure(e)
    case Success(ok) => Success(ok.response)
  }

  function Window(s: bytes): bytes {
    if |s| > MAX_RESPONSE then s[..MAX_RESPONSE + 1] else s
  }

  /** The verdict on a whole stream, from the octets within the ceiling. */
  function Whole(s: bytes): Result<Response, SendError> {
    match ReadResponse(Window(s))
    case Parsed(r, _) => Success(r)
    case Failed(e) => Failure(Malformed(e))
    case Incomplete => if |s| > MAX_RESPONSE then Failure(ResponseTooLarge) else Failure(Eof)
  }

  /** Nothing is decided past the ceiling that was not decided within it. */
  predicate DecidedInWindow(s: bytes) {
    ReadResponse(Window(s)) == Incomplete ==> ReadResponse(s) == Incomplete
  }

  predicate Cut(chunks: seq<bytes>, s: bytes) {
    NonEmptyChunks(chunks) && Flatten(chunks) == s
  }

  lemma NothingRead()
    ensures ReadResponse([]) == Incomplete
  {
  }

  lemma WindowStable(s: bytes)
    requires ReadResponse(Window(s)) != Incomplete
    ensures ReadResponse(s) == ReadResponse(Window(s))
  {
    hide ReadResponse;
    assert s == Window(s) + s[|Window(s)|..];
    ResponsePrefix.ResponseStable(Window(s), s[|Window(s)|..]);
  }

  /** What the first chunk decides, seen from the whole stream. */
  lemma FirstChunk(buf: bytes, chunk: bytes, rest: bytes)
    requires chunk != [] && |buf| <= MAX_RESPONSE && DecidedInWindow(buf + chunk + rest)
    ensures match Feed(buf, chunk)
            case (_, Complete(result)) => Verdict(result) == Whole(buf + chunk + rest)
            case (next, _) => next == buf + chunk && |next| <= MAX_RESPONSE && ReadResponse(next) == Incomplete
  {
    hide ReadResponse;
    var b, s := buf + chunk, buf + chunk + rest;
    if ReadResponse(b) != Incomplete {
      ResponsePrefix.ResponseStable(b, rest);
      WindowStable(s);
    } else if |b| > MAX_RESPONSE {
      var w := Window(s);
      assert b == w + b[|w|..];
      if ReadResponse(w) != Incomplete {
        ResponsePrefix.ResponseStable(w, b[|w|..]);
        assert false;
      }
    }
  }

  lemma {:induction false} DriveVerdict(buf: bytes, chunks: seq<bytes>)
    requires NonEmptyChunks(chunks) && |buf| <= MAX_RESPONSE && ReadResponse(buf) == Incomplete
    requires DecidedInWindow(buf + Flatten(chunks))
    ensures Verdict(Drive(buf, chunks).result) == Whole(buf + Flatten(chunks))
    decreases |chunks|
  {
    hide ReadResponse, Whole, DecidedInWindow;
    if chunks == [] {
      assert buf + Flatten(chunks) == buf;
      EndOfStream(buf);
    } else {
      assert buf + Flatten(chunks) == buf + chunks[0] + Flatten(chunks[1..]);
      FirstChunk(buf, chunks[0], Flatten(chunks[1..]));
      if !Feed(buf, chunks[0]).1.Complete? {
        DriveVerdict(buf + chunks[0], chunks[1..]);
      }
    }
  }

  lemma EndOfStream(buf: bytes)
    requires |buf| <= MAX_RESPONSE && ReadResponse(buf) == Incomplete
    ensures Whole(buf) == Failure(Eof)
  {
    hide ReadResponse;
  }

  /** With no chunk left, the stream has ended. */
  lemma NothingMore(buf: bytes, chunks: seq<bytes>)
    requires chunks == []
    ensures Drive(buf, chunks) == Outcome(Failure(Eof), [])
  {
    hide ReadResponse;
  }

  /** However a stream is cut, the reader gives the verdict on the whole. */
  lemma ChunksDoNotMatter(chunks: seq<bytes>)
    requires NonEmptyChunks(chunks) && DecidedInWindow(Flatten(chunks))
    ensures Verdict(Drive([], chunks).result) == Whole(Flatten(chunks))
  {
    hide ReadResponse, Whole, Drive, DecidedInWindow;
    NothingRead();
    assert [] + Flatten(chunks) == Flatten(chunks);
    DriveVerdict([], chunks);
  }

  /** Any response no longer than the ceiling and one octet is read under every
      cut of the stream. */
  lemma ResponseReadUnderEveryCut(chunks: seq<bytes>)
    requires NonEmptyChunks(chunks)
    requires ReadResponse(Flatten(chunks)).Parsed?
    requires ReadResponse(Flatten(chunks)).consumed <= 9 * 1024 * 1024 + 1
    ensures Verdict(Drive([], chunks).result) == Success(ReadResponse(Flatten(chunks)).value)
  {
    hide ReadResponse, Drive;
    var s := Flatten(chunks);
    var n := ReadResponse(s).consumed;
    ResponsePrefix.ResponseLocal(s);
    var w := Window(s);
    assert w == s[..n] + w[n..];
    ResponsePrefix.ResponseStable(s[..n], w[n..]);
    ChunksDoNotMatter(chunks);
  }

  /** The verdict is the same under every cut of a stream if and only if
      nothing is decided past the ceiling that was not decided within it. */
  lemma ExactlyWhenChunksDoNotMatter(s: bytes)
    ensures (forall a, b :: Cut(a, s) && Cut(b, s) ==> Verdict(Drive([], a).result) == Verdict(Drive([], b).result))
            <==> DecidedInWindow(s)
  {
    hide ReadResponse, Drive, Whole, NonEmptyChunks, Flatten;
    if DecidedInWindow(s) {
      forall a, b | Cut(a, s) && Cut(b, s)
        ensures Verdict(Drive([], a).result) == Verdict(Drive([], b).result)
      {
        ChunksDoNotMatter(a);
        ChunksDoNotMatter(b);
      }
    } else {
      var a, b := LateVerdict(s);
      assert Cut(a, s) && Cut(b, s);
    }
  }

  /** A verdict past the ceiling is reached in one read and missed in two. */
  lemma LateVerdict(s: bytes) returns (a: seq<bytes>, b: seq<bytes>)
    requires !DecidedInWindow(s)
    ensures Cut(a, s) && Cut(b, s)
    ensures Verdict(Drive([], a).result) != Verdict(Drive([], b).result)
  {
    hide ReadResponse;
    a := [s];
    var head, tail := s[..MAX_RESPONSE + 1], s[MAX_RESPONSE + 1..];
    b := [head, tail];
    assert Flatten(a[1..]) == [] && Flatten(a) == s;
    assert b[1..] == [tail] && Flatten([tail][1..]) == [] && Flatten([tail]) == tail;
    assert head + tail == s;
    assert [] + s == s && [] + head == head;
    assert Drive([], b).result == Failure(ResponseTooLarge);
  }

  /** Nothing is lost or invented: what was consumed, what trailed it and what
      was never asked for make up the stream, under every cut. */
  lemma {:induction false} ReadingConserves(buf: bytes, chunks: seq<bytes>)
    requires Drive(buf, chunks).result.Success?
    ensures var s := buf + Flatten(chunks);
            var ok := Drive(buf, chunks).result.value;
            ReadResponse(s).Parsed? && ReadResponse(s).value == ok.response
            && s[..ReadResponse(s).consumed] + ok.trailing + Flatten(Drive(buf, chunks).unread) == s
    decreases |chunks|
  {
    hide ReadResponse;
    if chunks != [] {
      var b, rest := buf + chunks[0], Flatten(chunks[1..]);
      assert buf + Flatten(chunks) == b + rest;
      if ReadResponse(b).Parsed? {
        ConsumedIsKept(b, rest);
      } else {
        ReadingConserves(b, chunks[1..]);
      }
    }
  }

  lemma ConsumedIsKept(b: bytes, rest: bytes)
    requires ReadResponse(b).Parsed?
    ensures ReadResponse(b + rest) == ReadResponse(b)
    ensures var n := ReadResponse(b).consumed; (b + rest)[..n] + b[n..] + rest == b + rest
  {
    hide ReadResponse;
    ResponsePrefix.ResponseStable(b, rest);
  }

  /** Reading is bounded: on any stream of non-empty chunks at most
      `MAX_RESPONSE` and one reads are made. */
  lemma {:induction false} ReadsAreBounded(buf: bytes, chunks: seq<bytes>)
    requires NonEmptyChunks(chunks) && |buf| <= MAX_RESPONSE
    ensures |chunks| - |Drive(buf, chunks).unread| + |buf| <= MAX_RESPONSE + 1
    decreases |chunks|
  {
    hide ReadResponse;
    if chunks != [] && !Feed(buf, chunks[0]).1.Complete? {
      ReadsAreBounded(buf + chunks[0], chunks[1..]);
    }
  }

  /** Without a line feed there is nothing to parse, and so nothing to refuse. */
  lemma EndlessLine(s: bytes)
    requires LF !in s
    ensures ReadResponse(s) == Incomplete
  {
    hide Classify;
    if IndexOf(s, LF).Some? {
      assert false;
    }
  }

  /** A server that never ends a line is given up as sending too much, under
      every cut: it meets the ceiling, and not the parser. */
  lemma EndlessLineIsTooLarge(chunks: seq<bytes>)
    requires NonEmptyChunks(chunks) && LF !in Flatten(chunks) && |Flatten(chunks)| > 9 * 1024 * 1024
    ensures Drive([], chunks).result == Failure(ResponseTooLarge)
  {
    hide ReadResponse, Drive, Flatten, NonEmptyChunks;
    EndlessLine(Flatten(chunks));
    EndlessLine(Window(Flatten(chunks)));
    ChunksDoNotMatter(chunks);
  }
}
