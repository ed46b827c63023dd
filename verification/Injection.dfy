/** The guard against octets smuggled in after a greeting or an OK to STARTTLS:
    exactly when it is triggered. */
module Injection {
  import opened Bytes
  import opened Scanner
  import opened Response
  import opened Reader
  import opened Replies
  import ResponsePrefix
  import E = ExchangeRun
  import R = Reading

  /** The number of chunks a read asked for. */
  function Asked(buf: bytes, chunks: seq<bytes>): nat {
    |chunks| - |R.Drive(buf, chunks).unread|
  }

  /** A buffer without a response in it is shorter than the response. */
  lemma ShortOf(buf: bytes, s: bytes)
    requires buf <= s && ReadResponse(buf) == Incomplete && ReadResponse(s).Parsed?
    ensures |buf| < ReadResponse(s).consumed
  {
    hide ReadResponse;
    var n := ReadResponse(s).consumed;
    if n <= |buf| {
      assert buf == s[..n] + buf[n..];
      ResponsePrefix.ResponseLocal(s);
      ResponsePrefix.ResponseStable(s[..n], buf[n..]);
      assert false;
    }
  }

  /** The chunk that completes a response, seen from the whole stream. */
  lemma CompletesHere(buf: bytes, chunk: bytes, rest: bytes)
    requires chunk != []
    requires var p := ReadResponse(buf + chunk + rest); p.Parsed? && p.consumed <= |buf + chunk|
    ensures var p := ReadResponse(buf + chunk + rest);
            Feed(buf, chunk).1 == Complete(Success(ReadOk(p.value, (buf + chunk)[p.consumed..])))
  {
    hide ReadResponse;
    var b, s := buf + chunk, buf + chunk + rest;
    var n := ReadResponse(s).consumed;
    ResponsePrefix.ResponseLocal(s);
    assert b == s[..n] + b[n..];
    ResponsePrefix.ResponseStable(s[..n], b[n..]);
  }

  /** Short of the response, a chunk is only added to the buffer. */
  lemma AsksAgain(buf: bytes, chunk: bytes, rest: bytes)
    requires chunk != []
    requires var p := ReadResponse(buf + chunk + rest); p.Parsed? && |buf + chunk| < p.consumed <= MAX_RESPONSE + 1
    ensures Feed(buf, chunk) == (buf + chunk, WantsRead) && ReadResponse(buf + chunk) == Incomplete
  {
    hide ReadResponse;
    var b, s := buf + chunk, buf + chunk + rest;
    assert s[..|b|] == b;
    ResponsePrefix.ResponsePrefix(s, |b|);
  }

  /** A read stops at the first chunk that completes the response. */
  lemma {:induction false} StopsAtTheResponse(buf: bytes, chunks: seq<bytes>, n: nat)
    requires NonEmptyChunks(chunks) && ReadResponse(buf) == Incomplete
    requires var p := ReadResponse(buf + Flatten(chunks)); p.Parsed? && p.consumed == n <= MAX_RESPONSE + 1
    ensures E.Reaches(|buf|, chunks, Asked(buf, chunks), n)
    ensures R.Drive(buf, chunks).result.Success?
    ensures R.Drive(buf, chunks).result.value.response == ReadResponse(buf + Flatten(chunks)).value
    decreases |chunks|
  {
    hide ReadResponse, E.Reaches, Feed;
    assert chunks == [] ==> buf + Flatten(chunks) == buf;
    if chunks != [] {
      var b, rest := buf + chunks[0], Flatten(chunks[1..]);
      assert buf + Flatten(chunks) == b + rest;
      assert buf <= b + rest;
      ShortOf(buf, b + rest);
      if |b| < n {
        AsksAgain(buf, chunks[0], rest);
        StopsAtTheResponse(b, chunks[1..], n);
      } else {
        CompletesHere(buf, chunks[0], rest);
        ReachedAlready(|b|, chunks[1..], n);
      }
      E.ReachesMore(buf, chunks, Asked(buf, chunks) - 1, Some(n));
    }
  }

  lemma ReachedAlready(held: nat, chunks: seq<bytes>, n: nat)
    requires n <= held
    ensures E.Reaches(held, chunks, 0, n)
  {
  }

  /** Some read ended exactly where the response did. */
  predicate Parted(chunks: seq<bytes>, n: nat) {
    exists j :: 0 <= j <= |chunks| && |Flatten(chunks[..j])| == n
  }

  /** Whether octets trail a response depends on how the network cut the
      stream, and on nothing else: none do if and only if some read ended where
      the response does. */
  lemma TrailedExactly(chunks: seq<bytes>, n: nat)
    requires NonEmptyChunks(chunks)
    requires var p := ReadResponse(Flatten(chunks)); p.Parsed? && p.consumed == n <= MAX_RESPONSE + 1
    ensures R.Drive([], chunks).result.Success?
    ensures R.Drive([], chunks).result.value.response == ReadResponse(Flatten(chunks)).value
    ensures R.Drive([], chunks).result.value.trailing == [] <==> Parted(chunks, n)
  {
    hide ReadResponse, R.Drive;
    var s := Flatten(chunks);
    assert [] + s == s;
    R.NothingRead();
    StopsAtTheResponse([], chunks, n);
    R.ReadingConserves([], chunks);
    var k := Asked([], chunks);
    FlattenSplit(chunks, k);
    assert chunks[k..] == R.Drive([], chunks).unread;
    var trailing := R.Drive([], chunks).result.value.trailing;
    assert |Flatten(chunks[..k])| == n + |trailing|;
    if Parted(chunks, n) {
      var j :| 0 <= j <= |chunks| && |Flatten(chunks[..j])| == n;
      FirstToReach(chunks, k, j, n);
    }
  }

  /** The first chunk to reach `n` ends there when any does. */
  lemma FirstToReach(chunks: seq<bytes>, k: nat, j: nat, n: nat)
    requires j <= |chunks| && NonEmptyChunks(chunks)
    requires E.Reaches(0, chunks, k, n) && |Flatten(chunks[..j])| == n
    ensures |Flatten(chunks[..k])| == n
  {
    if j < k {
      FlattenGrows(chunks, j, k - 1);
    } else {
      FlattenGrows(chunks, k, j);
    }
  }

  /** The guard of the greeting and of STARTTLS fires if and only if no read
      ended where the response does; otherwise the reply is that of the
      response alone. */
  lemma InjectionExactly(chunks: seq<bytes>, n: nat)
    requires NonEmptyChunks(chunks)
    requires var p := ReadResponse(Flatten(chunks)); p.Parsed? && p.consumed == n <= MAX_RESPONSE + 1
    ensures var (r, clean) := (R.Drive([], chunks).result, Success(ReadOk(ReadResponse(Flatten(chunks)).value, [])));
            && (Greeting(r) == Failure(ReplyError.Injection) <==> !Parted(chunks, n))
            && (StartTlsReply(r) == Failure(ReplyError.Injection) <==> !Parted(chunks, n))
            && (Parted(chunks, n) ==> r == clean)
  {
    hide ReadResponse, R.Drive, ReadCapabilities, Parted, Flatten, NonEmptyChunks;
    TrailedExactly(chunks, n);
  }
}
