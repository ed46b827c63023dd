/** What a pump keeps while it runs a coroutine against a stream: how far it
    has come, and that client and server are still in step. */
module Pump {
  import opened Bytes
  import opened Response
  import opened Reader
  import opened Replies
  import opened Exchange
  import opened ExchangeRun
  import opened Draining
  import opened InStep
  import R = Reading

  /** Reading `rest` is as it would have been from the start. */
  predicate ReadsOn(fed: seq<bytes>, buf: bytes, rest: seq<bytes>) {
    R.Drive([], fed + rest) == R.Drive(buf, rest)
  }

  ghost predicate ReadSoFar(fed: seq<bytes>, buf: bytes) {
    forall rest :: ReadsOn(fed, buf, rest)
  }

  lemma NothingReadYet(unheard: bytes)
    ensures ReadSoFar([], []) && NonEmptyChunks([]) && Flatten([]) + unheard == unheard
  {
    hide R.Drive;
    forall rest: seq<bytes>
      ensures ReadsOn([], [], rest)
    {
      assert [] + rest == rest;
    }
  }

  lemma OneMoreRead(fed: seq<bytes>, buf: bytes, chunk: bytes)
    requires ReadSoFar(fed, buf) && chunk != []
    ensures match Feed(buf, chunk).1
            case Complete(r) => R.Drive([], fed + [chunk]) == R.Outcome(r, [])
            case _ => ReadSoFar(fed + [chunk], Feed(buf, chunk).0)
  {
    hide Feed;
    if Feed(buf, chunk).1.Complete? {
      assert ReadsOn(fed, buf, [chunk]) && [chunk][1..] == [];
    } else {
      forall rest: seq<bytes>
        ensures ReadsOn(fed + [chunk], Feed(buf, chunk).0, rest)
      {
        assert ReadsOn(fed, buf, [chunk] + rest);
        assert fed + [chunk] + rest == fed + ([chunk] + rest);
        assert ([chunk] + rest)[1..] == rest;
      }
    }
  }

  lemma EndOfReads(fed: seq<bytes>, buf: bytes)
    requires ReadSoFar(fed, buf)
    ensures R.Drive([], fed) == R.Outcome(Failure(Eof), [])
  {
    hide R.Drive;
    var none := fed[|fed|..];
    assert ReadsOn(fed, buf, none) && fed + none == fed;
    R.NothingMore(buf, none);
  }

  // -------------------------------------------------------------------------
  // One command, pumped
  // -------------------------------------------------------------------------

  /** A command under way: `fed` is what it has read, `got` what was taken from
      the stream for it, the chunk it is about to be given included. */
  ghost predicate Underway(s: Sending, arg: Option<bytes>, fed: seq<bytes>, got: seq<bytes>) {
    && ReadSoFar(fed, s.buf) && NonEmptyChunks(got)
    && got == (if arg.Some? && arg.value != [] then fed + [arg.value] else fed)
    && (s.unsent.Some? ==> arg.None? && s.buf == [] && got == [])
  }

  lemma UnderwayStep(s: Sending, arg: Option<bytes>, fed: seq<bytes>, got: seq<bytes>)
    requires Underway(s, arg, fed, got)
    ensures var (next, out) := SendStep(s, arg);
            match out
            case WantsWrite(octets) =>
              s.unsent == Some(octets) && Underway(next, None, fed, got) && next == Sending(None, [])
            case WantsRead => s.unsent.None? && next.unsent.None? && arg != Some([]) && ReadSoFar(got, next.buf)
            case Complete(r) => s.unsent.None? && R.Drive([], got) == R.Outcome(r, [])
  {
    hide R.Drive, ReadResponse, ReadSoFar;
    if s.unsent.None? && arg.Some? {
      if arg.value == [] {
        EndOfReads(fed, s.buf);
      } else {
        OneMoreRead(fed, s.buf, arg.value);
      }
    }
  }

  lemma UnderwayRead(s: Sending, got: seq<bytes>, chunk: bytes)
    requires s.unsent.None? && ReadSoFar(got, s.buf) && NonEmptyChunks(got)
    ensures Underway(s, Some(chunk), got, if chunk == [] then got else got + [chunk])
  {
    hide ReadSoFar;
  }

  /** A command in step: what it holds, is being given and is yet to be sent
      make up the one reply. */
  predicate Due(s: Sending, arg: Option<bytes>, pending: bytes, reply: bytes) {
    && OneResponse(reply) && s.buf + OrEmpty(arg) + pending == reply
    && s.unsent.None? && arg != Some([]) && (arg.None? ==> pending != [])
  }

  lemma DueStep(s: Sending, arg: Option<bytes>, pending: bytes, reply: bytes)
    requires Due(s, arg, pending, reply)
    ensures var (next, out) := SendStep(s, arg);
            match out
            case WantsRead => pending != [] && next.unsent.None? && next.buf + pending == reply
            case WantsWrite(_) => false
            case Complete(r) => pending == [] && r == Success(ReadOk(ReadResponse(reply).value, []))
  {
    hide ReadResponse, Feed, OneResponse;
    if arg.Some? {
      ReadsInStep(s.buf, arg.value, pending);
    } else {
      assert s.buf + [] == s.buf;
    }
  }

  lemma DueRead(s: Sending, chunk: bytes, rest: bytes, reply: bytes)
    requires OneResponse(reply) && s.unsent.None? && s.buf + (chunk + rest) == reply && chunk != []
    ensures Due(s, Some(chunk), rest, reply)
  {
    hide OneResponse;
    assert s.buf + chunk + rest == s.buf + (chunk + rest);
  }

  lemma DueWritten(pending: bytes, reply: bytes)
    requires OneResponse(reply) && pending == [] + reply
    ensures Due(Sending(None, []), None, pending, reply)
  {
    hide OneResponse;
    SomethingToRead(reply);
    assert [] + OrEmpty(None) + pending == reply;
  }

  // -------------------------------------------------------------------------
  // An exchange, pumped
  // -------------------------------------------------------------------------

  function AfterAll(said: seq<bytes>, t: Transcript): Transcript {
    t.(writes := said + t.writes)
  }

  /** An exchange under way: whatever is still to come, the run on all of it is
      what was said so far and then the run from here. At the end of the stream
      nothing is to come. */
  ghost predicate Exchanging(m: Mechanism, opts: Options, a: Auth, arg: Option<bytes>, got: seq<bytes>,
                             said: seq<bytes>) {
    && NonEmptyChunks(got)
    && if arg == Some([]) then
         AuthStep(m, opts, a, arg).1.Complete?
         && Run(m, opts, FRESH_AUTH, None, got) == AfterAll(said, AtEnd(AuthStep(m, opts, a, arg)))
       else
         forall rest :: RunsOn(m, opts, a, arg, got, said, rest)
  }

  /** The run on `rest` too is what was said so far and then the run from
      here. */
  predicate RunsOn(m: Mechanism, opts: Options, a: Auth, arg: Option<bytes>, got: seq<bytes>, said: seq<bytes>,
                   rest: seq<bytes>) {
    Run(m, opts, FRESH_AUTH, None, got + rest) == AfterAll(said, Run(m, opts, a, arg, rest))
  }

  lemma ExchangeBegins(m: Mechanism, opts: Options)
    ensures Exchanging(m, opts, FRESH_AUTH, None, [], [])
  {
    hide Run, RunsOn, FRESH_AUTH;
    forall rest: seq<bytes>
      ensures RunsOn(m, opts, FRESH_AUTH, None, [], [], rest)
    {
      RunsFromTheStart(m, opts, rest);
    }
  }

  lemma RunsFromTheStart(m: Mechanism, opts: Options, rest: seq<bytes>)
    ensures RunsOn(m, opts, FRESH_AUTH, None, [], [], rest)
  {
    hide Run, FRESH_AUTH;
    assert [] + rest == rest;
    var t := Run(m, opts, FRESH_AUTH, None, rest);
    assert [] + t.writes == t.writes;
  }

  lemma ExchangeEnds(m: Mechanism, opts: Options, a: Auth, arg: Option<bytes>, got: seq<bytes>, said: seq<bytes>)
    requires Exchanging(m, opts, a, arg, got, said) && AuthStep(m, opts, a, arg).1.Complete?
    ensures var (next, out) := AuthStep(m, opts, a, arg);
            Run(m, opts, FRESH_AUTH, None, got) == Transcript(said, next.heard, out.result)
  {
    hide AuthStep, Run;
    assert got + [] == got && said + [] == said;
    if arg != Some([]) {
      assert RunsOn(m, opts, a, arg, got, said, []);
      RunEnds(m, opts, a, arg, []);
    }
  }

  lemma RunEnds(m: Mechanism, opts: Options, a: Auth, arg: Option<bytes>, rest: seq<bytes>)
    requires AuthStep(m, opts, a, arg).1.Complete?
    ensures Run(m, opts, a, arg, rest) ==
            Transcript([], AuthStep(m, opts, a, arg).0.heard, AuthStep(m, opts, a, arg).1.result)
  {
    hide AuthStep;
  }

  lemma RunWrites(m: Mechanism, opts: Options, a: Auth, arg: Option<bytes>, rest: seq<bytes>)
    requires AuthStep(m, opts, a, arg).1.WantsWrite?
    ensures var (next, out) := AuthStep(m, opts, a, arg);
            Run(m, opts, a, arg, rest) == After(out.octets, Run(m, opts, next, None, rest))
  {
    hide AuthStep;
  }

  lemma RunReads(m: Mechanism, opts: Options, a: Auth, arg: Option<bytes>, chunk: bytes, rest: seq<bytes>)
    requires AuthStep(m, opts, a, arg).1.WantsRead?
    ensures var next := AuthStep(m, opts, a, arg).0;
            Run(m, opts, a, arg, [chunk] + rest) == Run(m, opts, next, Some(chunk), rest)
            && Run(m, opts, a, arg, []) == AtEnd(AuthStep(m, opts, next, Some([])))
  {
    hide AuthStep;
    assert ([chunk] + rest)[1..] == rest;
  }

  lemma ExchangeWrites(m: Mechanism, opts: Options, a: Auth, arg: Option<bytes>, got: seq<bytes>, said: seq<bytes>)
    requires Exchanging(m, opts, a, arg, got, said) && AuthStep(m, opts, a, arg).1.WantsWrite?
    ensures var (next, out) := AuthStep(m, opts, a, arg);
            Exchanging(m, opts, next, None, got, said + [out.octets])
  {
    hide AuthStep, Run;
    var (next, out) := AuthStep(m, opts, a, arg);
    forall rest: seq<bytes>
      ensures RunsOn(m, opts, next, None, got, said + [out.octets], rest)
    {
      assert RunsOn(m, opts, a, arg, got, said, rest);
      RunWrites(m, opts, a, arg, rest);
      var t := Run(m, opts, next, None, rest);
      assert said + [out.octets] + t.writes == said + ([out.octets] + t.writes);
    }
  }

  /** The end of the stream ends an exchange that was waiting to read. */
  lemma EofEnds(m: Mechanism, opts: Options, a: Auth, arg: Option<bytes>)
    requires AuthStep(m, opts, a, arg).1.WantsRead?
    ensures AuthStep(m, opts, AuthStep(m, opts, a, arg).0, Some([])).1.Complete?
  {
    hide ReadLine, Drain, ReadResponse, CapabilityReply, OpenExchange, OnLine;
  }

  lemma ExchangeReads(m: Mechanism, opts: Options, a: Auth, arg: Option<bytes>, got: seq<bytes>, said: seq<bytes>,
                      chunk: bytes)
    requires Exchanging(m, opts, a, arg, got, said) && AuthStep(m, opts, a, arg).1.WantsRead?
    ensures var next := AuthStep(m, opts, a, arg).0;
            Exchanging(m, opts, next, Some(chunk), if chunk == [] then got else got + [chunk], said)
  {
    hide AuthStep, Run, AtEnd;
    var next := AuthStep(m, opts, a, arg).0;
    if chunk == [] {
      EofEnds(m, opts, a, arg);
      RunReads(m, opts, a, arg, chunk, []);
      assert RunsOn(m, opts, a, arg, got, said, []) && got + [] == got;
    } else {
      forall rest: seq<bytes>
        ensures RunsOn(m, opts, next, Some(chunk), got + [chunk], said, rest)
      {
        assert RunsOn(m, opts, a, arg, got, said, [chunk] + rest);
        RunReads(m, opts, a, arg, chunk, rest);
        assert got + [chunk] + rest == got + ([chunk] + rest);
      }
    }
  }
}
