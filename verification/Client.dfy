/** The blocking client (src/client.rs): the pump that runs a coroutine against
    a stream, and whole sessions of calls. */
module Client {
  import opened Bytes
  import opened Response
  import opened Reader
  import opened Replies
  import opened Calls
  import opened Exchange
  import opened ExchangeRun
  import opened Draining
  import opened InStep
  import opened Pump
  import opened SignIn
  import Command
  import A = Authenticate
  import I = Injection
  import R = Reading

  const READ_BUFFER_SIZE: nat := 16 * 1024

  /** A blocking stream and the server behind it, which says one thing after
      each write it is sent and may have said something before. A read returns
      some of what has been said, cut as the network pleases; past that, the
      connection has ended. */
  class Stream {
    var pending: bytes
    var replies: seq<bytes>
    var written: seq<bytes>

    constructor (pending: bytes, replies: seq<bytes>)
      ensures this.pending == pending && this.replies == replies && written == []
    {
      this.pending := pending;
      this.replies := replies;
      written := [];
    }

    /** Everything the server has still to be heard saying. */
    ghost function Unheard(): bytes
      reads this
    {
      pending + Flatten(replies)
    }

    method Read(max: nat) returns (chunk: bytes)
      requires max > 0
      modifies this`pending
      ensures |chunk| <= max && chunk + pending == old(pending)
      ensures chunk == [] <==> old(pending) == []
    {
      var least := if pending == [] then 0 else 1;
      assert least <= |pending| && least <= max;
      var n: nat :| least <= n <= |pending| && n <= max;
      chunk := pending[..n];
      pending := pending[n..];
    }

    method WriteAll(octets: bytes)
      modifies this
      ensures written == old(written) + [octets]
      ensures if old(replies) == [] then pending == old(pending) && replies == []
              else pending == old(pending) + old(replies)[0] && replies == old(replies)[1..]
      ensures Unheard() == old(Unheard())
    {
      written := written + [octets];
      if replies != [] {
        pending, replies := pending + replies[0], replies[1..];
      }
    }
  }

  // -------------------------------------------------------------------------
  // Commands
  // -------------------------------------------------------------------------

  /** A command coroutine: sends the command and reads its response. */
  class Calling {
    const command: Command.Command
    const send: CommandSend

    ghost predicate Valid()
      reads this, send, send.read
    {
      send.Valid()
    }

    constructor (command: Command.Command)
      ensures Valid() && fresh(send) && fresh(send.read) && this.command == command
      ensures send.State() == Sending(Some(command.Serialize()), [])
    {
      this.command := command;
      send := new CommandSend(command.Serialize());
    }

    method Resume(arg: Option<bytes>) returns (out: Progress<Result<Reply, ReplyError>>)
      requires Valid() && Readable(arg)
      modifies send, send.read
      ensures var (next, step) := SendStep(old(send.State()), arg);
              match step
              case WantsRead => out == WantsRead && Valid() && send.State() == next
              case WantsWrite(octets) => out == WantsWrite(octets) && Valid() && send.State() == next
              case Complete(r) => out.Complete? && Concludes(command, r, out.result)
    {
      hide SendStep, Interpret, Concludes;
      ghost var before := send.State();
      SendReadsWhole(before, arg);
      var inner := send.Resume(arg);
      match inner {
        case WantsRead => return WantsRead;
        case WantsWrite(octets) => return WantsWrite(octets);
        case Complete(r) =>
          InterpretConcludes(command, r, Interpret(command, r));
          return Complete(Interpret(command, r));
      }
    }
  }


  class ClientStd {
    const stream: Stream

    constructor (stream: Stream)
      ensures this.stream == stream
    {
      this.stream := stream;
    }

    /** Runs one command to its end. Its outcome is concluded from exactly the
        octets taken from the stream; and when nothing was unread before, and
        the server's reply is one response within the ceiling, it is concluded
        from that response and nothing is unread after. */
    method Call(c: Command.Command) returns (r: Result<Reply, ReplyError>, ghost got: seq<bytes>)
      modifies stream
      ensures stream.written == old(stream.written) + [c.Serialize()]
      ensures stream.replies == Left(old(stream.replies), 1)
      ensures NonEmptyChunks(got) && Flatten(got) + stream.Unheard() == old(stream.Unheard())
      ensures R.Drive([], got).unread == [] && Concludes(c, R.Drive([], got).result, r)
      ensures var replies := old(stream.replies);
              old(stream.pending) == [] && replies != [] && OneResponse(replies[0]) ==>
                && stream.pending == [] && ReadResponse(replies[0]).Parsed?
                && Answered(c, ReadResponse(replies[0]).value, r)
    {
      hide SendStep, Concludes, Answered, OneResponse, Command.Command.Serialize, R.Drive, Flatten, NonEmptyChunks;
      hide CallInHand, ReadResponse;
      var call := new Calling(c);
      var arg: Option<bytes> := None;
      ghost var from := Side(stream.pending, stream.replies);
      ghost var fed: seq<bytes> := [];
      got := [];
      CallBegins(c.Serialize(), from);
      while true
        invariant call.Valid() && Readable(arg)
        invariant stream.written == old(stream.written) + if call.send.unsent.Some? then [] else [c.Serialize()]
        invariant CallInHand(c.Serialize(), call.send.State(), arg, fed, got, from,
                             Side(stream.pending, stream.replies))
        decreases call.send.unsent.Some?, |stream.pending|, arg != Some([])
      {
        ghost var s, here := call.send.State(), Side(stream.pending, stream.replies);
        var out := call.Resume(arg);
        match out {
          case Complete(result) =>
            CallEnds(c.Serialize(), s, arg, fed, got, from, here);
            if Attentive(from) {
              ConcludedAlone(c, ReadResponse(from.replies[0]).value, result);
            }
            return result, got;
          case WantsRead =>
            var chunk := stream.Read(READ_BUFFER_SIZE);
            CallReads(c.Serialize(), s, arg, fed, got, from, here, chunk, stream.pending);
            fed := got;
            if chunk != [] {
              got := got + [chunk];
            }
            arg := Some(chunk);
          case WantsWrite(octets) =>
            CallWrites(c.Serialize(), s, arg, fed, got, from, here);
            stream.WriteAll(octets);
            arg := None;
        }
      }
    }

    /** Runs a whole AUTHENTICATE exchange. What was written, what the mechanism
        was told and the outcome are those of the run on exactly the octets taken
        from the stream; and when nothing was unread before and every write got
        the line, or the response, it called for, all three are those that the
        lines of the replies and the mechanism spell out and nothing is unread
        after. */
    method Login(m: Mechanism, opts: Options)
      returns (r: AuthResult, ghost got: seq<bytes>, ghost said: seq<bytes>, ghost heard: seq<SaslArg>)
      modifies stream
      ensures stream.written == old(stream.written) + said
      ensures stream.replies == Left(old(stream.replies), |said|)
      ensures NonEmptyChunks(got) && Flatten(got) + stream.Unheard() == old(stream.Unheard())
      ensures Run(m, opts, FRESH_AUTH, None, got) == Transcript(said, heard, r)
      ensures old(stream.pending) == [] && Keeps(said, old(stream.replies)) ==>
                && stream.pending == [] && Understood(r)
                && SignsIn(m, opts, old(stream.replies)[..|said|], Transcript(said, heard, r))
    {
      hide AuthStep, Run, Flatten, NonEmptyChunks, InHand, Rank, Understood, Suits, Work, SignsIn;
      var auth := new A.Authenticate(m, opts);
      var arg: Option<bytes> := None;
      ghost var from := Side(stream.pending, stream.replies);
      got, said := [], [];
      LoginBegins(m, opts, from);
      while true
        invariant auth.Valid() && auth.described == m && auth.opts == opts && fresh(auth.Repr())
        invariant Readable(arg) && (arg.Some? ==> auth.asked)
        invariant stream.written == old(stream.written) + said
        invariant InHand(m, opts, auth.View(), arg, got, said, from, Side(stream.pending, stream.replies))
        decreases Rank(auth.View().phase), Work(auth.View(), arg, Side(stream.pending, stream.replies)),
                  |stream.Unheard()|, arg != Some([])
      {
        ghost var a, here := auth.View(), Side(stream.pending, stream.replies);
        var out := auth.Resume(arg);
        match out {
          case Complete(result) =>
            LoginEnds(m, opts, a, arg, got, said, from, here);
            heard := auth.heard;
            return result, got, said, heard;
          case WantsRead =>
            var chunk := stream.Read(READ_BUFFER_SIZE);
            LoginReads(m, opts, a, arg, got, said, from, here, chunk, stream.pending);
            if chunk != [] {
              got := got + [chunk];
            }
            arg := Some(chunk);
          case WantsWrite(octets) =>
            LoginWrites(m, opts, a, arg, got, said, from, here);
            stream.WriteAll(octets);
            said := said + [octets];
            arg := None;
        }
      }
    }
  }

  /** The server's side of a stream, and what it becomes after a write. */
  datatype Side = Side(pending: bytes, replies: seq<bytes>) {
    function Unheard(): bytes {
      pending + Flatten(replies)
    }

    function Prompted(): Side {
      if replies == [] then this else Side(pending + replies[0], replies[1..])
    }
  }

  lemma PromptingKeeps(here: Side)
    ensures here.Prompted().Unheard() == here.Unheard()
  {
  }

  /** A chunk read is a chunk less to hear. */
  lemma Moved(got: seq<bytes>, here: Side, chunk: bytes, rest: bytes)
    requires here.pending == chunk + rest
    ensures Flatten(if chunk == [] then got else got + [chunk]) + Side(rest, here.replies).Unheard() ==
            Flatten(got) + here.Unheard()
  {
    hide Flatten;
    FlattenSnoc(got, chunk);
    assert Flatten(got) + chunk + (rest + Flatten(here.replies)) ==
      Flatten(got) + (chunk + rest + Flatten(here.replies));
    assert chunk == [] ==> Flatten(got) + chunk == Flatten(got);
  }

  /** The replies left after `n` writes. */
  function Left(replies: seq<bytes>, n: nat): seq<bytes> {
    if n <= |replies| then replies[n..] else []
  }

  /** The server is in step with a command about to be written. */
  predicate Attentive(from: Side) {
    from.pending == [] && from.replies != [] && OneResponse(from.replies[0])
  }

  /** A command in hand: begun at `from`, now at `here`. */
  ghost predicate CallInHand(octets: bytes, s: Sending, arg: Option<bytes>, fed: seq<bytes>, got: seq<bytes>,
                             from: Side, here: Side) {
    && Underway(s, arg, fed, got)
    && Flatten(got) + here.Unheard() == from.Unheard()
    && (if s.unsent.Some? then s.unsent == Some(octets) && here == from
        else here.replies == Left(from.replies, 1) && (Attentive(from) ==> Due(s, arg, here.pending, from.replies[0])))
  }

  /** Nothing trails a reply taken whole. */
  lemma ConcludedAlone(c: Command.Command, r: Response, outcome: Result<Reply, ReplyError>)
    requires Concludes(c, Success(ReadOk(r, [])), outcome)
    ensures Answered(c, r, outcome)
  {
    hide Answered;
  }

  lemma CallBegins(octets: bytes, from: Side)
    ensures CallInHand(octets, Sending(Some(octets), []), None, [], [], from, from)
  {
    hide ReadSoFar, OneResponse;
    NothingReadYet(from.Unheard());
  }

  lemma CallWrites(octets: bytes, s: Sending, arg: Option<bytes>, fed: seq<bytes>, got: seq<bytes>, from: Side,
                   here: Side)
    requires CallInHand(octets, s, arg, fed, got, from, here) && SendStep(s, arg).1.WantsWrite?
    ensures var (next, out) := SendStep(s, arg);
            && s.unsent.Some? && next.unsent.None? && out.octets == octets
            && CallInHand(octets, next, None, fed, got, from, here.Prompted())
  {
    hide Underway, Due, OneResponse, SendStep, Flatten, Side.Unheard;
    UnderwayStep(s, arg, fed, got);
    PromptingKeeps(here);
    if Attentive(from) {
      DueWritten(here.Prompted().pending, from.replies[0]);
    }
  }

  lemma CallReads(octets: bytes, s: Sending, arg: Option<bytes>, fed: seq<bytes>, got: seq<bytes>, from: Side,
                  here: Side,
                  chunk: bytes, rest: bytes)
    requires CallInHand(octets, s, arg, fed, got, from, here) && SendStep(s, arg).1.WantsRead?
    requires here.pending == chunk + rest && (chunk == [] <==> here.pending == [])
    ensures s.unsent.None? && SendStep(s, arg).0.unsent.None? && arg != Some([])
    ensures CallInHand(octets, SendStep(s, arg).0, Some(chunk), got, if chunk == [] then got else got + [chunk],
                       from, Side(rest, here.replies))
  {
    hide SendStep, ReadSoFar, OneResponse, ReadResponse, Flatten, Side.Unheard, Due, NonEmptyChunks;
    UnderwayStep(s, arg, fed, got);
    var next := SendStep(s, arg).0;
    UnderwayRead(next, got, chunk);
    Moved(got, here, chunk, rest);
    if Attentive(from) {
      DueStep(s, arg, here.pending, from.replies[0]);
      DueRead(next, chunk, rest, from.replies[0]);
    }
  }

  lemma CallEnds(octets: bytes, s: Sending, arg: Option<bytes>, fed: seq<bytes>, got: seq<bytes>, from: Side,
                 here: Side)
    requires CallInHand(octets, s, arg, fed, got, from, here) && SendStep(s, arg).1.Complete?
    ensures var r := SendStep(s, arg).1.result;
            && s.unsent.None? && here.replies == Left(from.replies, 1)
            && NonEmptyChunks(got) && Flatten(got) + here.Unheard() == from.Unheard()
            && R.Drive([], got) == R.Outcome(r, [])
            && (Attentive(from) ==>
                  here.pending == [] && ReadResponse(from.replies[0]).Parsed?
                  && r == Success(ReadOk(ReadResponse(from.replies[0]).value, [])))
  {
    hide SendStep, R.Drive, Flatten, ReadResponse;
    UnderwayStep(s, arg, fed, got);
    if Attentive(from) {
      DueStep(s, arg, here.pending, from.replies[0]);
    }
  }

  /** An exchange in hand: begun at `from`, now at `here`. */
  ghost predicate InHand(m: Mechanism, opts: Options, a: Auth, arg: Option<bytes>, got: seq<bytes>, said: seq<bytes>,
                         from: Side, here: Side) {
    && Exchanging(m, opts, a, arg, got, said)
    && Flatten(got) + here.Unheard() == from.Unheard()
    && here.replies == Left(from.replies, |said|)
    && (from.pending == [] && Keeps(said, from.replies) ==>
          Poised(a, arg, here.pending) && Apart(got, said, from.replies))
  }

  /** Some read ended where the replies to all writes but the last do. */
  predicate Apart(got: seq<bytes>, said: seq<bytes>, replies: seq<bytes>) {
    0 < |said| <= |replies| ==> I.Parted(got, |Flatten(replies[..|said| - 1])|)
  }

  lemma ApartMore(got: seq<bytes>, chunk: bytes, said: seq<bytes>, replies: seq<bytes>)
    requires Apart(got, said, replies)
    ensures Apart(got + [chunk], said, replies)
  {
    hide Flatten;
    if 0 < |said| <= |replies| {
      var j :| 0 <= j <= |got| && |Flatten(got[..j])| == |Flatten(replies[..|said| - 1])|;
      assert (got + [chunk])[..j] == got[..j];
    }
  }

  lemma ApartNow(got: seq<bytes>, said: seq<bytes>, octets: bytes, from: Side, here: Side)
    requires Flatten(got) + here.Unheard() == from.Unheard() && here.replies == Left(from.replies, |said|)
    requires from.pending == [] && here.pending == [] && |said| < |from.replies|
    ensures Apart(got, said + [octets], from.replies)
  {
    hide Flatten;
    assert Left(from.replies, 0) == from.replies && from.replies[0..|said|] == from.replies[..|said|];
    ReadsAreReplies(Flatten(got), from.replies, 0, |said|);
    assert got[..|got|] == got;
  }

  /** The octets read between two states with nothing unread are the replies
      in between. */
  lemma ReadsAreReplies(octets: bytes, replies: seq<bytes>, k: nat, n: nat)
    requires k + n <= |replies|
    requires octets + ([] + Flatten(Left(replies, k + n))) == [] + Flatten(Left(replies, k))
    ensures octets == Flatten(replies[k..k + n])
  {
    hide Flatten;
    assert replies[k..] == replies[k..k + n] + replies[k + n..];
    FlattenAppend(replies[k..k + n], replies[k + n..]);
    var tail := Flatten(replies[k + n..]);
    assert [] + tail == tail && [] + Flatten(replies[k..]) == Flatten(replies[k..]);
    assert |octets| == |Flatten(replies[k..k + n])|;
    assert octets == (octets + tail)[..|octets|];
  }

  /** The octets an exchange may still come to hold. */
  function Work(a: Auth, arg: Option<bytes>, here: Side): nat {
    |a.buf| + |OrEmpty(arg)| + |here.Unheard()|
  }

  lemma NotAtEnd(m: Mechanism, opts: Options, a: Auth, arg: Option<bytes>, got: seq<bytes>, said: seq<bytes>)
    requires Exchanging(m, opts, a, arg, got, said) && !AuthStep(m, opts, a, arg).1.Complete?
    ensures arg != Some([])
  {
    hide AuthStep, Run;
  }

  lemma LoginBegins(m: Mechanism, opts: Options, from: Side)
    ensures InHand(m, opts, FRESH_AUTH, None, [], [], from, from)
  {
    hide Exchanging, OneLine, OneResponse;
    ExchangeBegins(m, opts);
    assert [] + from.Unheard() == from.Unheard();
  }

  lemma LoginEnds(m: Mechanism, opts: Options, a: Auth, arg: Option<bytes>, got: seq<bytes>, said: seq<bytes>,
                  from: Side, here: Side)
    requires InHand(m, opts, a, arg, got, said, from, here) && AuthStep(m, opts, a, arg).1.Complete?
    ensures var (next, out) := AuthStep(m, opts, a, arg);
            && Run(m, opts, FRESH_AUTH, None, got) == Transcript(said, next.heard, out.result)
            && NonEmptyChunks(got) && Flatten(got) + here.Unheard() == from.Unheard()
            && here.replies == Left(from.replies, |said|)
            && (from.pending == [] && Keeps(said, from.replies) ==>
                  && here.pending == [] && Understood(out.result)
                  && SignsIn(m, opts, from.replies[..|said|], Transcript(said, next.heard, out.result)))
  {
    hide AuthStep, Run, Poised, Understood, Suits, Apart, SignsIn, ExchangeOn, Flatten, NonEmptyChunks;
    ExchangeEnds(m, opts, a, arg, got, said);
    if from.pending == [] && Keeps(said, from.replies) {
      PoisedStep(m, opts, a, arg, here.pending);
      var (next, out) := AuthStep(m, opts, a, arg);
      var t := Transcript(said, next.heard, out.result);
      InStepAnswer(m, opts, got, t, from, here);
      ExchangeSignsIn(m, opts, from.replies[..|said|], t);
    }
  }

  lemma InStepAnswer(m: Mechanism, opts: Options, got: seq<bytes>, t: Transcript, from: Side, here: Side)
    requires NonEmptyChunks(got) && Flatten(got) + here.Unheard() == from.Unheard()
    requires here.replies == Left(from.replies, |t.writes|) && from.pending == [] && here.pending == []
    requires Run(m, opts, FRESH_AUTH, None, got) == t && Understood(t.result) && Keeps(t.writes, from.replies)
    requires Apart(got, t.writes, from.replies)
    ensures t == ExchangeOn(m, opts, from.replies[..|t.writes|])
  {
    hide Run, Understood, Suits, ExchangeOn, Flatten, NonEmptyChunks, I.Parted;
    var n := |t.writes|;
    var replies := from.replies[..n];
    assert Left(from.replies, 0) == from.replies && from.replies[0..n] == replies;
    ReadsAreReplies(Flatten(got), from.replies, 0, n);
    assert n > 0 ==> replies[..n - 1] == from.replies[..n - 1];
    InStepIsExact(m, opts, got, t, replies);
  }

  lemma LoginReads(m: Mechanism, opts: Options, a: Auth, arg: Option<bytes>, got: seq<bytes>, said: seq<bytes>,
                   from: Side, here: Side, chunk: bytes, rest: bytes)
    requires InHand(m, opts, a, arg, got, said, from, here) && AuthStep(m, opts, a, arg).1.WantsRead?
    requires here.pending == chunk + rest && (chunk == [] <==> here.pending == [])
    ensures InHand(m, opts, AuthStep(m, opts, a, arg).0, Some(chunk), if chunk == [] then got else got + [chunk], said,
                   from, Side(rest, here.replies))
    ensures var next := AuthStep(m, opts, a, arg).0;
            Rank(next.phase) == Rank(a.phase) && Work(next, Some(chunk), Side(rest, here.replies)) <= Work(a, arg, here)
    ensures arg != Some([])
  {
    hide AuthStep, Exchanging, Poised, Keeps, Rank, Apart;
    StepShrinks(m, opts, a, arg);
    NotAtEnd(m, opts, a, arg, got, said);
    ExchangeReads(m, opts, a, arg, got, said, chunk);
    Moved(got, here, chunk, rest);
    if from.pending == [] && Keeps(said, from.replies) {
      PoisedStep(m, opts, a, arg, here.pending);
      assert here.pending[..|chunk|] == chunk && here.pending[|chunk|..] == rest;
      ApartMore(got, chunk, said, from.replies);
    }
  }

  lemma LoginWrites(m: Mechanism, opts: Options, a: Auth, arg: Option<bytes>, got: seq<bytes>, said: seq<bytes>,
                    from: Side, here: Side)
    requires InHand(m, opts, a, arg, got, said, from, here) && AuthStep(m, opts, a, arg).1.WantsWrite?
    ensures var (next, out) := AuthStep(m, opts, a, arg);
            InHand(m, opts, next, None, got, said + [out.octets], from, here.Prompted())
    ensures var next := AuthStep(m, opts, a, arg).0;
            Rank(next.phase) < Rank(a.phase)
            || (Rank(next.phase) == Rank(a.phase) && Work(next, None, here.Prompted()) < Work(a, arg, here))
  {
    hide AuthStep, Exchanging, Poised, Suits, Rank, Apart;
    StepShrinks(m, opts, a, arg);
    ExchangeWrites(m, opts, a, arg, got, said);
    var octets := AuthStep(m, opts, a, arg).1.octets;
    PromptingKeeps(here);
    if from.pending == [] && Keeps(said + [octets], from.replies) {
      assert forall i :: 0 <= i < |said| ==> said[i] == (said + [octets])[i];
      PoisedStep(m, opts, a, arg, here.pending);
      assert Suits((said + [octets])[|said|], from.replies[|said|]);
      assert [] + from.replies[|said|] == from.replies[|said|];
      ApartNow(got, said, octets, from, here);
    }
  }
}
