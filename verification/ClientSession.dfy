/** Whole sessions: any sequence of calls on one client, against a server that
    answers each write with what it calls for. */
module ClientSession {
  import opened Bytes
  import opened Response
  import opened Replies
  import opened Calls
  import opened Exchange
  import opened ExchangeRun
  import opened Draining
  import opened InStep
  import opened Client
  import opened SignIn
  import Command

  datatype Request = Ask(command: Command.Command) | SignIn(mechanism: Mechanism, opts: Options)

  datatype Answer = Told(reply: Result<Reply, ReplyError>) | SignedIn(result: AuthResult)

  /** A call wrote `said` and was answered from exactly the replies to that: a
      command by what the lines of its one response tell its caller, a sign-in
      by what the lines of all of them and the mechanism spell out. */
  ghost predicate AnsweredBy(request: Request, answer: Answer, said: seq<bytes>, replies: seq<bytes>) {
    match request
    case Ask(c) =>
      && said == [c.Serialize()] && |replies| == 1
      && ReadResponse(replies[0]).Parsed?
      && answer.Told? && Answered(c, ReadResponse(replies[0]).value, answer.reply)
    case SignIn(m, opts) =>
      && answer.SignedIn? && Understood(answer.result)
      && exists heard :: SignsIn(m, opts, replies, Transcript(said, heard, answer.result))
  }

  /** Everything written over a session, call by call. */
  function All(said: seq<seq<bytes>>): seq<bytes> {
    if said == [] then [] else said[0] + All(said[1..])
  }

  /** Every call was answered from the replies to its own writes, in order. */
  ghost predicate EachAnswered(requests: seq<Request>, answers: seq<Answer>, said: seq<seq<bytes>>, replies: seq<bytes>)
    decreases |requests|
  {
    && |answers| == |said| == |requests|
    && (requests != [] ==>
          && |said[0]| <= |replies|
          && AnsweredBy(requests[0], answers[0], said[0], replies[..|said[0]|])
          && EachAnswered(requests[1..], answers[1..], said[1..], replies[|said[0]|..]))
  }

  lemma KeepsParted(said: seq<bytes>, more: seq<bytes>, replies: seq<bytes>)
    requires Keeps(said + more, replies)
    ensures Keeps(said, replies) && Keeps(more, Left(replies, |said|))
  {
    hide Suits;
    var all := said + more;
    forall i | 0 <= i < |said|
      ensures Suits(said[i], replies[i])
    {
      assert all[i] == said[i];
    }
    forall i | 0 <= i < |more|
      ensures Suits(more[i], replies[|said|..][i])
    {
      assert all[|said| + i] == more[i];
    }
  }

  /** What a call in step is answered from. */
  lemma CallAnswered(c: Command.Command, reply: Result<Reply, ReplyError>, said: seq<bytes>, replies: seq<bytes>)
    requires said == [c.Serialize()] && replies != [] && OneResponse(replies[0])
    requires ReadResponse(replies[0]).Parsed?
    requires Answered(c, ReadResponse(replies[0]).value, reply)
    ensures AnsweredBy(Ask(c), Told(reply), said, replies[..|said|])
  {
    hide ReadResponse, Answered, Command.Command.Serialize;
  }

  lemma CallKeeps(c: Command.Command, said: seq<bytes>, replies: seq<bytes>)
    requires said == [c.Serialize()] && Keeps(said, replies) && !c.Authenticate?
    ensures replies != [] && OneResponse(replies[0]) && ReadResponse(replies[0]).Parsed?
  {
    hide ReadResponse, OneLine, Command.Command.Serialize, CallsForLine;
    CommandCallsForResponse(c);
    assert Suits(said[0], replies[0]);
  }

  lemma LoginAnswered(m: Mechanism, opts: Options, t: Transcript, replies: seq<bytes>)
    requires SignsIn(m, opts, replies, t) && Understood(t.result)
    ensures AnsweredBy(SignIn(m, opts), SignedIn(t.result), t.writes, replies)
  {
    hide SignsIn, Understood;
    assert t == Transcript(t.writes, t.heard, t.result);
  }

  lemma KeepsEnough(said: seq<bytes>, replies: seq<bytes>)
    requires Keeps(said, replies)
    ensures |said| <= |replies|
  {
  }

  /** One call of a session. */
  method Perform(client: ClientStd, request: Request) returns (answer: Answer, ghost mine: seq<bytes>)
    requires request.Ask? ==> !request.command.Authenticate?
    modifies client.stream
    ensures client.stream.written == old(client.stream.written) + mine
    ensures client.stream.replies == Left(old(client.stream.replies), |mine|)
    ensures var replies := old(client.stream.replies);
            old(client.stream.pending) == [] && Keeps(mine, replies) ==>
              client.stream.pending == [] && |mine| <= |replies| && AnsweredBy(request, answer, mine, replies[..|mine|])
  {
    hide AnsweredBy, SignsIn, Keeps, Run, Flatten, Understood, Answered, OneResponse, Command.Command.Serialize;
    hide NonEmptyChunks;
    hide ReadResponse;
    ghost var start, replies := client.stream.pending, client.stream.replies;
    ghost var got: seq<bytes>;
    match request {
      case Ask(c) =>
        var reply;
        reply, got := client.Call(c);
        mine := [c.Serialize()];
        answer := Told(reply);
        if start == [] && Keeps(mine, replies) {
          CallKeeps(c, mine, replies);
          CallAnswered(c, reply, mine, replies);
        }
      case SignIn(m, opts) =>
        ghost var heard;
        var result;
        result, got, mine, heard := client.Login(m, opts);
        answer := SignedIn(result);
        if start == [] && Keeps(mine, replies) {
          KeepsEnough(mine, replies);
          LoginAnswered(m, opts, Transcript(mine, heard, result), replies[..|mine|]);
        }
    }
  }

  /** A session stays in step. When nothing was unread at the start and the
      server gives every write the line or the response it calls for, each call
      is answered from exactly the replies to its own writes, in order, and
      nothing is unread at the end, whatever the calls were answered. */
  method Session(client: ClientStd, requests: seq<Request>) returns (answers: seq<Answer>, ghost said: seq<seq<bytes>>)
    requires forall i :: 0 <= i < |requests| && requests[i].Ask? ==> !requests[i].command.Authenticate?
    modifies client.stream
    ensures client.stream.written == old(client.stream.written) + All(said)
    ensures old(client.stream.pending) == [] && Keeps(All(said), old(client.stream.replies)) ==>
              client.stream.pending == [] && EachAnswered(requests, answers, said, old(client.stream.replies))
    decreases |requests|
  {
    hide AnsweredBy, Keeps;
    if requests == [] {
      return [], [];
    }
    ghost var start, replies := client.stream.pending, client.stream.replies;
    var answer, others;
    ghost var mine, theirs;
    answer, mine := Perform(client, requests[0]);
    others, theirs := Session(client, requests[1..]);
    answers, said := [answer] + others, [mine] + theirs;
    if start == [] && Keeps(All(said), replies) {
      KeepsParted(mine, All(theirs), replies);
    }
  }
}
