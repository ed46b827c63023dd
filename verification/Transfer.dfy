/** Uploading a script and downloading it again is the identity, through two
    calls of one client. */
module Transfer {
  import opened Bytes
  import opened Scanner
  import opened Response
  import opened Reader
  import opened Replies
  import opened Calls
  import opened Client
  import opened Draining
  import opened PrintedReply
  import Command
  import CommandLine
  import Decimal
  import R = Reading

  /** A server stores the second argument of PUTSCRIPT, the exact octets of the
      script it is sent. */
  lemma ServerStoresTheScript(name: bytes, script: bytes)
    requires |name| <= MAX_LITERAL && |script| <= MAX_LITERAL
    ensures CommandLine.SecondArgument(Command.Command.PutScript(name, script).Serialize()) == Some(script)
  {
    hide Scan, Command.Command.Serialize, Ascii;
    var c := Command.Command.PutScript(name, script);
    CommandLine.CommandScansBack(c, []);
    assert c.Serialize() + [] == c.Serialize();
  }

  /** The reply carrying a script fits the ceiling of a response. */
  lemma ScriptReplyFits(script: bytes, plus: bool)
    requires |script| <= MAX_LITERAL
    ensures |ScriptReply(script, plus)| <= MAX_RESPONSE
  {
    hide Decimal.Print;
    assert Decimal.Power10(7) == 10_000_000 by {
      assert Decimal.Power10(3) == 1000;
      assert Decimal.Power10(5) == 100_000;
    }
    Decimal.PrintLength(|script|, 7);
  }

  /** The reply carries the script: one response, an OK, whose first line opens
      on the octets of the script, in whatever spelling. */
  predicate Carries(reply: bytes, script: bytes) {
    && OneResponse(reply) && ReadResponse(reply).Parsed?
    && var r := ReadResponse(reply).value;
       r.completion.status == Ok && r.data != [] && OpensOnString(r.data[0], script)
  }

  /** The script written as a literal and then a bare OK is such a reply. */
  lemma ScriptReplyCarries(script: bytes, plus: bool)
    requires |script| <= MAX_LITERAL
    ensures Carries(ScriptReply(script, plus), script)
  {
    hide ReadResponse, ScriptReply;
    ScriptReplyReads(script, plus);
    ScriptReplyFits(script, plus);
  }

  lemma CarriedIsFetched(name: bytes, r: Response, script: bytes, outcome: Result<Reply, ReplyError>)
    requires r.completion.status == Ok && r.data != [] && OpensOnString(r.data[0], script)
    requires Answered(Command.Command.GetScript(name), r, outcome)
    ensures outcome == Success(Fetched(script))
  {
  }

  /** For every script a scanner reads, under every cut of the server's reply,
      what is downloaded is what was uploaded. */
  lemma DownloadIsWhatWasUploaded(name: bytes, script: bytes, stored: bytes, reply: bytes, chunks: seq<bytes>,
                                  outcome: Result<Reply, ReplyError>)
    requires |name| <= MAX_LITERAL && |script| <= MAX_LITERAL && NonEmptyChunks(chunks)
    requires CommandLine.SecondArgument(Command.Command.PutScript(name, script).Serialize()) == Some(stored)
    requires Carries(reply, stored) && Flatten(chunks) == reply
    requires Concludes(Command.Command.GetScript(name), R.Drive([], chunks).result, outcome)
    ensures outcome == Success(Fetched(script))
  {
    hide CommandLine.SecondArgument, ReadResponse, R.Drive, Command.Command.Serialize, NonEmptyChunks, Flatten;
    hide Answered;
    ServerStoresTheScript(name, script);
    R.ResponseReadUnderEveryCut(chunks);
    CarriedIsFetched(name, ReadResponse(reply).value, script, outcome);
  }

  /** Uploads a script and downloads it again. In step with a server that
      accepts the upload and then sends back the script it scanned from the line
      it was written, what comes back is what was sent, octet for octet, and
      nothing is unread. */
  method UploadThenDownload(client: ClientStd, name: bytes, script: bytes, ghost stored: bytes)
    returns (put: Result<Reply, ReplyError>, got: Result<Reply, ReplyError>)
    requires |name| <= MAX_LITERAL && |script| <= MAX_LITERAL
    modifies client.stream
    ensures |client.stream.written| == |old(client.stream.written)| + 2
    ensures var replies, upload := old(client.stream.replies), client.stream.written[|old(client.stream.written)|];
            && old(client.stream.pending) == [] && |replies| >= 2 && OneResponse(replies[0])
            && ReadResponse(replies[0]).Parsed? && ReadResponse(replies[0]).value.completion.status == Ok
            && CommandLine.SecondArgument(upload) == Some(stored) && Carries(replies[1], stored) ==>
              put.Success? && got == Success(Fetched(script)) && client.stream.pending == []
  {
    hide ReadResponse, OneResponse, CommandLine.SecondArgument, Command.Command.Serialize;
    ghost var chunks;
    put, chunks := client.Call(Command.Command.PutScript(name, script));
    got, chunks := client.Call(Command.Command.GetScript(name));
    ServerStoresTheScript(name, script);
  }
}
