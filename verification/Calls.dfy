/** What a command answers its caller, said of the lines of the response, and
    the proof that it is what each command makes of it. */
module Calls {
  import opened Bytes
  import opened Response
  import opened Reader
  import opened Replies
  import opened Words
  import Command
  import R = Reading
  import ResponsePrefix

  datatype Reply =
    | Accepted
    | Advertised(capabilities: Capabilities)
    | Listed(scripts: seq<Script>)
    | Fetched(script: bytes)
    | Warned(warnings: Option<bytes>)
    | Tagged(tag: Option<bytes>)

  function Lift<T>(r: Result<T, ReplyError>, f: T -> Reply): Result<Reply, ReplyError> {
    match r
    case Failure(e) => Failure(e)
    case Success(value) => Success(f(value))
  }

  /** How each command reads the response to it. */
  function Interpret(c: Command.Command, r: ReadResult): Result<Reply, ReplyError> {
    match c
    case Capability => Lift(CapabilityReply(r), capabilities => Advertised(capabilities))
    case StartTls => Lift(StartTlsReply(r), _ => Accepted)
    case ListScripts => Lift(ListScriptsReply(r), scripts => Listed(scripts))
    case GetScript(_) => Lift(GetScriptReply(r), script => Fetched(script))
    case PutScript(_, _) => Lift(PutScriptReply(r), warnings => Warned(warnings))
    case CheckScript(_) => Lift(PutScriptReply(r), warnings => Warned(warnings))
    case Noop(_) => Lift(NoopReply(r), tag => Tagged(tag))
    case _ => Lift(PlainReply(r), _ => Accepted)
  }

  // -------------------------------------------------------------------------
  // What the lines say
  // -------------------------------------------------------------------------

  /** The line opens on the string. */
  predicate OpensOnString(line: DataLine, octets: bytes) {
    line.tokens != [] && line.tokens[0] == Text(octets)
  }

  /** Its second token is the string, when it is given one. */
  predicate SecondString(line: DataLine, octets: Option<bytes>) {
    if |line.tokens| > 1 && line.tokens[1].Text? then octets == Some(line.tokens[1].octets) else octets == None
  }

  predicate NamesCapability(line: DataLine, capability: Capability) {
    OpensOnString(line, capability.name) && SecondString(line, capability.value)
  }

  /** Some atom of the line spells ACTIVE. */
  predicate IsMarked(line: DataLine) {
    exists i :: 0 <= i < |line.tokens| && line.tokens[i].Word? && SpelledAs(line.tokens[i].octets, "ACTIVE")
  }

  predicate NamesScript(line: DataLine, script: Script) {
    OpensOnString(line, script.name) && (script.active <==> IsMarked(line))
  }

  /** One capability for each line, in order. */
  predicate ListsCapabilities(data: seq<DataLine>, entries: seq<Capability>) {
    |entries| == |data| && forall i :: 0 <= i < |data| ==> NamesCapability(data[i], entries[i])
  }

  /** One script for each line, in order. */
  predicate ListsScripts(data: seq<DataLine>, scripts: seq<Script>) {
    |scripts| == |data| && forall i :: 0 <= i < |data| ==> NamesScript(data[i], scripts[i])
  }

  /** What an OK response tells the caller of a command. */
  predicate Tells(c: Command.Command, r: Response, reply: Reply) {
    match c
    case Capability => reply.Advertised? && ListsCapabilities(r.data, reply.capabilities.entries)
    case ListScripts => reply.Listed? && ListsScripts(r.data, reply.scripts)
    case GetScript(_) => reply.Fetched? && r.data != [] && OpensOnString(r.data[0], reply.script)
    case Noop(_) =>
      && reply.Tagged?
      && (match r.completion.code
          case Some(Tag(tag)) => reply.tag == Some(tag)
          case _ => reply.tag == None)
    case PutScript(_, _) => TellsWarnings(r.completion, reply)
    case CheckScript(_) => TellsWarnings(r.completion, reply)
    case _ => reply == Accepted
  }

  /** The text of the completion, when its code is WARNINGS. */
  predicate TellsWarnings(completion: Completion, reply: Reply) {
    && reply.Warned?
    && (if completion.code == Some(Warnings) then reply.warnings == completion.text else reply.warnings == None)
  }

  /** A rejection is reported whole; a script must be there to be fetched. */
  predicate Answered(c: Command.Command, r: Response, outcome: Result<Reply, ReplyError>) {
    if r.completion.status != Ok then outcome == Failure(Rejected(r.completion))
    else if c.GetScript? && r.data == [] then outcome == Failure(MissingScript)
    else outcome.Success? && Tells(c, r, outcome.value)
  }

  /** What a command answers its caller, from what was read. Only STARTTLS looks
      at what trails the response. */
  predicate Concludes(c: Command.Command, read: ReadResult, outcome: Result<Reply, ReplyError>) {
    match read
    case Failure(e) => outcome == Failure(Send(e))
    case Success(ok) =>
      if c.StartTls? && ok.trailing != [] then outcome == Failure(Injection)
      else Answered(c, ok.response, outcome)
  }

  // -------------------------------------------------------------------------
  // It is what each command makes of it
  // -------------------------------------------------------------------------

  lemma MarkIsSpelled(line: DataLine)
    ensures line.HasAtom(Ascii("ACTIVE")) <==> IsMarked(line)
  {
    hide Ascii, EqIgnoreCase, SpelledAs;
    forall i | 0 <= i < |line.tokens|
      ensures EqIgnoreCase(line.tokens[i].octets, Ascii("ACTIVE")) <==> SpelledAs(line.tokens[i].octets, "ACTIVE")
    {
      SpellingExactly(line.tokens[i].octets, "ACTIVE");
    }
  }

  lemma CapabilitiesListed(data: seq<DataLine>, entries: seq<Capability>)
    requires AllOpenOnStrings(data)
    ensures ReadCapabilities(data) == entries <==> ListsCapabilities(data, entries)
  {
    hide ReadCapabilities, ReadScripts, DataLine.HasAtom;
    EveryLineIsRead(data);
    forall i | 0 <= i < |data| && i < |entries|
      ensures ReadCapabilities(data)[i] == entries[i] <==> NamesCapability(data[i], entries[i])
    {
      LineNamesCapability(data[i], entries[i]);
    }
  }

  lemma LineNamesCapability(line: DataLine, capability: Capability)
    requires line.StringAt(0).Some?
    ensures Capability(line.StringAt(0).value, line.StringAt(1)) == capability <==> NamesCapability(line, capability)
  {
  }

  lemma ScriptsListed(data: seq<DataLine>, scripts: seq<Script>)
    requires AllOpenOnStrings(data)
    ensures ReadScripts(data) == scripts <==> ListsScripts(data, scripts)
  {
    hide ReadCapabilities, ReadScripts, DataLine.HasAtom, IsMarked;
    EveryLineIsRead(data);
    forall i | 0 <= i < |data| && i < |scripts|
      ensures ReadScripts(data)[i] == scripts[i] <==> NamesScript(data[i], scripts[i])
    {
      MarkIsSpelled(data[i]);
      LineNamesScript(data[i], scripts[i]);
    }
  }

  lemma LineNamesScript(line: DataLine, script: Script)
    requires line.StringAt(0).Some?
    ensures Script(line.StringAt(0).value, IsMarked(line)) == script <==> NamesScript(line, script)
  {
    hide IsMarked;
  }

  predicate ReadWhole(read: ReadResult) {
    read.Success? ==> AllOpenOnStrings(read.value.response.data)
  }

  /** An outcome is the one a command makes of what was read if and only if it
      is the one concluded from its lines. */
  lemma InterpretConcludes(c: Command.Command, read: ReadResult, outcome: Result<Reply, ReplyError>)
    requires ReadWhole(read)
    ensures Interpret(c, read) == outcome <==> Concludes(c, read, outcome)
  {
    hide ReadCapabilities, ReadScripts, ListsCapabilities, ListsScripts;
    if read.Success? && read.value.response.completion.status == Ok {
      var data := read.value.response.data;
      if outcome.Success? && outcome.value.Advertised? {
        CapabilitiesListed(data, outcome.value.capabilities.entries);
      }
      if outcome.Success? && outcome.value.Listed? {
        ScriptsListed(data, outcome.value.scripts);
      }
      if data != [] {
        assert data[0].StringAt(0).Some?;
      }
    }
  }

  /** Whatever a reader answers was read whole. */
  lemma FeedReadsWhole(buf: bytes, data: bytes)
    ensures var out := Feed(buf, data).1; out.Complete? ==> ReadWhole(out.result)
  {
    hide ReadResponse;
    if ReadResponse(buf + data).Parsed? {
      ResponsePrefix.DataOpensOnString(buf + data);
    }
  }

  lemma SendReadsWhole(s: Sending, arg: Option<bytes>)
    ensures var out := SendStep(s, arg).1; out.Complete? ==> ReadWhole(out.result)
  {
    hide Feed, ReadWhole;
    if arg.Some? {
      FeedReadsWhole(s.buf, arg.value);
    }
  }

  lemma {:induction false} DriveReadsWhole(buf: bytes, chunks: seq<bytes>)
    ensures ReadWhole(R.Drive(buf, chunks).result)
    decreases |chunks|
  {
    hide Feed, ReadWhole;
    var chunk := if chunks == [] then [] else chunks[0];
    FeedReadsWhole(buf, chunk);
    if chunks == [] {
      NothingIsWhole();
    } else if !Feed(buf, chunk).1.Complete? {
      DriveReadsWhole(Feed(buf, chunk).0, chunks[1..]);
    }
  }

  lemma NothingIsWhole()
    ensures ReadWhole(Failure(Eof))
  {
  }

  lemma ResponseReadsWhole(s: bytes, trailing: bytes)
    requires ReadResponse(s).Parsed?
    ensures ReadWhole(Success(ReadOk(ReadResponse(s).value, trailing)))
  {
    hide ReadResponse;
    ResponsePrefix.DataOpensOnString(s);
  }
}
