/** How each command reads the response it asked for: the greeting, STARTTLS,
    CAPABILITY and the script commands. */
module Replies {
  import opened Bytes
  import opened Response
  import opened Reader

  datatype Capability = Capability(name: bytes, value: Option<bytes>)

  datatype Capabilities = Capabilities(entries: seq<Capability>) {
    predicate Has(name: bytes) {
      exists i :: 0 <= i < |entries| && EqIgnoreCase(entries[i].name, name)
    }

    predicate StartTls() {
      Has(Ascii("STARTTLS"))
    }
  }

  const NO_CAPABILITIES := Capabilities([])

  /** The failures a command can meet. Only the two replies that gate a TLS
      upgrade look at what trails the response. */
  datatype ReplyError =
    | Rejected(completion: Completion)
    | Injection
    | MissingScript
    | Send(error: SendError)

  /** One stored script. */
  datatype Script = Script(name: bytes, active: bool)

  /** Capability lines, in order; a line without a leading string is skipped. */
  function ReadCapabilities(data: seq<DataLine>): (r: seq<Capability>)
    ensures |r| <= |data|
  {
    if data == [] then []
    else
      (match data[0].StringAt(0)
       case None => []
       case Some(name) => [Capability(name, data[0].StringAt(1))]) + ReadCapabilities(data[1..])
  }

  /** Script lines, in order, skipped likewise. */
  function ReadScripts(data: seq<DataLine>): (r: seq<Script>)
    ensures |r| <= |data|
  {
    if data == [] then []
    else
      (match data[0].StringAt(0)
       case None => []
       case Some(name) => [Script(name, data[0].HasAtom(Ascii("ACTIVE")))]) + ReadScripts(data[1..])
  }

  /** The response itself on OK, its completion otherwise. */
  function Accept(r: ReadResult): Result<Response, ReplyError> {
    match r
    case Failure(e) => Failure(Send(e))
    case Success(ok) =>
      if ok.response.completion.status == Ok then Success(ok.response)
      else Failure(Rejected(ok.response.completion))
  }

  /** A response nothing may follow. */
  function AcceptClean(r: ReadResult): Result<Response, ReplyError> {
    if r.Success? && r.value.trailing != [] then Failure(Injection) else Accept(r)
  }

  function Greeting(r: ReadResult): Result<Capabilities, ReplyError> {
    match AcceptClean(r)
    case Failure(e) => Failure(e)
    case Success(response) => Success(Capabilities(ReadCapabilities(response.data)))
  }

  function StartTlsReply(r: ReadResult): Result<(), ReplyError> {
    match AcceptClean(r)
    case Failure(e) => Failure(e)
    case Success(_) => Success(())
  }

  function CapabilityReply(r: ReadResult): Result<Capabilities, ReplyError> {
    match Accept(r)
    case Failure(e) => Failure(e)
    case Success(response) => Success(Capabilities(ReadCapabilities(response.data)))
  }

  function PutScriptReply(r: ReadResult): Result<Option<bytes>, ReplyError> {
    match Accept(r)
    case Failure(e) => Failure(e)
    case Success(response) => Success(response.completion.WarningText())
  }

  function GetScriptReply(r: ReadResult): Result<bytes, ReplyError> {
    match Accept(r)
    case Failure(e) => Failure(e)
    case Success(response) =>
      if response.data == [] || response.data[0].StringAt(0).None? then Failure(MissingScript)
      else Success(response.data[0].StringAt(0).value)
  }

  function ListScriptsReply(r: ReadResult): Result<seq<Script>, ReplyError> {
    match Accept(r)
    case Failure(e) => Failure(e)
    case Success(response) => Success(ReadScripts(response.data))
  }

  /** The tag NOOP was sent with, when the server gives it back. */
  function NoopReply(r: ReadResult): Result<Option<bytes>, ReplyError> {
    match Accept(r)
    case Failure(e) => Failure(e)
    case Success(response) =>
      var code := response.completion.code;
      Success(if code.Some? && code.value.Tag? then Some(code.value.tag) else None)
  }

  /** The reply of a command that returns nothing. */
  function PlainReply(r: ReadResult): Result<(), ReplyError> {
    match Accept(r)
    case Failure(e) => Failure(e)
    case Success(_) => Success(())
  }

  // -------------------------------------------------------------------------
  // No data line is lost
  // -------------------------------------------------------------------------

  predicate AllOpenOnStrings(data: seq<DataLine>) {
    forall i :: 0 <= i < |data| ==> data[i].StringAt(0).Some?
  }

  lemma {:induction false} EveryLineIsRead(data: seq<DataLine>)
    requires AllOpenOnStrings(data)
    ensures |ReadCapabilities(data)| == |data| && |ReadScripts(data)| == |data|
    ensures forall i :: 0 <= i < |data| ==>
              ReadCapabilities(data)[i] == Capability(data[i].StringAt(0).value, data[i].StringAt(1))
    ensures forall i :: 0 <= i < |data| ==>
              ReadScripts(data)[i] == Script(data[i].StringAt(0).value, data[i].HasAtom(Ascii("ACTIVE")))
  {
    hide Ascii, EqIgnoreCase;
    if data != [] {
      EveryLineIsRead(data[1..]);
      var c, s := ReadCapabilities(data), ReadScripts(data);
      assert c[1..] == ReadCapabilities(data[1..]) && s[1..] == ReadScripts(data[1..]);
      forall i | 0 < i < |data|
        ensures c[i] == c[1..][i - 1] && s[i] == s[1..][i - 1] && data[i] == data[1..][i - 1]
      {
      }
    }
  }
}
