/** What the replies keep of a response that was read off a stream. */
module ReplyProperties {
  import opened Bytes
  import opened Scanner
  import opened Response
  import opened Reader
  import opened Replies
  import ResponsePrefix

  /** The capability set and the script list of a parsed response have one
      entry for each data line, and a script is missing only when there is no
      data line at all. */
  lemma NoDataLineIsLost(buf: bytes, trailing: bytes)
    requires ReadResponse(buf).Parsed? && ReadResponse(buf).value.completion.status == Ok
    ensures var data := ReadResponse(buf).value.data;
            var r := Success(ReadOk(ReadResponse(buf).value, trailing));
            CapabilityReply(r).Success? && |CapabilityReply(r).value.entries| == |data|
            && ListScriptsReply(r).Success? && |ListScriptsReply(r).value| == |data|
            && (GetScriptReply(r) == Failure(MissingScript) <==> data == [])
            && (data != [] ==> GetScriptReply(r) == Success(data[0].StringAt(0).value))
  {
    hide ReadResponse, ReadCapabilities, ReadScripts;
    ResponsePrefix.DataOpensOnString(buf);
    EveryLineIsRead(ReadResponse(buf).value.data);
  }
}
