/** Reading a line at a time against reading a response at once: the reply to a
    cancelled exchange is drained whole, however it arrives. */
module Draining {
  import opened Bytes
  import opened Scanner
  import opened Response
  import opened Reader
  import opened Exchange
  import ResponsePrefix

  /** Draining lines until a completion consumes exactly one response; it ends
      without one if and only if a line cannot be read, or what is left of an
      unfinished one is past the ceiling. */
  lemma {:induction false} DrainsOneResponse(buf: bytes)
    ensures ReadResponse(buf).Parsed? ==> Drain(buf) == (true, buf[ReadResponse(buf).consumed..])
    ensures ReadResponse(buf).Failed? ==> Drain(buf).0
    ensures ReadResponse(buf).Incomplete? ==> (Drain(buf).0 <==> |Drain(buf).1| > 9 * 1024 * 1024)
    decreases |buf|
  {
    hide ReadLine;
    match ReadLine(buf)
    case Parsed(Data(_), n) => DrainsOneResponse(buf[n..]);
    case _ =>
  }

  /** What was drained need not be seen again: going on with the rest is as
      good as draining everything at once. */
  lemma {:induction false} DrainingInPieces(buf: bytes, more: bytes)
    requires !Drain(buf).0
    ensures Drain(buf + more) == Drain(Drain(buf).1 + more)
    decreases |buf|
  {
    hide ReadLine;
    if ReadLine(buf).Parsed? && ReadLine(buf).value.Data? {
      var n := ReadLine(buf).consumed;
      ResponsePrefix.LineStable(buf, more);
      assert (buf + more)[n..] == buf[n..] + more;
      DrainingInPieces(buf[n..], more);
    }
  }

  /** Exactly one response, within the ceiling and one octet. */
  predicate OneResponse(s: bytes) {
    ReadResponse(s).Parsed? && ReadResponse(s).consumed == |s| <= MAX_RESPONSE + 1
  }

  /** A response still arriving is never taken for a whole one; what is left of
      it after draining is again one response. */
  lemma {:induction false} DrainsWhileArriving(buf: bytes, more: bytes)
    requires OneResponse(buf + more) && more != []
    ensures !Drain(buf).0 && OneResponse(Drain(buf).1 + more)
    decreases |buf|
  {
    hide ReadLine;
    var s := buf + more;
    assert s[..|buf|] == buf;
    ResponsePrefix.ResponsePrefix(s, |buf|);
    if ReadLine(buf).Parsed? {
      ResponsePrefix.LineStable(buf, more);
      var n := ReadLine(buf).consumed;
      assert s[n..] == buf[n..] + more;
      DrainsWhileArriving(buf[n..], more);
    }
  }
}
