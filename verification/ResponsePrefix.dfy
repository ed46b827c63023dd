/** Complete responses form a prefix code, through literals, escapes and
    multi-line responses. */
module ResponsePrefix {
  import opened Bytes
  import opened Scanner
  import opened Response
  import ScannerPrefix

  lemma LineStable(buf: bytes, more: bytes)
    requires ReadLine(buf) != Incomplete
    ensures ReadLine(buf + more) == ReadLine(buf)
  {
    hide Scan, Classify;
    ScannerPrefix.ScanStable(buf, more);
  }

  lemma LineLocal(buf: bytes)
    requires ReadLine(buf).Parsed?
    ensures ReadLine(buf[..ReadLine(buf).consumed]) == ReadLine(buf)
  {
    hide Scan, Classify;
    ScannerPrefix.ScanLocal(buf);
  }

  /** A verdict on a response is unchanged by any octets that follow. */
  lemma {:induction false} ResponseStable(buf: bytes, more: bytes)
    requires ReadResponse(buf) != Incomplete
    ensures ReadResponse(buf + more) == ReadResponse(buf)
    decreases |buf|
  {
    hide ReadLine;
    LineStable(buf, more);
    match ReadLine(buf)
    case Parsed(Data(line), n) =>
      assert (buf + more)[n..] == buf[n..] + more;
      ResponseStable(buf[n..], more);
    case _ =>
  }

  /** A response is reproduced from the octets it consumed. */
  lemma {:induction false} ResponseLocal(buf: bytes)
    requires ReadResponse(buf).Parsed?
    ensures ReadResponse(buf[..ReadResponse(buf).consumed]) == ReadResponse(buf)
    decreases |buf|
  {
    hide ReadLine;
    var m := ReadResponse(buf).consumed;
    var n := ReadLine(buf).consumed;
    LineLocal(buf);
    assert n <= m;
    assert buf[..m] == buf[..n] + buf[n..m];
    LineStable(buf[..n], buf[n..m]);
    if ReadLine(buf).value.Data? {
      ResponseLocal(buf[n..]);
      assert buf[..m][n..] == buf[n..][..m - n];
    }
  }

  /** Any prefix shorter than the response is incomplete. */
  lemma ResponsePrefix(buf: bytes, k: nat)
    requires ReadResponse(buf).Parsed? && k < ReadResponse(buf).consumed
    ensures ReadResponse(buf[..k]) == Incomplete
  {
    hide ReadResponse;
    assert buf[..k] + buf[k..] == buf;
    if ReadResponse(buf[..k]) != Incomplete {
      ResponseStable(buf[..k], buf[k..]);
      assert false;
    }
  }

  lemma LinePrefix(buf: bytes, k: nat)
    requires ReadLine(buf).Parsed? && k < ReadLine(buf).consumed
    ensures ReadLine(buf[..k]) == Incomplete
  {
    hide ReadLine;
    assert buf[..k] + buf[k..] == buf;
    if ReadLine(buf[..k]) != Incomplete {
      LineStable(buf[..k], buf[k..]);
      assert false;
    }
  }

  /** No response is a proper prefix of another: the code is uniquely
      decodable. */
  lemma PrefixFree(a: bytes, b: bytes)
    requires ReadResponse(a).Parsed? && ReadResponse(a).consumed == |a|
    requires ReadResponse(b).Parsed? && ReadResponse(b).consumed == |b|
    requires a <= b
    ensures a == b
  {
    hide ReadResponse;
    assert b[..|a|] == a;
    if |a| < |b| {
      ResponsePrefix(b, |a|);
      assert false;
    }
  }

  /** Every data line of a response opens on a string. */
  lemma {:induction false} DataOpensOnString(buf: bytes)
    requires ReadResponse(buf).Parsed?
    ensures forall i :: 0 <= i < |ReadResponse(buf).value.data| ==>
              ReadResponse(buf).value.data[i].StringAt(0).Some?
    decreases |buf|
  {
    hide ReadLine;
    match ReadLine(buf)
    case Parsed(Data(line), n) =>
      LineOpensOnString(buf);
      DataOpensOnString(buf[n..]);
    case _ =>
  }

  lemma LineOpensOnString(buf: bytes)
    requires ReadLine(buf).Parsed? && ReadLine(buf).value.Data?
    ensures ReadLine(buf).value.line.StringAt(0).Some?
  {
    hide Scan, ReadCompletion;
    var tokens := Scan(buf).value;
    assert tokens[0].String?;
  }
}
