/** Logical lines form a prefix code: once a prefix of a stream has been read
    as a line or refused, no later octet changes the answer, and the octets a
    line consumed are all it depends on. */
module ScannerPrefix {
  import opened Bytes
  import opened Scanner

  lemma FirstLineStable(buf: bytes, more: bytes)
    requires FirstLine(buf) != NoLine
    ensures FirstLine(buf + more) == FirstLine(buf)
  {
    hide Lex, Chomp;
    var eol := IndexOf(buf, LF).value;
    assert (buf + more)[..eol] == buf[..eol];
    IndexOfIs(buf + more, LF, eol);
  }

  lemma FirstLineLocal(buf: bytes, k: nat)
    requires FirstLine(buf).LineEnd? || FirstLine(buf).BeforeLiteral?
    requires FirstLine(buf).taken <= k <= |buf|
    ensures FirstLine(buf[..k]) == FirstLine(buf)
  {
    hide Lex, Chomp;
    var eol := IndexOf(buf, LF).value;
    assert buf[..k][..eol] == buf[..eol];
    IndexOfIs(buf[..k], LF, eol);
  }

  /** A verdict is unchanged by any octets that follow. */
  lemma {:induction false} ScanStable(buf: bytes, more: bytes)
    requires Scan(buf) != Incomplete
    ensures Scan(buf + more) == Scan(buf)
    decreases |buf|
  {
    hide FirstLine, PrependLine;
    FirstLineStable(buf, more);
    var f := FirstLine(buf);
    if f.BeforeLiteral? {
      ScanLiteral(buf);
      ScanLiteral(buf + more);
      var stop := f.taken + f.size;
      assert (buf + more)[f.taken..stop] == buf[f.taken..stop];
      assert (buf + more)[stop..] == buf[stop..] + more;
      ScanStable(buf[stop..], more);
    }
  }

  lemma ScanLiteral(buf: bytes)
    requires FirstLine(buf).BeforeLiteral?
    ensures var f := FirstLine(buf);
            Scan(buf) == Incomplete || (|buf| >= f.taken + f.size && Scan(buf[f.taken + f.size..]) != Incomplete)
  {
    hide FirstLine;
  }

  /** A line is reproduced from the octets it consumed. */
  lemma {:induction false} ScanLocal(buf: bytes)
    requires Scan(buf).Parsed?
    ensures Scan(buf[..Scan(buf).consumed]) == Scan(buf)
    decreases |buf|
  {
    hide FirstLine, PrependLine;
    var f, n := FirstLine(buf), Scan(buf).consumed;
    if f.BeforeLiteral? {
      var stop := f.taken + f.size;
      var rest := buf[stop..];
      ScanLiteralConsumed(buf);
      FirstLineLocal(buf, n);
      ScanLocal(rest);
      assert buf[..n][f.taken..stop] == buf[f.taken..stop];
      assert buf[..n][stop..] == rest[..n - stop];
    } else {
      FirstLineLocal(buf, n);
    }
  }

  lemma ScanLiteralConsumed(buf: bytes)
    requires Scan(buf).Parsed? && FirstLine(buf).BeforeLiteral?
    ensures var f := FirstLine(buf);
            |buf| >= f.taken + f.size && Scan(buf[f.taken + f.size..]).Parsed?
            && Scan(buf).consumed == f.taken + f.size + Scan(buf[f.taken + f.size..]).consumed
  {
    hide FirstLine;
  }

  /** Any prefix shorter than the line is incomplete: it is never mistaken for
      a shorter line or for an error. */
  lemma {:induction false} ScanPrefix(buf: bytes, k: nat)
    requires Scan(buf).Parsed? && k < Scan(buf).consumed
    ensures Scan(buf[..k]) == Incomplete
  {
    hide Scan;
    assert buf[..k] + buf[k..] == buf;
    if Scan(buf[..k]) != Incomplete {
      ScanStable(buf[..k], buf[k..]);
      assert false;
    }
  }
}
