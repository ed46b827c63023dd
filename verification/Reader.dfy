/** Where every exchange with the server bottoms out (src/send.rs): a reader of
    responses, and the same reader with a command in front of it. */
module Reader {
  import opened Bytes
  import opened Scanner
  import opened Response

  /** The octets one response may occupy. */
  const MAX_RESPONSE: nat := MAX_LITERAL + 1024 * 1024

  /** The longest slice that can still be appended to a reader's buffer. */
  const CHUNK_MAX: nat := ISIZE_MAX - MAX_RESPONSE

  datatype SendError = Eof | ResponseTooLarge | Malformed(error: ParseError)

  datatype ReadOk = ReadOk(response: Response, trailing: bytes)

  type ReadResult = Result<ReadOk, SendError>

  /** What a coroutine answers when resumed. */
  datatype Progress<+T> = WantsRead | WantsWrite(octets: bytes) | Complete(result: T)

  predicate Readable(arg: Option<bytes>) {
    arg.Some? ==> |arg.value| <= CHUNK_MAX
  }

  // -------------------------------------------------------------------------
  // One resume
  // -------------------------------------------------------------------------

  /** A reader holding `buf` is resumed with a chunk: `[]` is the end of the
      stream. */
  function Feed(buf: bytes, data: bytes): (bytes, Progress<ReadResult>) {
    if data == [] then (buf, Complete(Failure(Eof)))
    else
      match ReadResponse(buf + data)
      case Failed(e) => (buf + data, Complete(Failure(Malformed(e))))
      case Parsed(r, n) => ((buf + data)[..n], Complete(Success(ReadOk(r, (buf + data)[n..]))))
      case Incomplete =>
        (buf + data, if |buf + data| > MAX_RESPONSE then Complete(Failure(ResponseTooLarge)) else WantsRead)
  }

  function ReadStep(buf: bytes, arg: Option<bytes>): (bytes, Progress<ReadResult>) {
    match arg
    case None => (buf, WantsRead)
    case Some(data) => Feed(buf, data)
  }

  /** A command coroutine between two resumes. */
  datatype Sending = Sending(unsent: Option<bytes>, buf: bytes)

  /** The argument that accompanies the write is dropped unread. */
  function SendStep(s: Sending, arg: Option<bytes>): (Sending, Progress<ReadResult>) {
    match s.unsent
    case Some(octets) => (s.(unsent := None), WantsWrite(octets))
    case None =>
      var (buf, progress) := ReadStep(s.buf, arg);
      (s.(buf := buf), progress)
  }

  /** Reads one response. */
  class ResponseRead {
    var wantsRead: bool
    var buf: bytes

    /** The invariant between two resumes: no request is pending, and the
        reader never waits holding more than the ceiling. */
    ghost predicate Valid()
      reads this
    {
      !wantsRead && |buf| <= MAX_RESPONSE
    }

    constructor ()
      ensures Valid() && buf == []
    {
      wantsRead := false;
      buf := [];
    }

    method Resume(arg: Option<bytes>) returns (out: Progress<ReadResult>)
      requires Valid() && Readable(arg)
      modifies this
      ensures (buf, out) == ReadStep(old(buf), arg)
      ensures !out.Complete? ==> Valid()
    {
      hide ReadResponse;
      var taken := arg;
      while true
        invariant wantsRead ==> |buf| <= MAX_RESPONSE && ReadStep(old(buf), arg) == (buf, WantsRead)
        invariant !wantsRead ==> taken == arg && buf == old(buf)
        decreases !wantsRead
      {
        if wantsRead {
          wantsRead := false;
          return WantsRead;
        }
        match taken {
          case None =>
            wantsRead := true;
            continue;
          case Some(data) =>
            taken := None;
            if data == [] {
              return Complete(Failure(Eof));
            }
            buf := buf + data;
        }
        var parsed := ParseResponse(buf);
        match parsed {
          case Failed(e) => return Complete(Failure(Malformed(e)));
          case Incomplete =>
            if |buf| > MAX_RESPONSE {
              return Complete(Failure(ResponseTooLarge));
            }
            wantsRead := true;
          case Parsed(response, consumed) =>
            var trailing := buf[consumed..];
            buf := buf[..consumed];
            return Complete(Success(ReadOk(response, trailing)));
        }
      }
    }
  }

  /** Writes one command, then reads its response. */
  class CommandSend {
    var unsent: Option<bytes>
    const read: ResponseRead

    ghost predicate Valid()
      reads this, read
    {
      read.Valid()
    }

    ghost function State(): Sending
      reads this, read
    {
      Sending(unsent, read.buf)
    }

    constructor (octets: bytes)
      ensures Valid() && fresh(read)
      ensures State() == Sending(Some(octets), [])
    {
      unsent := Some(octets);
      read := new ResponseRead();
    }

    method Resume(arg: Option<bytes>) returns (out: Progress<ReadResult>)
      requires Valid() && Readable(arg)
      modifies this, read
      ensures (State(), out) == SendStep(old(State()), arg)
      ensures !out.Complete? ==> Valid()
    {
      hide ReadStep;
      if unsent.Some? {
        var octets := unsent.value;
        unsent := None;
        return WantsWrite(octets);
      }
      out := read.Resume(arg);
    }
  }
}
