/** How every run of AUTHENTICATE ends, its capability refresh included, under
    every cut of the stream. */
module RunEndings {
  import opened Bytes
  import opened Response
  import opened Reader
  import opened Replies
  import opened Calls
  import opened Exchange
  import opened ExchangeRun
  import opened Consent
  import opened Endings
  import C = ExchangeCuts
  import R = Reading

  // -------------------------------------------------------------------------
  // The refresh
  // -------------------------------------------------------------------------

  /** A refresh lists one capability for each line of an OK reply; it fails with
      the completion of any other, and with the error of a reply that cannot be
      read. */
  predicate RefreshEnds(reply: Result<Response, SendError>, result: AuthResult) {
    match reply
    case Failure(e) => result == Failure(RefreshFailed(ReplyError.Send(e)))
    case Success(r) =>
      if r.completion.status != Ok then result == Failure(RefreshFailed(Rejected(r.completion)))
      else result.Success? && ListsCapabilities(r.data, result.value.entries)
  }

  lemma RefreshConcludes(read: ReadResult, result: AuthResult)
    requires ReadWhole(read)
    ensures RefreshResult(read) == result <==> RefreshEnds(R.Verdict(read), result)
  {
    hide ReadCapabilities, ListsCapabilities;
    if read.Success? && result.Success? {
      CapabilitiesListed(read.value.response.data, result.value.entries);
    }
  }

  /** On chunks, and on a whole reply. */
  lemma OutcomeConcludes(chunks: seq<bytes>, result: AuthResult)
    ensures RefreshOutcome(chunks) == result <==> RefreshEnds(R.Verdict(R.Drive([], chunks).result), result)
  {
    hide R.Drive, RefreshEnds, RefreshResult, ReadWhole, R.Verdict;
    DriveReadsWhole([], chunks);
    RefreshConcludes(R.Drive([], chunks).result, result);
  }

  lemma RefreshedConcludes(s: bytes, result: AuthResult)
    ensures Refreshed(s) == result <==> RefreshEnds(R.Whole(s), result)
  {
    hide ReadResponse, RefreshEnds, RefreshResult, ReadWhole;
    var v := R.Whole(s);
    if v.Success? {
      ResponseReadsWhole(R.Window(s), []);
    } else {
      FailureReadsWhole(v.error);
    }
    RefreshConcludes(Untrailed(v), result);
    assert R.Verdict(Untrailed(v)) == v;
  }

  lemma FailureReadsWhole(e: SendError)
    ensures ReadWhole(Failure(e))
  {
  }

  /** A refresh that succeeds read an OK response off the front of its chunks,
      and lists one capability for each line of it. */
  lemma RefreshLists(chunks: seq<bytes>, seen: Capabilities)
    requires RefreshOutcome(chunks) == Success(seen)
    ensures ReadResponse(Flatten(chunks)).Parsed? && ReadResponse(Flatten(chunks)).value.completion.status == Ok
    ensures ListsCapabilities(ReadResponse(Flatten(chunks)).value.data, seen.entries)
  {
    hide ReadResponse, R.Drive, ListsCapabilities, RefreshOutcome, Flatten;
    OutcomeConcludes(chunks, Success(seen));
    R.ReadingConserves([], chunks);
    assert [] + Flatten(chunks) == Flatten(chunks);
  }

  // -------------------------------------------------------------------------
  // Every run
  // -------------------------------------------------------------------------

  /** In every run, for every mechanism, option and server, under every cut, the
      transcript is the one that the lines of the server and the replies of the
      mechanism spell out, the refresh being read from the first chunk boundary
      at or past the response; the one other outcome is to give up a line
      decided past the ceiling only. */
  lemma EveryRunTranscribes(m: Mechanism, opts: Options, chunks: seq<bytes>) returns (k: nat, refresh: AuthResult)
    requires NonEmptyChunks(chunks)
    ensures k <= |chunks| && RefreshEnds(R.Verdict(R.Drive([], chunks[k..]).result), refresh)
    ensures var stream, run := Flatten(chunks), Run(m, opts, FRESH_AUTH, None, chunks);
            || (&& Transcribes(m, opts, stream, refresh, run)
                && (opts.ensureCapabilities && Willing(m, opts, stream) ==>
                      Reaches(0, chunks, k, ReadResponse(stream).consumed)))
            || (run.result == Failure(Broken(ResponseTooLarge)) && !Decided(m, opts, stream))
  {
    hide Run, Transcribes, WholeExchange, Willing, ReadResponse, Reaches, Flatten, NonEmptyChunks, RefreshOutcome;
    hide R.Drive, RefreshEnds, Decided, C.WholePoint, FRESH_AUTH, R.Verdict;
    k := C.ExchangeUnderEveryCut(m, opts, chunks);
    refresh := RefreshOutcome(chunks[k..]);
    OutcomeConcludes(chunks[k..], refresh);
    var stream, run := Flatten(chunks), Run(m, opts, FRESH_AUTH, None, chunks);
    ExchangeTranscribes(m, opts, stream, refresh, run);
    if opts.ensureCapabilities && Willing(m, opts, stream) {
      ConsentedPoint(m, opts, stream);
    }
  }
}
