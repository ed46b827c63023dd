/** What a mechanism is told, in any run: the beginning of a schedule read off
    the stream of the server alone, and nothing past a refusal. */
module Schedule {
  import opened Bytes
  import opened Response
  import opened Exchange
  import opened ExchangeRun
  import Base64
  import C = ExchangeCuts
  import Consent
  import Replies

  /** The payload of a challenge, when it decodes. */
  function Challenge(line: DataLine): Option<bytes> {
    if line.StringAt(0).None? then None else Base64.Decode(line.StringAt(0).value)
  }

  /** The payload of each challenge, the first one skipped while a word is held
      back for it, up to one that does not decode; and at the end, when it is an
      OK and nothing is held back, the data riding on it and `Done`. */
  function Told(held: bool, stream: bytes): seq<SaslArg>
    decreases |stream|
  {
    match ReadLine(stream)
    case Parsed(Data(line), n) =>
      if held then Told(false, stream[n..])
      else if Challenge(line).None? then []
      else [Input(Challenge(line).value)] + Told(false, stream[n..])
    case Parsed(Final(c), _) =>
      if c.status == Ok && !held && Consent.Closing(c).Some? then Consent.Closing(c).value else []
    case _ => []
  }

  /** All it was told past `from` it accepted, but for the last of it. */
  predicate AcceptedBut(m: Mechanism, heard: seq<SaslArg>, from: nat) {
    forall i :: from < i < |heard| ==> !m.react(heard[..i]).Refuse?
  }

  // -------------------------------------------------------------------------
  // One line
  // -------------------------------------------------------------------------

  /** What one challenge adds: nothing, or its payload. */
  lemma ChallengeTells(m: Mechanism, heard: seq<SaslArg>, pending: Option<bytes>, challenge: bytes)
    ensures var r := OnChallenge(m, heard, pending, challenge);
            if pending.Some? then r.Answer? && r.heard == heard
            else if Base64.Decode(challenge).None? then r.Cancel? && r.heard == heard
            else
              && (r.Answer? || r.Cancel?) && r.heard == heard + [Input(Base64.Decode(challenge).value)]
              && (r.Answer? <==> !m.react(r.heard).Refuse?)
  {
    hide Base64.Decode, ClientResponse;
  }

  lemma CompletionTells(m: Mechanism, opts: Options, heard: seq<SaslArg>, pending: Option<bytes>, c: Completion)
    ensures var told := OnCompletion(m, opts, heard, pending, c).heard;
            var due := if c.status == Ok && pending.None? && Consent.Closing(c).Some? then Consent.Closing(c).value
                       else [];
            told <= heard + due && AcceptedBut(m, told, |heard|) && heard <= told
    ensures !OnCompletion(m, opts, heard, pending, c).Answer?
  {
    hide Base64.Decode;
    assert heard + [] == heard;
    if c.code.Some? && c.code.value.Sasl? && Base64.Decode(c.code.value.data).Some? {
      var x := Input(Base64.Decode(c.code.value.data).value);
      assert heard + [x] + [Done] == heard + [x, Done];
      assert (heard + [x] + [Done])[..|heard| + 1] == heard + [x];
    }
  }

  // -------------------------------------------------------------------------
  // A stream
  // -------------------------------------------------------------------------

  /** The reference keeps to the schedule, and stops at the first refusal. */
  lemma {:induction false} ReferenceKeepsSchedule(m: Mechanism, opts: Options, heard: seq<SaslArg>,
                                                  pending: Option<bytes>, stream: bytes, refresh: AuthResult)
    ensures var told := Reference(m, opts, heard, pending, stream, refresh).heard;
            heard <= told <= heard + Told(pending.Some?, stream) && AcceptedBut(m, told, |heard|)
    decreases |stream|
  {
    hide ReadLine, OnChallenge, OnCompletion, Challenge, Consent.Closing, AcceptedBut;
    NothingTold(m, heard);
    match ReadLine(stream)
    case Parsed(Final(c), n) => CompletionTells(m, opts, heard, pending, c);
    case Parsed(Data(line), n) =>
      DataTells(m, opts, heard, pending, line);
      var r := OnLine(m, opts, heard, pending, Data(line));
      if r.Answer? {
        ReferenceKeepsSchedule(m, opts, r.heard, None, stream[n..], refresh);
        var told := Reference(m, opts, r.heard, None, stream[n..], refresh).heard;
        if pending.None? {
          OneMoreTold(m, heard, Challenge(line).value, told, Told(false, stream[n..]));
        }
      }
    case _ =>
  }

  lemma NothingTold(m: Mechanism, heard: seq<SaslArg>)
    ensures AcceptedBut(m, heard, |heard|)
    ensures forall due: seq<SaslArg> :: heard <= heard + due
  {
  }

  lemma DataTells(m: Mechanism, opts: Options, heard: seq<SaslArg>, pending: Option<bytes>, line: DataLine)
    ensures var r := OnLine(m, opts, heard, pending, Data(line));
            if r.Answer? && pending.Some? then r.heard == heard
            else if r.Answer? then
              && Challenge(line).Some? && r.heard == heard + [Input(Challenge(line).value)]
              && !m.react(r.heard).Refuse?
            else
              && !r.Refresh? && AcceptedBut(m, r.heard, |heard|)
              && (r.heard == heard
                  || (pending.None? && Challenge(line).Some? && r.heard == heard + [Input(Challenge(line).value)]))
  {
    hide Base64.Decode, OnChallenge;
    if line.StringAt(0).Some? {
      ChallengeTells(m, heard, pending, line.StringAt(0).value);
    }
  }

  lemma OneMoreTold(m: Mechanism, heard: seq<SaslArg>, payload: bytes, told: seq<SaslArg>, due: seq<SaslArg>)
    requires heard + [Input(payload)] <= told <= heard + [Input(payload)] + due
    requires AcceptedBut(m, told, |heard| + 1) && !m.react(heard + [Input(payload)]).Refuse?
    ensures heard <= told <= heard + ([Input(payload)] + due) && AcceptedBut(m, told, |heard|)
  {
    assert heard + [Input(payload)] + due == heard + ([Input(payload)] + due);
    assert told[..|heard| + 1] == heard + [Input(payload)];
  }

  // -------------------------------------------------------------------------
  // Every run
  // -------------------------------------------------------------------------

  /** In every run, for every mechanism, option and server, under every cut and
      whatever the lengths of lines, the mechanism is told to begin, then the
      payload of each challenge in turn, then the data of the OK and its end,
      and no more once it has refused or the run has ended. */
  lemma EveryRunIsScheduled(m: Mechanism, opts: Options, chunks: seq<bytes>)
    requires NonEmptyChunks(chunks)
    ensures var heard := Run(m, opts, FRESH_AUTH, None, chunks).heard;
            heard <= [Begin] + Told(Consent.Held(m, opts).Some?, Flatten(chunks)) && AcceptedBut(m, heard, 0)
  {
    hide Run, Told, Reference, AcceptedBut, Flatten, NonEmptyChunks;
    var stream := Flatten(chunks);
    var refresh: AuthResult := Success(Replies.NO_CAPABILITIES);
    C.EveryRunBegins(m, opts, chunks, refresh);
    var heard, whole := Run(m, opts, FRESH_AUTH, None, chunks).heard, WholeExchange(m, opts, stream, refresh).heard;
    if OpenExchange(m, opts).Opening? {
      ReferenceKeepsSchedule(m, opts, [Begin], OpenExchange(m, opts).pending, stream, refresh);
      BegunIsAccepted(m, opts, whole);
    } else {
      BeginsAlone(m, whole);
    }
    AcceptedPrefix(m, heard, whole);
  }

  lemma BegunIsAccepted(m: Mechanism, opts: Options, told: seq<SaslArg>)
    requires OpenExchange(m, opts).Opening? && [Begin] <= told && AcceptedBut(m, told, 1)
    ensures AcceptedBut(m, told, 0)
    ensures OpenExchange(m, opts).pending.Some? <==> Consent.Held(m, opts).Some?
  {
    assert told[..1] == [Begin];
  }

  lemma BeginsAlone(m: Mechanism, told: seq<SaslArg>)
    requires told <= [Begin]
    ensures AcceptedBut(m, told, 0)
  {
  }

  lemma AcceptedPrefix(m: Mechanism, a: seq<SaslArg>, b: seq<SaslArg>)
    requires a <= b && AcceptedBut(m, b, 0)
    ensures AcceptedBut(m, a, 0)
  {
    forall i | 0 < i < |a|
      ensures a[..i] == b[..i]
    {
    }
  }
}
