/** Responses a server prints, read back: completions with a flat code, its
    argument and a text, data lines, and whole responses. */
module PrintedResponse {
  import opened Bytes
  import opened Scanner
  import opened Response
  import opened Printer
  import opened Words
  import opened CodeMeaning
  import opened Meaning
  import RoundTrip

  // -------------------------------------------------------------------------
  // Codes
  // -------------------------------------------------------------------------

  /** The word a listed code goes by, its detail included. */
  function CodeWord(code: Code): string
    requires !code.Other?
  {
    match code
    case AuthTooWeak => "AUTH-TOO-WEAK"
    case EncryptNeeded => "ENCRYPT-NEEDED"
    case QuotaReached(None) => "QUOTA"
    case QuotaReached(Some(MaxScripts)) => "QUOTA/MAXSCRIPTS"
    case QuotaReached(Some(MaxSize)) => "QUOTA/MAXSIZE"
    case Referral(_) => "REFERRAL"
    case Sasl(_) => "SASL"
    case TransitionNeeded => "TRANSITION-NEEDED"
    case TryLater => "TRYLATER"
    case Active => "ACTIVE"
    case Nonexistent => "NONEXISTENT"
    case AlreadyExists => "ALREADYEXISTS"
    case Warnings => "WARNINGS"
    case Tag(_) => "TAG"
  }

  function CodeName(code: Code): bytes {
    if code.Other? then code.name else Ascii(CodeWord(code))
  }

  /** The tokens of a code: its name, and the string it carries. */
  function CodeTokens(code: Code): seq<Token> {
    [Atom(CodeName(code))]
    + match code
      case Referral(url) => [String(url)]
      case Sasl(data) => [String(data)]
      case Tag(tag) => [String(tag)]
      case _ => []
  }

  /** A name no code of the protocol goes by, up to case and detail. */
  ghost predicate Unknown(name: bytes) {
    exists k: nat :: HeadEnds(name, k) && Unlisted(name[..k])
  }

  lemma SpellsItself(word: string)
    requires IsCapital(word)
    ensures SpelledAs(Ascii(word), word) && HeadEnds(Ascii(word), |word|) && Ascii(word)[..|word|] == Ascii(word)
  {
    forall i | 0 <= i < |word|
      ensures Ascii(word)[i] == word[i] as int != '/' as int
    {
      assert word[i] == '-' || 'A' <= word[i] <= 'Z';
    }
  }

  /** Every code reads back from its tokens, an unlisted one if and only if no
      listed one goes by its name. */
  lemma CodeReadsBack(code: Code)
    ensures ReadCode(CodeTokens(code)) == Success(code) <==> (code.Other? ==> Unknown(code.name))
  {
    hide ReadCode, Ascii, SpelledAs, HeadEnds, CodeWord;
    CodeIsMeant(CodeTokens(code), code);
    if code.Other? {
      assert CodeTokens(code)[0] == Atom(code.name);
    } else if code.QuotaReached? && code.detail.Some? {
      DetailIsMeant(code);
    } else {
      ListedIsMeant(code);
    }
  }

  lemma ListedIsMeant(code: Code)
    requires !code.Other? && !(code.QuotaReached? && code.detail.Some?)
    ensures IsCode(CodeTokens(code), code)
  {
    hide Ascii, SpelledAs, HeadEnds;
    WordIsCapital(code);
    SpellsItself(CodeWord(code));
    assert IsCodeHeaded(CodeTokens(code), |CodeWord(code)|, code);
  }

  lemma WordIsCapital(code: Code)
    requires !code.Other? && !(code.QuotaReached? && code.detail.Some?)
    ensures IsCapital(CodeWord(code))
  {
  }

  /** QUOTA with a detail. */
  lemma DetailIsMeant(code: Code)
    requires code.QuotaReached? && code.detail.Some?
    ensures IsCode(CodeTokens(code), code)
  {
    hide SpelledAs, Ascii, HeadEnds;
    var name := CodeName(code);
    var detail := if code.detail.value.MaxScripts? then "MAXSCRIPTS" else "MAXSIZE";
    DetailIsSplit(code, detail);
    SpellsItself("QUOTA");
    SpellsItself(detail);
    DetailSpelled(name[6..]);
    assert IsCodeHeaded(CodeTokens(code), 5, code);
  }

  lemma DetailIsSplit(code: Code, detail: string)
    requires code.QuotaReached? && code.detail.Some?
    requires detail == if code.detail.value.MaxScripts? then "MAXSCRIPTS" else "MAXSIZE"
    ensures var name := CodeName(code);
            |name| > 5 && HeadEnds(name, 5) && name[..5] == Ascii("QUOTA") && name[6..] == Ascii(detail)
  {
  }

  // -------------------------------------------------------------------------
  // Lines
  // -------------------------------------------------------------------------

  function StatusName(status: Status): bytes {
    match status
    case Ok => Ascii("OK")
    case No => Ascii("NO")
    case Bye => Ascii("BYE")
  }

  /** The tokens of a completion: its status, its code between parentheses, and
      its text. */
  function CompletionTokens(c: Completion): seq<Token> {
    [Atom(StatusName(c.status))]
    + (if c.code.Some? then [Open] + CodeTokens(c.code.value) + [Close] else [])
    + (if c.text.Some? then [String(c.text.value)] else [])
  }

  /** A completion whose code, when unlisted, takes no listed name. */
  ghost predicate Printable(c: Completion) {
    c.code.Some? && c.code.value.Other? ==> Unknown(c.code.value.name)
  }

  function LineTokens(line: DataLine): seq<Token> {
    seq(|line.tokens|, i requires 0 <= i < |line.tokens| =>
      match line.tokens[i] case Text(octets) => String(octets) case Word(octets) => Atom(octets))
  }

  lemma StatusReadsBack(status: Status)
    ensures ReadStatus(StatusName(status)) == Some(status)
  {
    hide Ascii, ReadStatus, SpelledAs;
    SpellsItself("OK");
    SpellsItself("NO");
    SpellsItself("BYE");
    StatusIsMeant(StatusName(status), status);
  }

  /** The first closing parenthesis is the one that was put there. */
  lemma {:induction false} CloseIsFound(tokens: seq<Token>, rest: seq<Token>)
    requires Close !in tokens
    ensures FirstClose(tokens + [Close] + rest) == Some(|tokens|)
  {
    var all := tokens + [Close] + rest;
    if tokens != [] {
      assert all[1..] == tokens[1..] + [Close] + rest;
      CloseIsFound(tokens[1..], rest);
    }
  }

  lemma CompletionReadsBack(c: Completion)
    requires Printable(c)
    ensures Classify(CompletionTokens(c)) == Success(Final(c))
  {
    hide CodeTokens, StatusName, ReadStatus, ReadCode, FirstClose, Unknown;
    var tokens := CompletionTokens(c);
    var text := if c.text.Some? then [String(c.text.value)] else [];
    StatusReadsBack(c.status);
    if c.code.Some? {
      var code := CodeTokens(c.code.value);
      CodeReadsBack(c.code.value);
      CodeHasNoClose(c.code.value);
      CloseIsFound(code, text);
      assert tokens[2..] == code + [Close] + text;
      assert tokens[2..2 + |code|] == code && tokens[3 + |code|..] == text;
    } else {
      assert tokens[1..] == text;
    }
  }

  lemma CodeHasNoClose(code: Code)
    ensures Close !in CodeTokens(code)
  {
    hide CodeName;
  }

  lemma {:induction false} TokensReadBack(data: seq<DataToken>)
    ensures ReadData(LineTokens(DataLine(data))) == Success(data)
  {
    var tokens := LineTokens(DataLine(data));
    if data != [] {
      TokensReadBack(data[1..]);
      assert tokens[1..] == LineTokens(DataLine(data[1..]));
      assert [data[0]] + data[1..] == data;
    }
  }

  /** A line a server prints, with any gaps between its tokens and each string
      quoted or literal, reads back as the line of its tokens. */
  lemma LineReadsBack(pieces: seq<Piece>, line: Line, tail: bytes)
    requires ValidLine(pieces) && Fits(pieces) && Classify(Tokens(pieces)) == Success(line)
    ensures ReadLine(Render(pieces) + CRLF + tail) == Parsed(line, |Render(pieces) + CRLF|)
  {
    hide Scan, Render, Tokens, Classify, ValidLine, Fits;
    RoundTrip.ScanUndoesPrinting(pieces, tail);
  }

  // -------------------------------------------------------------------------
  // Whole responses
  // -------------------------------------------------------------------------

  /** The pieces print the tokens, on one line a scanner reads. */
  predicate Prints(pieces: seq<Piece>, tokens: seq<Token>) {
    ValidLine(pieces) && Fits(pieces) && Tokens(pieces) == tokens
  }

  /** The lines print the data and the last one the completion; every data line
      opens on a string. */
  ghost predicate PrintsResponse(lines: seq<seq<Piece>>, last: seq<Piece>, r: Response) {
    && |lines| == |r.data|
    && (forall i :: 0 <= i < |lines| ==> r.data[i].StringAt(0).Some? && Prints(lines[i], LineTokens(r.data[i])))
    && Prints(last, CompletionTokens(r.completion)) && Printable(r.completion)
  }

  function RenderResponse(lines: seq<seq<Piece>>, last: seq<Piece>): bytes {
    if lines == [] then Render(last) + CRLF
    else Render(lines[0]) + CRLF + RenderResponse(lines[1..], last)
  }

  lemma DataLineReadsBack(pieces: seq<Piece>, line: DataLine, tail: bytes)
    requires line.StringAt(0).Some? && Prints(pieces, LineTokens(line))
    ensures ReadLine(Render(pieces) + CRLF + tail) == Parsed(Data(line), |Render(pieces) + CRLF|)
  {
    hide Render, Tokens, ValidLine, Fits, ReadData;
    TokensReadBack(line.tokens);
    assert LineTokens(line)[0].String?;
    LineReadsBack(pieces, Data(line), tail);
  }

  /** Any response, however its tokens are spaced and its strings printed, reads
      back as that response and nothing more, whatever follows it. */
  lemma {:induction false} ResponseReadsBack(lines: seq<seq<Piece>>, last: seq<Piece>, r: Response, tail: bytes)
    requires PrintsResponse(lines, last, r)
    ensures ReadResponse(RenderResponse(lines, last) + tail) == Parsed(r, |RenderResponse(lines, last)|)
    decreases |lines|
  {
    hide Render, ReadLine, CompletionTokens, LineTokens, Prints, Printable, Classify;
    if lines == [] {
      FinalReadsBack(last, r.completion, tail);
      assert r.data == [];
    } else {
      var rest := Response(r.data[1..], r.completion);
      var head, more := Render(lines[0]) + CRLF, RenderResponse(lines[1..], last);
      ResponseReadsBack(lines[1..], last, rest, tail);
      DataLineReadsBack(lines[0], r.data[0], more + tail);
      assert head + more + tail == head + (more + tail);
      assert (head + (more + tail))[|head|..] == more + tail;
      assert [r.data[0]] + r.data[1..] == r.data;
    }
  }

  lemma FinalReadsBack(pieces: seq<Piece>, c: Completion, tail: bytes)
    requires Prints(pieces, CompletionTokens(c)) && Printable(c)
    ensures ReadLine(Render(pieces) + CRLF + tail) == Parsed(Final(c), |Render(pieces) + CRLF|)
  {
    hide Render, Tokens, ValidLine, Fits, CompletionTokens, Classify, Printable;
    CompletionReadsBack(c);
    LineReadsBack(pieces, Final(c), tail);
  }
}
