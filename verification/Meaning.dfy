/** What the octets of a line and of a response mean: the grammar gives their
    tokens, and the tokens their meaning, letter by letter. */
module Meaning {
  import opened Bytes
  import opened Scanner
  import opened Response
  import opened Words
  import opened CodeMeaning
  import opened Grammar

  // -------------------------------------------------------------------------
  // Completions
  // -------------------------------------------------------------------------

  predicate IsStatus(word: bytes, status: Status) {
    match status
    case Ok => SpelledAs(word, "OK")
    case No => SpelledAs(word, "NO")
    case Bye => SpelledAs(word, "BYE")
  }

  /** The line opens on a status. */
  predicate OpensOn(tokens: seq<Token>, status: Status) {
    tokens != [] && tokens[0].Atom? && IsStatus(tokens[0].octets, status)
  }

  predicate OpensOnStatus(tokens: seq<Token>) {
    OpensOn(tokens, Ok) || OpensOn(tokens, No) || OpensOn(tokens, Bye)
  }

  /** A parenthesis right after the status opens a code. */
  predicate HasCode(tokens: seq<Token>) {
    |tokens| > 1 && tokens[1].Open?
  }

  /** The code takes up the tokens from the third one to the first closing
      parenthesis, at `end`. */
  predicate CodeEnds(tokens: seq<Token>, end: nat) {
    2 <= end < |tokens| && tokens[end].Close? && Close !in tokens[2..end]
  }

  /** The text of a completion is the string at `at`, where there is one. */
  predicate TextIs(tokens: seq<Token>, at: nat, text: Option<bytes>) {
    if at < |tokens| && tokens[at].String? then text == Some(tokens[at].octets) else text == None
  }

  ghost predicate IsCoded(tokens: seq<Token>, end: nat, c: Completion) {
    && CodeEnds(tokens, end)
    && c.code.Some? && IsCode(tokens[2..end], c.code.value) && TextIs(tokens, end + 1, c.text)
  }

  /** The tokens are a completion: a status, a code and a text. */
  ghost predicate IsCompletion(tokens: seq<Token>, c: Completion) {
    && OpensOn(tokens, c.status)
    && if HasCode(tokens) then exists end: nat :: IsCoded(tokens, end, c)
       else c.code == None && TextIs(tokens, 1, c.text)
  }

  // -------------------------------------------------------------------------
  // Data and refusals
  // -------------------------------------------------------------------------

  predicate IsDatum(token: Token, datum: DataToken) {
    || (token.String? && datum == Text(token.octets))
    || (token.Atom? && datum == Word(token.octets))
  }

  /** The tokens are data: strings and atoms, the first one a string. */
  predicate IsData(tokens: seq<Token>, line: DataLine) {
    && tokens != [] && tokens[0].String?
    && |line.tokens| == |tokens|
    && forall i :: 0 <= i < |tokens| ==> IsDatum(tokens[i], line.tokens[i])
  }

  ghost predicate Means(tokens: seq<Token>, line: Line) {
    match line
    case Data(data) => IsData(tokens, data)
    case Final(c) => IsCompletion(tokens, c)
  }

  predicate IsParenthesis(token: Token) {
    token.Open? || token.Close?
  }

  /** The first parenthesis is at `i`. */
  predicate FirstParenthesis(tokens: seq<Token>, i: nat) {
    && i < |tokens| && IsParenthesis(tokens[i])
    && forall j :: 0 <= j < i ==> !IsParenthesis(tokens[j])
  }

  /** The tokens mean nothing, and for this reason. */
  ghost predicate Meaningless(tokens: seq<Token>, e: ParseError) {
    match e
    case EmptyLine => tokens == []
    case UnexpectedByte(b) =>
      && tokens != []
      && (if tokens[0].String? then
            exists i: nat :: FirstParenthesis(tokens, i) && b == (if tokens[i].Open? then '(' else ')') as int
          else IsParenthesis(tokens[0]) && b == '(' as int)
    case UnknownStatus(word) => tokens != [] && tokens[0] == Atom(word) && !OpensOnStatus(tokens)
    case UnterminatedResponseCode => OpensOnStatus(tokens) && HasCode(tokens) && Close !in tokens[2..]
    case EmptyResponseCode =>
      && OpensOnStatus(tokens) && HasCode(tokens)
      && exists end: nat :: CodeEnds(tokens, end) && !Named(tokens[2..end])
    case _ => false
  }

  // -------------------------------------------------------------------------
  // Completions are read as meant
  // -------------------------------------------------------------------------

  lemma StatusSpelled(word: bytes)
    ensures EqIgnoreCase(word, Ascii("OK")) <==> SpelledAs(word, "OK")
    ensures EqIgnoreCase(word, Ascii("NO")) <==> SpelledAs(word, "NO")
    ensures EqIgnoreCase(word, Ascii("BYE")) <==> SpelledAs(word, "BYE")
  {
    hide Ascii, EqIgnoreCase, SpelledAs;
    SpellingExactly(word, "OK");
    SpellingExactly(word, "NO");
    SpellingExactly(word, "BYE");
  }

  lemma StatusesApart(word: bytes)
    ensures !(SpelledAs(word, "OK") && SpelledAs(word, "NO"))
    ensures !(SpelledAs(word, "OK") && SpelledAs(word, "BYE"))
    ensures !(SpelledAs(word, "NO") && SpelledAs(word, "BYE"))
  {
    assert |word| == 2 && SpelledAs(word, "OK") ==> word[0] == 79 || word[0] == 111;
    assert |word| == 2 && SpelledAs(word, "NO") ==> word[0] == 78 || word[0] == 110;
  }

  lemma StatusIsMeant(word: bytes, status: Status)
    ensures ReadStatus(word) == Some(status) <==> IsStatus(word, status)
  {
    hide Ascii, EqIgnoreCase, SpelledAs;
    StatusSpelled(word);
    StatusesApart(word);
  }

  /** A line that opens on an atom, and that atom a status. */
  lemma OpeningIsMeant(tokens: seq<Token>, status: Status)
    requires Named(tokens)
    ensures ReadStatus(tokens[0].octets) == Some(status) <==> OpensOn(tokens, status)
    ensures ReadStatus(tokens[0].octets).Some? <==> OpensOnStatus(tokens)
  {
    hide ReadStatus, IsStatus;
    var word := tokens[0].octets;
    StatusIsMeant(word, status);
    StatusIsMeant(word, Ok);
    StatusIsMeant(word, No);
    StatusIsMeant(word, Bye);
    if ReadStatus(word).Some? {
      assert ReadStatus(word).value.Ok? || ReadStatus(word).value.No? || ReadStatus(word).value.Bye?;
    }
  }

  lemma CloseIsMeant(tokens: seq<Token>, end: nat)
    requires HasCode(tokens)
    ensures CodeEnds(tokens, end) <==> end >= 2 && FirstClose(tokens[2..]) == Some(end - 2)
    ensures FirstClose(tokens[2..]).None? <==> Close !in tokens[2..]
  {
    hide FirstClose;
    var first := FirstClose(tokens[2..]);
    if first.Some? {
      assert tokens[2..][..first.value] == tokens[2..2 + first.value];
      assert tokens[2..][first.value] == tokens[2 + first.value] == Close;
    }
    if 2 <= end < |tokens| && tokens[end].Close? {
      assert tokens[2..][end - 2] == Close;
    }
  }

  lemma TextIsMeant(tokens: seq<Token>, at: nat, text: Option<bytes>)
    requires at <= |tokens|
    ensures TextIs(tokens, at, text) <==> LeadingText(tokens[at..]) == text
  {
    if at < |tokens| {
      assert tokens[at..][0] == tokens[at];
    }
  }

  /** A completion without a code. */
  lemma PlainCompletion(tokens: seq<Token>, c: Completion)
    requires Named(tokens) && !HasCode(tokens)
    ensures ReadCompletion(tokens) == Success(c) <==> IsCompletion(tokens, c)
    ensures ReadCompletion(tokens).Success? <==> OpensOnStatus(tokens)
  {
    hide ReadStatus, OpensOn, OpensOnStatus, LeadingText, TextIs, ReadCode, IsCode;
    OpeningIsMeant(tokens, c.status);
    TextIsMeant(tokens, 1, c.text);
  }

  /** A completion with a code that ends at `end`. */
  lemma CodedCompletion(tokens: seq<Token>, end: nat, c: Completion)
    requires Named(tokens) && HasCode(tokens) && CodeEnds(tokens, end) && OpensOnStatus(tokens)
    ensures ReadCompletion(tokens) == Success(c) <==> OpensOn(tokens, c.status) && IsCoded(tokens, end, c)
    ensures ReadCompletion(tokens) == Failure(EmptyResponseCode) <==> !Named(tokens[2..end])
    ensures ReadCompletion(tokens).Success? <==> Named(tokens[2..end])
  {
    hide ReadStatus, OpensOn, OpensOnStatus, LeadingText, TextIs, ReadCode, IsCode, FirstClose;
    OpeningIsMeant(tokens, c.status);
    CloseIsMeant(tokens, end);
    TextIsMeant(tokens, end + 1, c.text);
    CodeIsMeant(tokens[2..end], if c.code.Some? then c.code.value else Active);
  }

  /** A line that opens on no string is read as the completion it is. */
  lemma CompletionIsMeant(tokens: seq<Token>, c: Completion)
    ensures ReadCompletion(tokens) == Success(c) <==> IsCompletion(tokens, c)
  {
    hide ReadStatus, OpensOnStatus, LeadingText, TextIs, ReadCode, IsCode, FirstClose, IsStatus;
    if Named(tokens) {
      OpeningIsMeant(tokens, c.status);
      if !HasCode(tokens) {
        PlainCompletion(tokens, c);
      } else if OpensOnStatus(tokens) && FirstClose(tokens[2..]).Some? {
        var end := FirstClose(tokens[2..]).value + 2;
        CloseIsMeant(tokens, end);
        CodedCompletion(tokens, end, c);
        OnlyEnd(tokens, end, c);
      } else {
        NoEnd(tokens, c);
      }
    }
  }

  lemma OnlyEnd(tokens: seq<Token>, end: nat, c: Completion)
    requires HasCode(tokens) && CodeEnds(tokens, end)
    ensures (exists any: nat :: IsCoded(tokens, any, c)) <==> IsCoded(tokens, end, c)
  {
    hide FirstClose, IsCode, TextIs, CodeEnds;
    CloseIsMeant(tokens, end);
    forall any: nat | IsCoded(tokens, any, c)
      ensures any == end
    {
      CloseIsMeant(tokens, any);
    }
  }

  /** No status, or no end of the code: no completion. */
  lemma NoEnd(tokens: seq<Token>, c: Completion)
    requires Named(tokens) && HasCode(tokens)
    requires !OpensOnStatus(tokens) || FirstClose(tokens[2..]).None?
    ensures !IsCompletion(tokens, c) && ReadCompletion(tokens).Failure?
  {
    hide FirstClose, IsCode, TextIs, CodeEnds, ReadStatus, IsStatus, OpensOnStatus;
    OpeningIsMeant(tokens, c.status);
    forall any: nat
      ensures FirstClose(tokens[2..]).None? ==> !CodeEnds(tokens, any)
    {
      CloseIsMeant(tokens, any);
    }
  }

  /** A line that opens on no string is refused for the reason it has. */
  lemma CompletionIsRefused(tokens: seq<Token>, e: ParseError)
    requires tokens == [] || !tokens[0].String?
    ensures ReadCompletion(tokens) == Failure(e) <==> Meaningless(tokens, e)
  {
    hide ReadStatus, IsStatus, LeadingText, TextIs, ReadCode, IsCode, FirstClose, CodeEnds;
    var plain := Completion(Ok, None, None);
    if Named(tokens) {
      OpeningIsMeant(tokens, Ok);
      if !HasCode(tokens) {
        PlainCompletion(tokens, plain);
      } else if OpensOnStatus(tokens) {
        CloseIsMeant(tokens, 2);
        if FirstClose(tokens[2..]).Some? {
          var end := FirstClose(tokens[2..]).value + 2;
          CloseIsMeant(tokens, end);
          CodedCompletion(tokens, end, plain);
          OnlyNameless(tokens, end);
        } else {
          NoNameless(tokens);
        }
      }
    }
  }

  lemma OnlyNameless(tokens: seq<Token>, end: nat)
    requires HasCode(tokens) && CodeEnds(tokens, end)
    ensures (exists any: nat :: CodeEnds(tokens, any) && !Named(tokens[2..any])) <==> !Named(tokens[2..end])
  {
    hide FirstClose;
    CloseIsMeant(tokens, end);
    forall any: nat | CodeEnds(tokens, any)
      ensures any == end
    {
      CloseIsMeant(tokens, any);
    }
  }

  lemma NoNameless(tokens: seq<Token>)
    requires HasCode(tokens) && FirstClose(tokens[2..]).None?
    ensures forall any: nat :: !CodeEnds(tokens, any)
  {
    hide FirstClose;
    forall any: nat
      ensures !CodeEnds(tokens, any)
    {
      CloseIsMeant(tokens, any);
    }
  }

  // -------------------------------------------------------------------------
  // Data is read as meant
  // -------------------------------------------------------------------------

  predicate AreData(tokens: seq<Token>, data: seq<DataToken>) {
    |data| == |tokens| && forall i :: 0 <= i < |tokens| ==> IsDatum(tokens[i], data[i])
  }

  lemma {:induction false} DataIsMeant(tokens: seq<Token>, data: seq<DataToken>)
    ensures ReadData(tokens) == Success(data) <==> AreData(tokens, data)
  {
    if tokens == [] {
    } else if data == [] {
    } else {
      DataIsMeant(tokens[1..], data[1..]);
      AreDataCons(tokens, data);
      assert data == [data[0]] + data[1..];
      if ReadData(tokens).Success? {
        assert ReadData(tokens).value[1..] == ReadData(tokens[1..]).value;
      }
    }
  }

  lemma AreDataCons(tokens: seq<Token>, data: seq<DataToken>)
    requires tokens != [] && data != []
    ensures AreData(tokens, data) <==> IsDatum(tokens[0], data[0]) && AreData(tokens[1..], data[1..])
  {
    hide IsDatum;
    if AreData(tokens[1..], data[1..]) && IsDatum(tokens[0], data[0]) {
      forall i | 0 < i < |tokens|
        ensures IsDatum(tokens[i], data[i])
      {
        assert IsDatum(tokens[1..][i - 1], data[1..][i - 1]);
      }
    }
  }

  lemma {:induction false} DataIsRefused(tokens: seq<Token>, e: ParseError)
    ensures ReadData(tokens) == Failure(e) <==>
            exists i: nat :: FirstParenthesis(tokens, i)
              && e == UnexpectedByte((if tokens[i].Open? then '(' else ')') as int)
  {
    if tokens == [] {
    } else if IsParenthesis(tokens[0]) {
      assert FirstParenthesis(tokens, 0);
    } else {
      DataIsRefused(tokens[1..], e);
      forall i: nat
        ensures FirstParenthesis(tokens, i) <==> i > 0 && FirstParenthesis(tokens[1..], i - 1)
      {
        FirstParenthesisCons(tokens, i);
      }
      if i: nat :| FirstParenthesis(tokens[1..], i) {
        assert FirstParenthesis(tokens, i + 1) && tokens[i + 1] == tokens[1..][i];
      }
    }
  }

  lemma FirstParenthesisCons(tokens: seq<Token>, i: nat)
    requires tokens != [] && !IsParenthesis(tokens[0])
    ensures FirstParenthesis(tokens, i) <==> i > 0 && FirstParenthesis(tokens[1..], i - 1)
  {
    hide IsParenthesis;
    if i > 0 && FirstParenthesis(tokens[1..], i - 1) {
      forall j | 0 < j < i
        ensures !IsParenthesis(tokens[j])
      {
        assert tokens[1..][j - 1] == tokens[j];
      }
    }
  }

  // -------------------------------------------------------------------------
  // Lines are read as meant
  // -------------------------------------------------------------------------

  /** The tokens of a line are read as what they mean, and refused for the
      reason they mean nothing. */
  lemma LineIsMeant(tokens: seq<Token>, line: Line)
    ensures Classify(tokens) == Success(line) <==> Means(tokens, line)
  {
    hide ReadData, ReadCompletion, IsCompletion, IsDatum;
    match line
    case Data(data) => DataIsMeant(tokens, data.tokens);
    case Final(c) =>
      CompletionIsMeant(tokens, c);
      NoStringOpens(tokens, c);
  }

  lemma NoStringOpens(tokens: seq<Token>, c: Completion)
    ensures IsCompletion(tokens, c) ==> tokens != [] && !tokens[0].String?
  {
  }

  lemma LineIsRefused(tokens: seq<Token>, e: ParseError)
    ensures Classify(tokens) == Failure(e) <==> Meaningless(tokens, e)
  {
    hide ReadData, ReadCompletion, FirstParenthesis;
    if tokens != [] && tokens[0].String? {
      DataIsRefused(tokens, e);
    } else {
      CompletionIsRefused(tokens, e);
    }
  }

  /** The code, if there is one, ends and has a name. */
  ghost predicate CodeIsWhole(tokens: seq<Token>) {
    HasCode(tokens) ==> exists end: nat :: CodeEnds(tokens, end) && Named(tokens[2..end])
  }

  /** A line that opens on no string is a completion of some status if and only
      if it opens on an atom that spells the status and its code is whole. */
  lemma StatusIsRead(tokens: seq<Token>, status: Status)
    requires tokens == [] || !tokens[0].String?
    ensures (exists c :: Classify(tokens) == Success(Final(c)) && c.status == status) <==>
            OpensOn(tokens, status) && CodeIsWhole(tokens)
  {
    hide Classify, IsCode, Named, OpensOn, HasCode;
    forall c | Classify(tokens) == Success(Final(c))
      ensures OpensOn(tokens, c.status) && CodeIsWhole(tokens)
    {
      LineIsMeant(tokens, Final(c));
      if HasCode(tokens) {
        var end: nat :| IsCoded(tokens, end, c);
        CodeHasName(tokens[2..end], c.code.value);
      }
    }
    if OpensOn(tokens, status) && CodeIsWhole(tokens) {
      WholeIsRead(tokens, status);
    }
  }

  lemma CodeHasName(tokens: seq<Token>, code: Code)
    requires IsCode(tokens, code)
    ensures Named(tokens)
  {
    hide IsCodeHeaded;
  }

  lemma WholeIsRead(tokens: seq<Token>, status: Status)
    requires OpensOn(tokens, status) && CodeIsWhole(tokens)
    ensures Classify(tokens).Success? && Classify(tokens).value.Final?
    ensures Classify(tokens).value.completion.status == status
  {
    hide ReadStatus, IsStatus, LeadingText, ReadCode, FirstClose, IsCoded;
    OpeningIsMeant(tokens, status);
    if HasCode(tokens) {
      var end: nat :| CodeEnds(tokens, end) && Named(tokens[2..end]);
      CloseIsMeant(tokens, end);
      CodeIsMeant(tokens[2..end], Active);
    }
  }

  // -------------------------------------------------------------------------
  // Octets are read as meant
  // -------------------------------------------------------------------------

  /** The octets are a line of the grammar whose tokens mean `line`. */
  ghost predicate Says(text: bytes, line: Line) {
    exists tokens :: IsLine(text, tokens) && Means(tokens, line)
  }

  /** A buffer opens with a line if and only if that many of its octets say it. */
  lemma LineIsRead(buf: bytes, line: Line, n: nat)
    ensures ReadLine(buf) == Parsed(line, n) <==> n <= |buf| && Says(buf[..n], line)
  {
    hide Scan, IsLine, Classify, Means;
    if ReadLine(buf) == Parsed(line, n) {
      var tokens := Scan(buf).value;
      ScansExactlyTheGrammar(buf, tokens, n);
      LineIsMeant(tokens, line);
    }
    if n <= |buf| && Says(buf[..n], line) {
      var tokens :| IsLine(buf[..n], tokens) && Means(tokens, line);
      ScansExactlyTheGrammar(buf, tokens, n);
      LineIsMeant(tokens, line);
    }
  }

  /** A line of the grammar that means nothing is refused, for its reason. */
  lemma LineIsRefusedFor(buf: bytes, n: nat, tokens: seq<Token>, e: ParseError)
    requires n <= |buf| && IsLine(buf[..n], tokens)
    ensures ReadLine(buf) == Failed(e) <==> Meaningless(tokens, e)
  {
    hide Scan, IsLine, Classify, Meaningless;
    ScansExactlyTheGrammar(buf, tokens, n);
    LineIsRefused(tokens, e);
  }

  /** The octets are the lines of a response, data first and then the
      completion, each right after the one before. */
  ghost predicate IsResponse(text: bytes, r: Response)
    decreases |r.data|
  {
    if r.data == [] then Says(text, Final(r.completion))
    else
      exists n: nat :: n <= |text| && Says(text[..n], Data(r.data[0]))
        && IsResponse(text[n..], Response(r.data[1..], r.completion))
  }

  /** A buffer opens with a response if and only if that many of its octets are
      that response. */
  lemma {:induction false} ResponseIsRead(buf: bytes, r: Response, n: nat)
    ensures ReadResponse(buf) == Parsed(r, n) <==> n <= |buf| && IsResponse(buf[..n], r)
    decreases |r.data|
  {
    hide ReadLine, Says;
    if ReadResponse(buf) == Parsed(r, n) {
      ResponseIsSaid(buf, r, n);
    }
    if n <= |buf| && IsResponse(buf[..n], r) {
      if r.data == [] {
        LineIsRead(buf, Final(r.completion), n);
      } else {
        var k: nat :| k <= n && Says(buf[..n][..k], Data(r.data[0]))
          && IsResponse(buf[..n][k..], Response(r.data[1..], r.completion));
        assert buf[..n][..k] == buf[..k] && buf[..n][k..] == buf[k..][..n - k];
        LineIsRead(buf, Data(r.data[0]), k);
        ResponseIsRead(buf[k..], Response(r.data[1..], r.completion), n - k);
        assert [r.data[0]] + r.data[1..] == r.data;
      }
    }
  }

  lemma {:induction false} ResponseIsSaid(buf: bytes, r: Response, n: nat)
    requires ReadResponse(buf) == Parsed(r, n)
    ensures n <= |buf| && IsResponse(buf[..n], r)
    decreases |buf|
  {
    hide ReadLine, Says;
    match ReadLine(buf)
    case Parsed(Final(c), k) => LineIsRead(buf, Final(c), k);
    case Parsed(Data(line), k) =>
      LineIsRead(buf, Data(line), k);
      var rest := Response(r.data[1..], r.completion);
      assert ReadResponse(buf[k..]) == Parsed(rest, n - k);
      ResponseIsSaid(buf[k..], rest, n - k);
      assert buf[..n][..k] == buf[..k] && buf[..n][k..] == buf[k..][..n - k];
    case _ =>
  }
}
