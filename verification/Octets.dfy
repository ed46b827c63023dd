/** What each octet is to the scanner, character by character: on a line of its
    own, right after an atom, and in words. */
module Octets {
  import opened Bytes
  import opened Scanner
  import opened Response
  import opened Meaning
  import RoundTrip

  predicate IsBlank(b: byte) {
    b == ' ' as int || b == '\t' as int || b == '\r' as int || b == '\n' as int || b == 12
  }

  /** An octet an atom may hold: anything visible but five characters. */
  predicate IsPlain(b: byte) {
    && b > 32 && b != 127
    && b != '(' as int && b != ')' as int && b != '{' as int && b != '"' as int && b != '\\' as int
  }

  /** What a physical line that starts with the octet, and ends there, is. */
  function Alone(b: byte): Lexed {
    if IsBlank(b) then Segment([], None)
    else if IsPlain(b) then Segment([Atom([b])], None)
    else if b == '(' as int then Segment([Open], None)
    else if b == ')' as int then Segment([Close], None)
    else if b == '"' as int then BadSegment(UnterminatedQuoted)
    else if b == '{' as int then BadSegment(InvalidLiteralMarker)
    else BadSegment(UnexpectedByte(b))
  }

  function Ending(l: Lexed, n: nat): Parsed<seq<Token>> {
    match l
    case BadSegment(e) => Failed(e)
    case Segment(tokens, _) => Parsed(tokens, n)
  }

  lemma SpecialOctets(b: byte)
    ensures IsWhitespace(b) <==> IsBlank(b)
    ensures IsAtomSpecial(b) <==> !IsPlain(b)
  {
  }

  lemma LexAlone(b: byte)
    ensures Lex([b]) == Alone(b)
  {
    hide IsWhitespace, IsAtomSpecial;
    SpecialOctets(b);
    assert [b][1..] == [] && [b][..1] == [b];
    assert AtomLength([b][1..]) == 0;
    assert [Atom([b])] + [] == [Atom([b])] && [Open] + [] == [Open] && [Close] + [] == [Close];
  }

  /** What each octet is on a line of its own. */
  lemma OctetIsRead(b: byte, tail: bytes)
    ensures Scan([b] + CRLF + tail) == if b == '\n' as int then Parsed([], 1) else Ending(Alone(b), 3)
  {
    hide Lex, FirstLine;
    LexAlone(b);
    if b == '\n' as int {
      EmptyLineFirst([b] + CRLF + tail);
    } else {
      RoundTrip.FirstLineOf([b], tail);
    }
  }

  lemma EmptyLineFirst(buf: bytes)
    requires buf != [] && buf[0] == '\n' as int
    ensures FirstLine(buf) == LineEnd([], 1)
  {
    hide Lex;
    assert IndexOf(buf, LF) == Some(0) && Chomp(buf[..0]) == [];
    assert Lex([]) == Segment([], None) by { LexNothing(); }
  }

  lemma LexNothing()
    ensures Lex([]) == Segment([], None)
  {
  }

  /** Right after an atom: the octet lengthens it, or it is what it would be
      alone. */
  lemma OctetAfterAtom(a: byte, b: byte, tail: bytes)
    requires IsPlain(a) && b != '\n' as int
    ensures Scan([a, b] + CRLF + tail) ==
            if IsPlain(b) then Parsed([Atom([a, b])], 4)
            else Ending(PrependTokens([Atom([a])], Alone(b)), 4)
  {
    hide FirstLine, Lex;
    LexPair(a, b);
    RoundTrip.FirstLineOf([a, b], tail);
  }

  lemma LexPair(a: byte, b: byte)
    requires IsPlain(a)
    ensures Lex([a, b]) ==
            if IsPlain(b) then Segment([Atom([a, b])], None) else PrependTokens([Atom([a])], Alone(b))
  {
    hide IsWhitespace, IsAtomSpecial, Alone;
    SpecialOctets(a);
    SpecialOctets(b);
    LexAlone(b);
    var text := [a, b];
    if IsPlain(b) {
      assert forall i :: 0 <= i < 2 ==> !IsAtomSpecial(text[i]);
      RoundTrip.LexWord(text, []);
      assert text + [] == text && [Atom(text)] + [] == [Atom(text)];
      LexNothing();
    } else {
      RoundTrip.LexWord([a], [b]);
      assert [a] + [b] == text;
    }
  }

  /** Octets an atom may hold. */
  predicate IsPlainWord(word: bytes) {
    word != [] && forall i :: 0 <= i < |word| ==> IsPlain(word[i])
  }

  /** A word alone on a line is a completion if it spells a status, and is
      refused by its own octets if it does not. */
  lemma WordIsRead(word: bytes, tail: bytes)
    requires IsPlainWord(word)
    ensures ReadLine(word + CRLF + tail) ==
            if IsStatus(word, Ok) then Parsed(Final(Completion(Ok, None, None)), |word| + 2)
            else if IsStatus(word, No) then Parsed(Final(Completion(No, None, None)), |word| + 2)
            else if IsStatus(word, Bye) then Parsed(Final(Completion(Bye, None, None)), |word| + 2)
            else Failed(UnknownStatus(word))
  {
    hide FirstLine, Lex, IsStatus, ReadStatus, IsPlain;
    forall i | 0 <= i < |word|
      ensures !IsAtomSpecial(word[i])
    {
      SpecialOctets(word[i]);
    }
    LexAlike(word);
    RoundTrip.FirstLineOf(word, tail);
    StatusIsMeant(word, Ok);
    StatusIsMeant(word, No);
    StatusIsMeant(word, Bye);
    WordIsClassified(word);
    var status := ReadStatus(word);
    assert status.Some? ==> status.value.Ok? || status.value.No? || status.value.Bye?;
  }

  lemma LexAlike(word: bytes)
    requires word != [] && forall i :: 0 <= i < |word| ==> !IsAtomSpecial(word[i])
    ensures Lex(word) == Segment([Atom(word)], None) && LF !in word
  {
    hide IsAtomSpecial;
    SpecialOctets(LF);
    RoundTrip.LexWord(word, []);
    LexNothing();
    assert word + [] == word && [Atom(word)] + [] == [Atom(word)];
  }

  lemma WordIsClassified(word: bytes)
    ensures Classify([Atom(word)]) ==
            if ReadStatus(word).Some? then Success(Final(Completion(ReadStatus(word).value, None, None)))
            else Failure(UnknownStatus(word))
  {
    hide ReadStatus;
  }
}
