/** Words of the protocol, letter by letter. */
module Words {
  import opened Bytes

  /** The octets spell the word, each letter in either case. */
  predicate SpelledAs(octets: bytes, word: string) {
    && |octets| == |word|
    && forall i :: 0 <= i < |word| ==>
         || octets[i] == word[i] as int
         || ('A' <= word[i] <= 'Z' && octets[i] == word[i] as int + 32)
  }

  /** A word as this project writes it: capitals and hyphens. */
  predicate IsCapital(word: string) {
    forall i :: 0 <= i < |word| ==> word[i] == '-' || 'A' <= word[i] <= 'Z'
  }

  /** Equality up to case is spelling, octet by octet. */
  lemma SpellingExactly(octets: bytes, word: string)
    requires IsCapital(word)
    ensures EqIgnoreCase(octets, Ascii(word)) <==> SpelledAs(octets, word)
  {
    var text := Ascii(word);
    assert forall i :: 0 <= i < |word| ==> text[i] == word[i] as int;
    forall i | 0 <= i < |word| && i < |octets|
      ensures ToLower(octets[i]) == ToLower(text[i]) <==>
              (octets[i] == word[i] as int || ('A' <= word[i] <= 'Z' && octets[i] == word[i] as int + 32))
    {
      assert word[i] == '-' || 'A' <= word[i] <= 'Z';
    }
  }
}
