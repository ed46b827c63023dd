/** What a response code means, letter by letter. */
module CodeMeaning {
  import opened Bytes
  import opened Scanner
  import opened Response
  import opened Words

  /** The name of a code is read up to its first slash, at `k`. */
  predicate HeadEnds(name: bytes, k: nat) {
    && k <= |name|
    && (forall i :: 0 <= i < k ==> name[i] != '/' as int)
    && (k < |name| ==> name[k] == '/' as int)
  }

  /** The detail past the slash at `k`, if there is one, spells `word`. */
  predicate DetailIs(name: bytes, k: nat, word: string)
    requires k <= |name|
  {
    k < |name| && SpelledAs(name[k + 1..], word)
  }

  /** The argument of a code is the string right after its name, or nothing. */
  predicate ArgumentIs(tokens: seq<Token>, argument: bytes) {
    if |tokens| > 1 && tokens[1].String? then tokens[1] == String(argument) else argument == []
  }

  /** No listed code goes by `head`. */
  predicate Unlisted(head: bytes) {
    && !SpelledAs(head, "AUTH-TOO-WEAK") && !SpelledAs(head, "ENCRYPT-NEEDED") && !SpelledAs(head, "QUOTA")
    && !SpelledAs(head, "REFERRAL") && !SpelledAs(head, "SASL") && !SpelledAs(head, "TRANSITION-NEEDED")
    && !SpelledAs(head, "TRYLATER") && !SpelledAs(head, "ACTIVE") && !SpelledAs(head, "NONEXISTENT")
    && !SpelledAs(head, "ALREADYEXISTS") && !SpelledAs(head, "WARNINGS") && !SpelledAs(head, "TAG")
  }

  /** The tokens between two parentheses are the code, whose name is headed by
      its first `k` octets. */
  predicate IsCodeHeaded(tokens: seq<Token>, k: nat, code: Code)
    requires tokens != [] && tokens[0].Atom? && k <= |tokens[0].octets|
  {
    var name := tokens[0].octets;
    var head := name[..k];
    match code
    case AuthTooWeak => SpelledAs(head, "AUTH-TOO-WEAK")
    case EncryptNeeded => SpelledAs(head, "ENCRYPT-NEEDED")
    case QuotaReached(detail) =>
      && SpelledAs(head, "QUOTA")
      && (detail == Some(MaxScripts) <==> DetailIs(name, k, "MAXSCRIPTS"))
      && (detail == Some(MaxSize) <==> DetailIs(name, k, "MAXSIZE"))
    case Referral(url) => SpelledAs(head, "REFERRAL") && ArgumentIs(tokens, url)
    case Sasl(data) => SpelledAs(head, "SASL") && ArgumentIs(tokens, data)
    case TransitionNeeded => SpelledAs(head, "TRANSITION-NEEDED")
    case TryLater => SpelledAs(head, "TRYLATER")
    case Active => SpelledAs(head, "ACTIVE")
    case Nonexistent => SpelledAs(head, "NONEXISTENT")
    case AlreadyExists => SpelledAs(head, "ALREADYEXISTS")
    case Warnings => SpelledAs(head, "WARNINGS")
    case Tag(tag) => SpelledAs(head, "TAG") && ArgumentIs(tokens, tag)
    case Other(other) => other == name && Unlisted(head)
  }

  predicate Named(tokens: seq<Token>) {
    tokens != [] && tokens[0].Atom?
  }

  /** The tokens between two parentheses are the code. */
  ghost predicate IsCode(tokens: seq<Token>, code: Code) {
    Named(tokens) && exists k :: HeadEnds(tokens[0].octets, k) && IsCodeHeaded(tokens, k, code)
  }

  /** The listed names, up to case, in their order. */
  lemma ListedSpelled(head: bytes)
    ensures EqIgnoreCase(head, Ascii("AUTH-TOO-WEAK")) <==> SpelledAs(head, "AUTH-TOO-WEAK")
    ensures EqIgnoreCase(head, Ascii("ENCRYPT-NEEDED")) <==> SpelledAs(head, "ENCRYPT-NEEDED")
    ensures EqIgnoreCase(head, Ascii("QUOTA")) <==> SpelledAs(head, "QUOTA")
    ensures EqIgnoreCase(head, Ascii("REFERRAL")) <==> SpelledAs(head, "REFERRAL")
    ensures EqIgnoreCase(head, Ascii("SASL")) <==> SpelledAs(head, "SASL")
    ensures EqIgnoreCase(head, Ascii("TRANSITION-NEEDED")) <==> SpelledAs(head, "TRANSITION-NEEDED")
  {
    hide Ascii, EqIgnoreCase, SpelledAs;
    SpellingExactly(head, "AUTH-TOO-WEAK");
    SpellingExactly(head, "ENCRYPT-NEEDED");
    SpellingExactly(head, "QUOTA");
    SpellingExactly(head, "REFERRAL");
    SpellingExactly(head, "SASL");
    SpellingExactly(head, "TRANSITION-NEEDED");
  }

  lemma MoreListedSpelled(head: bytes)
    ensures EqIgnoreCase(head, Ascii("TRYLATER")) <==> SpelledAs(head, "TRYLATER")
    ensures EqIgnoreCase(head, Ascii("ACTIVE")) <==> SpelledAs(head, "ACTIVE")
    ensures EqIgnoreCase(head, Ascii("NONEXISTENT")) <==> SpelledAs(head, "NONEXISTENT")
    ensures EqIgnoreCase(head, Ascii("ALREADYEXISTS")) <==> SpelledAs(head, "ALREADYEXISTS")
    ensures EqIgnoreCase(head, Ascii("WARNINGS")) <==> SpelledAs(head, "WARNINGS")
    ensures EqIgnoreCase(head, Ascii("TAG")) <==> SpelledAs(head, "TAG")
  {
    hide Ascii, EqIgnoreCase, SpelledAs;
    SpellingExactly(head, "TRYLATER");
    SpellingExactly(head, "ACTIVE");
    SpellingExactly(head, "NONEXISTENT");
    SpellingExactly(head, "ALREADYEXISTS");
    SpellingExactly(head, "WARNINGS");
    SpellingExactly(head, "TAG");
  }

  /** A detail, up to case. */
  lemma DetailSpelled(detail: bytes)
    ensures EqIgnoreCase(detail, Ascii("MAXSCRIPTS")) <==> SpelledAs(detail, "MAXSCRIPTS")
    ensures EqIgnoreCase(detail, Ascii("MAXSIZE")) <==> SpelledAs(detail, "MAXSIZE")
    ensures !(SpelledAs(detail, "MAXSCRIPTS") && SpelledAs(detail, "MAXSIZE"))
  {
    hide Ascii, EqIgnoreCase;
    SpellingExactly(detail, "MAXSCRIPTS");
    SpellingExactly(detail, "MAXSIZE");
  }

  /** Most listed names are told apart by their lengths. */
  lemma ListedLengths(head: bytes)
    ensures SpelledAs(head, "AUTH-TOO-WEAK") ==> |head| == 13
    ensures SpelledAs(head, "ENCRYPT-NEEDED") ==> |head| == 14
    ensures SpelledAs(head, "QUOTA") ==> |head| == 5
    ensures SpelledAs(head, "REFERRAL") ==> |head| == 8
    ensures SpelledAs(head, "SASL") ==> |head| == 4
    ensures SpelledAs(head, "TRANSITION-NEEDED") ==> |head| == 17
    ensures SpelledAs(head, "TRYLATER") ==> |head| == 8
    ensures SpelledAs(head, "ACTIVE") ==> |head| == 6
    ensures SpelledAs(head, "NONEXISTENT") ==> |head| == 11
    ensures SpelledAs(head, "ALREADYEXISTS") ==> |head| == 13
    ensures SpelledAs(head, "WARNINGS") ==> |head| == 8
    ensures SpelledAs(head, "TAG") ==> |head| == 3
  {
  }

  /** The others differ in a letter. */
  lemma ListedApart(head: bytes)
    ensures !(SpelledAs(head, "AUTH-TOO-WEAK") && SpelledAs(head, "ALREADYEXISTS"))
    ensures !(SpelledAs(head, "REFERRAL") && SpelledAs(head, "TRYLATER"))
    ensures !(SpelledAs(head, "REFERRAL") && SpelledAs(head, "WARNINGS"))
    ensures !(SpelledAs(head, "TRYLATER") && SpelledAs(head, "WARNINGS"))
  {
    assert |head| >= 2 && SpelledAs(head, "AUTH-TOO-WEAK") ==> head[1] == 85 || head[1] == 117;
    assert |head| >= 2 && SpelledAs(head, "ALREADYEXISTS") ==> head[1] == 76 || head[1] == 108;
    assert |head| >= 2 && SpelledAs(head, "REFERRAL") ==> head[0] == 82 || head[0] == 114;
    assert |head| >= 2 && SpelledAs(head, "TRYLATER") ==> head[0] == 84 || head[0] == 116;
    assert |head| >= 2 && SpelledAs(head, "WARNINGS") ==> head[0] == 87 || head[0] == 119;
  }

  function DetailAt(name: bytes, k: nat): Option<bytes> {
    if k < |name| then Some(name[k + 1..]) else None
  }

  function ArgumentOf(tokens: seq<Token>): bytes {
    if |tokens| > 1 && tokens[1].String? then tokens[1].octets else []
  }

  lemma NamedCodeMeans(tokens: seq<Token>, k: nat, code: Code)
    requires Named(tokens) && k <= |tokens[0].octets|
    ensures var name := tokens[0].octets;
            NamedCode(name, name[..k], DetailAt(name, k), ArgumentOf(tokens)) == code <==> IsCodeHeaded(tokens, k, code)
  {
    hide Ascii, EqIgnoreCase, SpelledAs;
    var name := tokens[0].octets;
    ListedSpelled(name[..k]);
    MoreListedSpelled(name[..k]);
    ListedLengths(name[..k]);
    ListedApart(name[..k]);
    if k < |name| {
      DetailSpelled(name[k + 1..]);
    }
    if code.QuotaReached? && code.detail.Some? {
      assert code.detail.value.MaxScripts? || code.detail.value.MaxSize?;
    }
  }

  lemma ReadCodeSplits(tokens: seq<Token>)
    requires Named(tokens)
    ensures var name := tokens[0].octets;
            var k := if IndexOf(name, SLASH).Some? then IndexOf(name, SLASH).value else |name|;
            && HeadEnds(name, k)
            && ReadCode(tokens) == Success(NamedCode(name, name[..k], DetailAt(name, k), ArgumentOf(tokens)))
  {
    hide NamedCode;
    var name := tokens[0].octets;
    assert name[..|name|] == name;
  }

  /** The tokens of a code are read as the code they are, and refused exactly
      when no name opens them. */
  lemma CodeIsMeant(tokens: seq<Token>, code: Code)
    ensures ReadCode(tokens) == Success(code) <==> IsCode(tokens, code)
    ensures ReadCode(tokens) == Failure(EmptyResponseCode) <==> !Named(tokens)
    ensures ReadCode(tokens).Success? <==> Named(tokens)
  {
    hide NamedCode, IsCodeHeaded, ReadCode, IndexOf;
    if Named(tokens) {
      ReadCodeSplits(tokens);
      var name := tokens[0].octets;
      var k := if IndexOf(name, SLASH).Some? then IndexOf(name, SLASH).value else |name|;
      NamedCodeMeans(tokens, k, code);
      forall j | HeadEnds(name, j)
        ensures j == k
      {
      }
    } else {
      Nameless(tokens);
    }
  }

  lemma Nameless(tokens: seq<Token>)
    requires !Named(tokens)
    ensures ReadCode(tokens) == Failure(EmptyResponseCode)
  {
  }
}
