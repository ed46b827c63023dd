/** The commands of the protocol and how each prints itself. */
module Command {
  import opened Bytes
  import opened Scanner
  import opened Printer
  import Base64
  import Decimal
  import Marker
  import RoundTrip

  /** The SASL mechanisms a caller can name. */
  datatype MechanismName =
    | Anonymous
    | CramMd5
    | External
    | Login
    | Plain
    | OAuthBearer
    | XOAuth2
    | ScramSha1
    | ScramSha256
    | ScramSha512
    | Gssapi
    | Gs2Krb5
  {
    /** The name registered for the mechanism. */
    function Registered(): bytes {
      match this
      case Anonymous => Ascii("ANONYMOUS")
      case CramMd5 => Ascii("CRAM-MD5")
      case External => Ascii("EXTERNAL")
      case Login => Ascii("LOGIN")
      case Plain => Ascii("PLAIN")
      case OAuthBearer => Ascii("OAUTHBEARER")
      case XOAuth2 => Ascii("XOAUTH2")
      case ScramSha1 => Ascii("SCRAM-SHA-1")
      case ScramSha256 => Ascii("SCRAM-SHA-256")
      case ScramSha512 => Ascii("SCRAM-SHA-512")
      case Gssapi => Ascii("GSSAPI")
      case Gs2Krb5 => Ascii("GS2-KRB5")
    }
  }

  datatype Command =
    | Authenticate(mechanism: MechanismName, initial: Option<bytes>)
    | StartTls
    | Capability
    | Logout
    | Unauthenticate
    | ListScripts
    | Noop(tag: Option<bytes>)
    | HaveSpace(name: bytes, size: nat)
    | PutScript(name: bytes, script: bytes)
    | CheckScript(script: bytes)
    | GetScript(name: bytes)
    | DeleteScript(name: bytes)
    | SetActive(active: Option<bytes>)
    | RenameScript(name: bytes, newName: bytes)
  {
    /** The octets of the command, as each serialiser appends them. */
    function Serialize(): bytes {
      match this
      case Authenticate(mechanism, initial) =>
        var bare := Ascii("AUTHENTICATE") + [SPACE] + StringOf(mechanism.Registered());
        (match initial
         case None => bare + CRLF
         case Some(payload) => bare + [SPACE] + StringOf(Base64.Encode(payload)) + CRLF)
      case StartTls => Ascii("STARTTLS") + CRLF
      case Capability => Ascii("CAPABILITY") + CRLF
      case Logout => Ascii("LOGOUT") + CRLF
      case Unauthenticate => Ascii("UNAUTHENTICATE") + CRLF
      case ListScripts => Ascii("LISTSCRIPTS") + CRLF
      case Noop(None) => Ascii("NOOP") + CRLF
      case Noop(Some(tag)) => Ascii("NOOP") + [SPACE] + StringOf(tag) + CRLF
      case HaveSpace(name, size) =>
        Ascii("HAVESPACE") + [SPACE] + StringOf(name) + [SPACE] + Decimal.Print(size) + CRLF
      case PutScript(name, script) =>
        Ascii("PUTSCRIPT") + [SPACE] + StringOf(name) + [SPACE] + Literal(script, true) + CRLF
      case CheckScript(script) => Ascii("CHECKSCRIPT") + [SPACE] + Literal(script, true) + CRLF
      case GetScript(name) => Ascii("GETSCRIPT") + [SPACE] + StringOf(name) + CRLF
      case DeleteScript(name) => Ascii("DELETESCRIPT") + [SPACE] + StringOf(name) + CRLF
      case SetActive(active) =>
        Ascii("SETACTIVE") + [SPACE] + StringOf(if active.Some? then active.value else []) + CRLF
      case RenameScript(name, newName) =>
        Ascii("RENAMESCRIPT") + [SPACE] + StringOf(name) + [SPACE] + StringOf(newName) + CRLF
    }

    function Keyword(): bytes {
      match this
      case Authenticate(_, _) => Ascii("AUTHENTICATE")
      case StartTls => Ascii("STARTTLS")
      case Capability => Ascii("CAPABILITY")
      case Logout => Ascii("LOGOUT")
      case Unauthenticate => Ascii("UNAUTHENTICATE")
      case ListScripts => Ascii("LISTSCRIPTS")
      case Noop(_) => Ascii("NOOP")
      case HaveSpace(_, _) => Ascii("HAVESPACE")
      case PutScript(_, _) => Ascii("PUTSCRIPT")
      case CheckScript(_) => Ascii("CHECKSCRIPT")
      case GetScript(_) => Ascii("GETSCRIPT")
      case DeleteScript(_) => Ascii("DELETESCRIPT")
      case SetActive(_) => Ascii("SETACTIVE")
      case RenameScript(_, _) => Ascii("RENAMESCRIPT")
    }

    /** The argument tokens a server reads, in order. */
    function Arguments(): seq<Token> {
      match this
      case Authenticate(mechanism, None) => [String(mechanism.Registered())]
      case Authenticate(mechanism, Some(payload)) =>
        [String(mechanism.Registered()), String(Base64.Encode(payload))]
      case Noop(Some(tag)) => [String(tag)]
      case HaveSpace(name, size) => [String(name), Atom(Decimal.Print(size))]
      case PutScript(name, script) => [String(name), String(script)]
      case CheckScript(script) => [String(script)]
      case GetScript(name) => [String(name)]
      case DeleteScript(name) => [String(name)]
      case SetActive(None) => [String([])]
      case SetActive(Some(name)) => [String(name)]
      case RenameScript(name, newName) => [String(name), String(newName)]
      case _ => []
    }

    /** No argument is longer than a scanner reads. */
    predicate WithinCeiling() {
      forall i :: 0 <= i < |Arguments()| && Arguments()[i].String? ==> |Arguments()[i].octets| <= MAX_LITERAL
    }

    /** Deactivating a script and activating the script with no name are one
        command on the wire. */
    function Canonical(): Command {
      if this == SetActive(None) then SetActive(Some([])) else this
    }
  }

  /** A string argument, written the way the printer chooses. */
  function StringItem(value: bytes): Item {
    if Quote(value).Some? then QuotedText(value) else LiteralText(value, true)
  }

  /** The command as a printed line. */
  function Pieces(c: Command): seq<Piece> {
    var head := Piece(0, Word(c.Keyword()));
    match c
    case Authenticate(mechanism, None) => [head, Piece(1, StringItem(mechanism.Registered()))]
    case Authenticate(mechanism, Some(payload)) =>
      [head, Piece(1, StringItem(mechanism.Registered())), Piece(1, StringItem(Base64.Encode(payload)))]
    case Noop(Some(tag)) => [head, Piece(1, StringItem(tag))]
    case HaveSpace(name, size) => [head, Piece(1, StringItem(name)), Piece(1, Word(Decimal.Print(size)))]
    case PutScript(name, script) => [head, Piece(1, StringItem(name)), Piece(1, LiteralText(script, true))]
    case CheckScript(script) => [head, Piece(1, LiteralText(script, true))]
    case GetScript(name) => [head, Piece(1, StringItem(name))]
    case DeleteScript(name) => [head, Piece(1, StringItem(name))]
    case SetActive(active) => [head, Piece(1, StringItem(if active.Some? then active.value else []))]
    case RenameScript(name, newName) => [head, Piece(1, StringItem(name)), Piece(1, StringItem(newName))]
    case _ => [head]
  }

  lemma StringItemText(value: bytes)
    ensures ItemText(StringItem(value)) == StringOf(value)
    ensures ItemToken(StringItem(value)) == String(value)
    ensures ValidItem(StringItem(value))
    ensures !StringItem(value).Word?
    ensures StringItem(value).LiteralText? ==> value != []
    ensures !StringItem(value).LiteralText? ==> |value| <= QUOTED_MAX
    ensures StringItem(value).LiteralText? ==> StringItem(value).octets == value
  {
    hide Escape, Marker.Text;
    if Quote(value).Some? {
      forall i | 0 <= i < |value|
        ensures value[i] != LF
      {
        assert !IsControl(value[i]);
      }
    } else if value == [] {
      EmptyIsQuoted();
    }
  }

  lemma EmptyIsQuoted()
    ensures Quote([]).Some?
  {
  }

  lemma RenderOne(a: Piece)
    ensures Render([a]) == Gap(a.gap) + ItemText(a.item)
    ensures Tokens([a]) == [ItemToken(a.item)]
  {
    RoundTrip.SinglePiece(a);
    RoundTrip.SingleToken(a);
  }

  lemma RenderTwo(a: Piece, b: Piece)
    ensures Render([a, b]) == Gap(a.gap) + ItemText(a.item) + Gap(b.gap) + ItemText(b.item)
    ensures Tokens([a, b]) == [ItemToken(a.item), ItemToken(b.item)]
  {
    hide Gap, ItemText, ItemToken, Render, Tokens;
    RenderOne(a);
    RenderOne(b);
    RoundTrip.RenderAppend([a], [b]);
    RoundTrip.TokensAppend([a], [b]);
    assert [a] + [b] == [a, b];
  }

  lemma RenderThree(a: Piece, b: Piece, c: Piece)
    ensures Render([a, b, c]) ==
            Gap(a.gap) + ItemText(a.item) + Gap(b.gap) + ItemText(b.item) + Gap(c.gap) + ItemText(c.item)
    ensures Tokens([a, b, c]) == [ItemToken(a.item), ItemToken(b.item), ItemToken(c.item)]
  {
    hide Gap, ItemText, ItemToken, Render, Tokens;
    RenderTwo(a, b);
    RenderOne(c);
    RoundTrip.RenderAppend([a, b], [c]);
    RoundTrip.TokensAppend([a, b], [c]);
    assert [a, b] + [c] == [a, b, c];
  }

  lemma Gaps()
    ensures Gap(0) == [] && Gap(1) == [SPACE]
  {
    assert Gap(1) == [SPACE] + Gap(0);
  }

  predicate AllCapitals(s: string) {
    forall i :: 0 <= i < |s| ==> 'A' <= s[i] <= 'Z'
  }

  lemma CapitalsAreAWord(s: string)
    requires s != "" && AllCapitals(s)
    ensures IsWord(Ascii(s))
  {
    forall i | 0 <= i < |s|
      ensures !IsAtomSpecial(Ascii(s)[i])
    {
      assert 'A' <= s[i] <= 'Z';
    }
  }

  /** A keyword is a word of capital letters. */
  lemma KeywordIsWord(c: Command)
    ensures IsWord(c.Keyword())
  {
    hide Ascii, IsWord;
    match c
    case Authenticate(_, _) => CapitalsAreAWord("AUTHENTICATE");
    case StartTls => CapitalsAreAWord("STARTTLS");
    case Capability => CapitalsAreAWord("CAPABILITY");
    case Logout => CapitalsAreAWord("LOGOUT");
    case Unauthenticate => CapitalsAreAWord("UNAUTHENTICATE");
    case ListScripts => CapitalsAreAWord("LISTSCRIPTS");
    case Noop(_) => CapitalsAreAWord("NOOP");
    case _ => ScriptKeywordIsWord(c);
  }

  lemma ScriptKeywordIsWord(c: Command)
    requires || c.HaveSpace? || c.PutScript? || c.CheckScript? || c.GetScript?
             || c.DeleteScript? || c.SetActive? || c.RenameScript?
    ensures IsWord(c.Keyword())
  {
    hide Ascii, IsWord;
    match c
    case HaveSpace(_, _) => CapitalsAreAWord("HAVESPACE");
    case PutScript(_, _) => CapitalsAreAWord("PUTSCRIPT");
    case CheckScript(_) => CapitalsAreAWord("CHECKSCRIPT");
    case GetScript(_) => CapitalsAreAWord("GETSCRIPT");
    case DeleteScript(_) => CapitalsAreAWord("DELETESCRIPT");
    case SetActive(_) => CapitalsAreAWord("SETACTIVE");
    case RenameScript(_, _) => CapitalsAreAWord("RENAMESCRIPT");
  }

  lemma DecimalIsWord(n: nat)
    ensures IsWord(Decimal.Print(n))
  {
    hide Decimal.Print;
    forall i | 0 <= i < |Decimal.Print(n)|
      ensures !IsAtomSpecial(Decimal.Print(n)[i])
    {
      assert IsDigit(Decimal.Print(n)[i]);
    }
  }

  lemma OneArgument(word: bytes, a: Item)
    ensures Render([Piece(0, Word(word)), Piece(1, a)]) == word + [SPACE] + ItemText(a)
    ensures Tokens([Piece(0, Word(word)), Piece(1, a)]) == [Atom(word), ItemToken(a)]
  {
    hide Gap, Render, Tokens;
    RenderTwo(Piece(0, Word(word)), Piece(1, a));
    Gaps();
    assert [] + word == word;
  }

  lemma TwoArguments(word: bytes, a: Item, b: Item)
    ensures Render([Piece(0, Word(word)), Piece(1, a), Piece(1, b)]) ==
            word + [SPACE] + ItemText(a) + [SPACE] + ItemText(b)
    ensures Tokens([Piece(0, Word(word)), Piece(1, a), Piece(1, b)]) == [Atom(word), ItemToken(a), ItemToken(b)]
  {
    hide Gap, Render, Tokens;
    RenderThree(Piece(0, Word(word)), Piece(1, a), Piece(1, b));
    Gaps();
    assert [] + word == word;
  }

  lemma NoArguments(word: bytes)
    ensures Render([Piece(0, Word(word))]) == word
    ensures Tokens([Piece(0, Word(word))]) == [Atom(word)]
  {
    hide Gap, Render, Tokens;
    RenderOne(Piece(0, Word(word)));
    Gaps();
    assert [] + word == word;
  }

  /** What the serialisers append is the printed line of the command. */
  lemma SerializeIsRender(c: Command)
    ensures c.Serialize() == Render(Pieces(c)) + CRLF
    ensures Tokens(Pieces(c)) == [Atom(c.Keyword())] + c.Arguments()
  {
    hide Render, Tokens, StringOf, StringItem, Ascii, Base64.Encode, Decimal.Print, Literal;
    match c
    case Authenticate(_, _) => AuthenticateIsRender(c);
    case HaveSpace(name, size) =>
      StringItemText(name);
      TwoArguments(c.Keyword(), StringItem(name), Word(Decimal.Print(size)));
    case PutScript(name, script) =>
      StringItemText(name);
      TwoArguments(c.Keyword(), StringItem(name), LiteralText(script, true));
    case RenameScript(name, newName) =>
      StringItemText(name);
      StringItemText(newName);
      TwoArguments(c.Keyword(), StringItem(name), StringItem(newName));
    case CheckScript(script) => OneArgument(c.Keyword(), LiteralText(script, true));
    case _ => NamedIsRender(c);
  }

  lemma AuthenticateIsRender(c: Command)
    requires c.Authenticate?
    ensures c.Serialize() == Render(Pieces(c)) + CRLF
    ensures Tokens(Pieces(c)) == [Atom(c.Keyword())] + c.Arguments()
  {
    hide Render, Tokens, StringOf, StringItem, Ascii, Base64.Encode;
    var name := c.mechanism.Registered();
    StringItemText(name);
    match c.initial
    case None => OneArgument(c.Keyword(), StringItem(name));
    case Some(payload) =>
      StringItemText(Base64.Encode(payload));
      TwoArguments(c.Keyword(), StringItem(name), StringItem(Base64.Encode(payload)));
  }

  lemma NamedIsRender(c: Command)
    requires !c.Authenticate? && !c.HaveSpace? && !c.PutScript? && !c.RenameScript? && !c.CheckScript?
    ensures c.Serialize() == Render(Pieces(c)) + CRLF
    ensures Tokens(Pieces(c)) == [Atom(c.Keyword())] + c.Arguments()
  {
    hide Render, Tokens, StringOf, StringItem, Ascii;
    match c
    case Noop(Some(tag)) =>
      StringItemText(tag);
      OneArgument(c.Keyword(), StringItem(tag));
    case GetScript(name) =>
      StringItemText(name);
      OneArgument(c.Keyword(), StringItem(name));
    case DeleteScript(name) =>
      StringItemText(name);
      OneArgument(c.Keyword(), StringItem(name));
    case SetActive(active) =>
      var name := if active.Some? then active.value else [];
      StringItemText(name);
      OneArgument(c.Keyword(), StringItem(name));
    case _ => NoArguments(c.Keyword());
  }
}
