/** Every command is exactly one logical line, which scans back to its keyword
    and its exact arguments. */
module CommandLine {
  import opened Bytes
  import opened Scanner
  import opened Printer
  import opened Command
  import Base64
  import Decimal
  import RoundTrip

  lemma PiecesAreValid(c: Command)
    ensures ValidLine(Pieces(c))
  {
    hide Ascii, IsWord, Base64.Encode, Decimal.Print, StringItem;
    KeywordIsWord(c);
    match c
    case Authenticate(mechanism, initial) =>
      StringItemText(mechanism.Registered());
      if initial.Some? {
        StringItemText(Base64.Encode(initial.value));
      }
    case Noop(Some(tag)) => StringItemText(tag);
    case HaveSpace(name, size) =>
      StringItemText(name);
      DecimalIsWord(size);
    case PutScript(name, _) => StringItemText(name);
    case GetScript(name) => StringItemText(name);
    case DeleteScript(name) => StringItemText(name);
    case SetActive(active) => StringItemText(if active.Some? then active.value else []);
    case RenameScript(name, newName) =>
      StringItemText(name);
      StringItemText(newName);
    case _ =>
  }

  /** Whether a piece carries no literal too long to read. */
  predicate PieceFits(p: Piece) {
    p.item.LiteralText? ==> |p.item.octets| <= MAX_LITERAL
  }

  predicate TokenFits(t: Token) {
    t.String? ==> |t.octets| <= MAX_LITERAL
  }

  lemma StringFits(value: bytes)
    ensures PieceFits(Piece(1, StringItem(value))) <==> TokenFits(String(value))
  {
    hide StringItem;
    StringItemText(value);
  }

  /** The pieces fit the ceiling exactly when the arguments do. */
  lemma PiecesFit(c: Command)
    ensures Fits(Pieces(c)) <==> c.WithinCeiling()
  {
    hide Ascii, StringItem, Base64.Encode, Decimal.Print;
    var p, t := Pieces(c), c.Arguments();
    assert |p| == |t| + 1 && PieceFits(p[0]);
    forall i | 0 <= i < |t|
      ensures PieceFits(p[i + 1]) <==> TokenFits(t[i])
    {
      if t[i].String? {
        StringFits(t[i].octets);
      }
    }
    FitTogether(p, t);
    assert c.WithinCeiling() <==> forall i :: 0 <= i < |t| ==> TokenFits(t[i]);
  }

  lemma FitTogether(p: seq<Piece>, t: seq<Token>)
    requires |p| == |t| + 1 && PieceFits(p[0])
    requires forall i :: 0 <= i < |t| ==> (PieceFits(p[i + 1]) <==> TokenFits(t[i]))
    ensures Fits(p) <==> forall i :: 0 <= i < |t| ==> TokenFits(t[i])
  {
    hide TokenFits;
    assert Fits(p) <==> forall i :: 0 <= i < |p| ==> PieceFits(p[i]);
    if Fits(p) {
      forall i | 0 <= i < |t|
        ensures TokenFits(t[i])
      {
        assert PieceFits(p[i + 1]);
      }
    } else {
      var j :| 0 <= j < |p| && !PieceFits(p[j]);
      assert !TokenFits(t[j - 1]);
    }
  }

  /** A command scans back to its keyword and its exact argument octets, and
      takes its whole text and nothing more, if and only if no argument exceeds
      the ceiling of the scanner. */
  lemma CommandScansBack(c: Command, tail: bytes)
    ensures Scan(c.Serialize() + tail) == Parsed([Atom(c.Keyword())] + c.Arguments(), |c.Serialize()|)
            <==> c.WithinCeiling()
    ensures !c.WithinCeiling() ==> Scan(c.Serialize() + tail).Failed?
  {
    hide Scan, Render, Tokens, Pieces, ValidLine, Fits;
    SerializeIsRender(c);
    PiecesAreValid(c);
    PiecesFit(c);
    RoundTrip.ScanUndoesPrinting(Pieces(c), tail);
  }

  /** The second argument a server reads in a command, when it is a string and
      the last. */
  function SecondArgument(line: bytes): Option<bytes> {
    match Scan(line)
    case Parsed(tokens, _) => if |tokens| == 3 && tokens[2].String? then Some(tokens[2].octets) else None
    case _ => None
  }

  // -------------------------------------------------------------------------
  // Injectivity
  // -------------------------------------------------------------------------

  /** A number for each command, read off its keyword. */
  function KeywordRank(keyword: bytes): nat
    requires keyword != []
  {
    var n, first := |keyword|, keyword[0];
    if n == 9 then (if first == 72 then 0 else if first == 80 then 1 else if first == 71 then 2 else 3)
    else if n == 12 then (if first == 65 then 4 else if first == 68 then 5 else 6)
    else if n == 11 then (if first == 76 then 7 else 8)
    else if n == 8 then 9 else if n == 10 then 10 else if n == 6 then 11 else if n == 14 then 12 else 13
  }

  function Rank(c: Command): nat {
    match c
    case HaveSpace(_, _) => 0
    case PutScript(_, _) => 1
    case GetScript(_) => 2
    case SetActive(_) => 3
    case Authenticate(_, _) => 4
    case DeleteScript(_) => 5
    case RenameScript(_, _) => 6
    case ListScripts => 7
    case CheckScript(_) => 8
    case StartTls => 9
    case Capability => 10
    case Logout => 11
    case Unauthenticate => 12
    case Noop(_) => 13
  }

  lemma KeywordTellsCommand(c: Command)
    ensures KeywordRank(c.Keyword()) == Rank(c)
  {
  }

  function NameRank(name: bytes): nat
    requires name != []
  {
    var n, first, last := |name|, name[0], name[|name| - 1];
    if n == 5 then (if first == 80 then 0 else 1)
    else if n == 8 then (if first == 67 then 2 else if first == 69 then 3 else 4)
    else if n == 11 then (if first == 79 then 5 else 6)
    else if n == 13 then (if last == 54 then 7 else 8)
    else if n == 9 then 9 else if n == 7 then 10 else 11
  }

  function MechanismRank(m: MechanismName): nat {
    match m
    case Plain => 0
    case Login => 1
    case CramMd5 => 2
    case External => 3
    case Gs2Krb5 => 4
    case OAuthBearer => 5
    case ScramSha1 => 6
    case ScramSha256 => 7
    case ScramSha512 => 8
    case Anonymous => 9
    case XOAuth2 => 10
    case Gssapi => 11
  }

  lemma NameTellsMechanism(m: MechanismName)
    ensures NameRank(m.Registered()) == MechanismRank(m)
  {
  }

  lemma RegisteredInjective(a: MechanismName, b: MechanismName)
    requires a.Registered() == b.Registered()
    ensures a == b
  {
    hide Ascii;
    NameTellsMechanism(a);
    NameTellsMechanism(b);
  }

  /** The keyword and the arguments determine the command. */
  lemma TokensTellCommand(a: Command, b: Command)
    requires a.Keyword() == b.Keyword() && a.Arguments() == b.Arguments()
    ensures a.Canonical() == b.Canonical()
  {
    hide Base64.Encode, Decimal.Print;
    SameShape(a, b);
    hide Ascii;
    var s, t := a.Arguments(), b.Arguments();
    match a
    case Authenticate(mechanism, initial) =>
      assert s[0] == t[0];
      RegisteredInjective(mechanism, b.mechanism);
      if initial.Some? {
        assert s[1] == t[1];
        Base64.DecodeOfEncode(initial.value);
        Base64.DecodeOfEncode(b.initial.value);
      }
    case HaveSpace(name, size) =>
      assert s[0] == t[0] && s[1] == t[1];
      Decimal.PrintInjective(size, b.size);
    case PutScript(_, _) => assert s[0] == t[0] && s[1] == t[1];
    case RenameScript(_, _) => assert s[0] == t[0] && s[1] == t[1];
    case Noop(Some(_)) => assert s[0] == t[0];
    case CheckScript(_) => assert s[0] == t[0];
    case GetScript(_) => assert s[0] == t[0];
    case DeleteScript(_) => assert s[0] == t[0];
    case SetActive(_) => assert s[0] == t[0];
    case _ =>
  }

  lemma SameShape(a: Command, b: Command)
    requires a.Keyword() == b.Keyword()
    ensures Rank(a) == Rank(b)
  {
    hide Ascii;
    KeywordTellsCommand(a);
    KeywordTellsCommand(b);
  }

  /** Two commands print alike if and only if they are the same, deactivation
      and the empty name aside. */
  lemma SerializeInjective(a: Command, b: Command)
    requires a.WithinCeiling()
    ensures a.Serialize() == b.Serialize() <==> a.Canonical() == b.Canonical()
  {
    hide Scan;
    if a.Serialize() == b.Serialize() {
      SameText(a, b);
    } else {
      assert a != b;
    }
  }

  lemma SameText(a: Command, b: Command)
    requires a.WithinCeiling() && a.Serialize() == b.Serialize()
    ensures a.Canonical() == b.Canonical()
  {
    CommandScansBack(a, []);
    CommandScansBack(b, []);
    hide Scan, Ascii;
    var front := [Atom(a.Keyword())] + a.Arguments();
    var back := [Atom(b.Keyword())] + b.Arguments();
    assert front == back;
    assert front[0] == back[0] && front[1..] == a.Arguments() && back[1..] == b.Arguments();
    TokensTellCommand(a, b);
  }
}
