/** What is written to the server, octet by octet: every command and every
    client response, in the characters of the protocol. */
module Wire {
  import opened Bytes
  import opened Printer
  import Base64
  import Command
  import Decimal
  import Exchange
  import Marker

  // -------------------------------------------------------------------------
  // Numbers
  // -------------------------------------------------------------------------

  predicate AreDigits(text: bytes) {
    forall i :: 0 <= i < |text| ==> '0' as int <= text[i] <= '9' as int
  }

  function AmountOf(text: bytes): nat
    requires AreDigits(text)
  {
    if text == [] then 0 else 10 * AmountOf(text[..|text| - 1]) + (text[|text| - 1] - '0' as int)
  }

  /** The number in decimal, without leading zeros. */
  predicate IsDecimal(text: bytes, n: nat) {
    text != [] && AreDigits(text) && AmountOf(text) == n && (|text| > 1 ==> text[0] != '0' as int)
  }

  lemma {:induction false} LeadingDigit(text: bytes)
    requires AreDigits(text) && text != [] && text[0] != '0' as int
    ensures AmountOf(text) > 0
  {
    if |text| > 1 {
      LeadingDigit(text[..|text| - 1]);
    }
  }

  /** One more digit. */
  lemma DecimalMore(front: bytes, last: byte, n: nat)
    requires front != []
    ensures IsDecimal(front + [last], n) <==> n >= 10 && IsDecimal(front, n / 10) && last == '0' as int + n % 10
  {
    var text := front + [last];
    assert text[..|text| - 1] == front && text[|text| - 1] == last && text[0] == front[0];
    if AreDigits(front) && front[0] != '0' as int {
      LeadingDigit(front);
    }
    if AreDigits(text) {
      assert forall i :: 0 <= i < |front| ==> front[i] == text[i];
      assert AmountOf(text) == 10 * AmountOf(front) + (last - '0' as int);
    }
  }

  lemma OneDigit(digit: byte, n: nat)
    ensures [digit] == Decimal.Print(n) <==> IsDecimal([digit], n)
  {
    assert [digit][..0] == [] && [digit][0] == digit;
    if AreDigits([digit]) {
      assert AmountOf([digit]) == 10 * AmountOf([digit][..0]) + (digit - '0' as int);
    } else {
      assert !('0' as int <= digit <= '9' as int);
    }
    if n >= 10 {
      assert |Decimal.Print(n)| == |Decimal.Print(n / 10)| + 1 > 1;
    } else {
      assert Decimal.Print(n) == [48 + n];
      assert [digit][0] == digit && [48 + n][0] == 48 + n;
    }
  }

  lemma PrintMore(front: bytes, last: byte, n: nat)
    requires front != []
    ensures front + [last] == Decimal.Print(n) <==>
            n >= 10 && front == Decimal.Print(n / 10) && last == '0' as int + n % 10
  {
    var text := front + [last];
    assert text[..|text| - 1] == front && text[|text| - 1] == last;
    if n >= 10 && text == Decimal.Print(n) {
      var p := Decimal.Print(n);
      assert p[..|p| - 1] == Decimal.Print(n / 10);
    }
  }

  lemma {:induction false} PrintedExactly(text: bytes, n: nat)
    ensures text == Decimal.Print(n) <==> IsDecimal(text, n)
    decreases |text|
  {
    if |text| > 1 {
      hide IsDecimal, Decimal.Print;
      var front, last := text[..|text| - 1], text[|text| - 1];
      assert text == front + [last];
      PrintedExactly(front, n / 10);
      DecimalMore(front, last, n);
      PrintMore(front, last, n);
    } else if |text| == 1 {
      OneDigit(text[0], n);
      assert text == [text[0]];
    }
  }

  // -------------------------------------------------------------------------
  // Strings
  // -------------------------------------------------------------------------

  /** No octet is a control, and with a backslash before each quote and each
      backslash there are at most 1024 of them. */
  predicate IsQuotable(value: bytes) {
    && (forall i :: 0 <= i < |value| ==> value[i] >= 32 && value[i] != 127)
    && |value| + multiset(value)['"' as int] + multiset(value)['\\' as int] <= 1024
  }

  function Backslashed(value: bytes): bytes {
    if value == [] then []
    else (if value[0] == '"' as int || value[0] == '\\' as int then ['\\' as int, value[0]] else [value[0]])
         + Backslashed(value[1..])
  }

  /** A literal announced with a plus: braces around the count, a line break, and
      then the octets as they are. */
  ghost predicate IsCounted(text: bytes, value: bytes) {
    exists digits :: IsDecimal(digits, |value|) && text == Ascii("{") + digits + Ascii("+}\r\n") + value
  }

  /** A string argument is quoted if and only if it can be. */
  ghost predicate IsString(text: bytes, value: bytes) {
    if IsQuotable(value) then text == Ascii("\"") + Backslashed(value) + Ascii("\"") else IsCounted(text, value)
  }

  lemma {:induction false} EscapedExactly(value: bytes)
    ensures Escape(value) == Backslashed(value)
    ensures EscapeCount(value) == multiset(value)['"' as int] + multiset(value)['\\' as int]
  {
    if value != [] {
      EscapedExactly(value[1..]);
      assert value == [value[0]] + value[1..];
    }
  }

  lemma QuotedExactly(value: bytes)
    ensures Quote(value).Some? <==> IsQuotable(value)
    ensures Enquote(value) == Ascii("\"") + Backslashed(value) + Ascii("\"")
  {
    hide Escape, EscapeCount, Backslashed;
    EscapedExactly(value);
    assert HasControl(value) <==> exists i :: 0 <= i < |value| && !(value[i] >= 32 && value[i] != 127);
  }

  lemma CountedExactly(text: bytes, value: bytes)
    ensures text == Literal(value, true) <==> IsCounted(text, value)
  {
    hide Decimal.Print, IsDecimal;
    PrintedExactly(Decimal.Print(|value|), |value|);
    forall digits | IsDecimal(digits, |value|)
      ensures digits == Decimal.Print(|value|)
    {
      PrintedExactly(digits, |value|);
    }
    LiteralMark(Decimal.Print(|value|), value);
  }

  lemma LiteralMark(digits: bytes, value: bytes)
    ensures Marker.Text(digits, true) + CRLF + value == Ascii("{") + digits + Ascii("+}\r\n") + value
  {
    assert Marker.Text(digits, true) + CRLF == Ascii("{") + digits + Ascii("+}\r\n");
  }

  /** Every string argument is written as it must be. */
  lemma StringExactly(text: bytes, value: bytes)
    ensures text == StringOf(value) <==> IsString(text, value)
  {
    hide Enquote, Literal, IsQuotable, Backslashed, IsCounted, HasControl, Escape;
    QuotedExactly(value);
    CountedExactly(text, value);
    QuoteText(value);
  }

  lemma QuoteText(value: bytes)
    ensures Quote(value).Some? ==> Quote(value).value == Enquote(value)
  {
    hide Escape, HasControl;
  }

  /** A client response is one string, its payload encoded, on a line of its
      own. */
  lemma ClientResponseExactly(text: bytes, payload: bytes)
    ensures text == Exchange.ClientResponse(payload) <==>
            exists word :: IsString(word, Base64.Encode(payload)) && text == word + Ascii("\r\n")
  {
    hide StringOf, IsString, Base64.Encode;
    var value := Base64.Encode(payload);
    StringExactly(StringOf(value), value);
    forall word | IsString(word, value)
      ensures word == StringOf(value)
    {
      StringExactly(word, value);
    }
    LineBreak();
  }

  lemma LineBreak()
    ensures CRLF == Ascii("\r\n")
  {
  }

  // -------------------------------------------------------------------------
  // Commands
  // -------------------------------------------------------------------------

  /** An argument: a string written as it can be, a string written as a literal
      whatever it holds, or a number. */
  datatype Argument = Text(octets: bytes) | Counted(octets: bytes) | Amount(number: nat)

  ghost predicate IsArgument(text: bytes, a: Argument) {
    match a
    case Text(octets) => IsString(text, octets)
    case Counted(octets) => IsCounted(text, octets)
    case Amount(number) => IsDecimal(text, number)
  }

  function MechanismWord(name: Command.MechanismName): string {
    match name
    case Anonymous => "ANONYMOUS"
    case CramMd5 => "CRAM-MD5"
    case External => "EXTERNAL"
    case Login => "LOGIN"
    case Plain => "PLAIN"
    case OAuthBearer => "OAUTHBEARER"
    case XOAuth2 => "XOAUTH2"
    case ScramSha1 => "SCRAM-SHA-1"
    case ScramSha256 => "SCRAM-SHA-256"
    case ScramSha512 => "SCRAM-SHA-512"
    case Gssapi => "GSSAPI"
    case Gs2Krb5 => "GS2-KRB5"
  }

  function CommandWord(c: Command.Command): string {
    match c
    case Authenticate(_, _) => "AUTHENTICATE"
    case StartTls => "STARTTLS"
    case Capability => "CAPABILITY"
    case Logout => "LOGOUT"
    case Unauthenticate => "UNAUTHENTICATE"
    case ListScripts => "LISTSCRIPTS"
    case Noop(_) => "NOOP"
    case HaveSpace(_, _) => "HAVESPACE"
    case PutScript(_, _) => "PUTSCRIPT"
    case CheckScript(_) => "CHECKSCRIPT"
    case GetScript(_) => "GETSCRIPT"
    case DeleteScript(_) => "DELETESCRIPT"
    case SetActive(_) => "SETACTIVE"
    case RenameScript(_, _) => "RENAMESCRIPT"
  }

  /** Scripts are always literals. */
  function ArgumentsOf(c: Command.Command): seq<Argument> {
    match c
    case Authenticate(name, None) => [Text(Ascii(MechanismWord(name)))]
    case Authenticate(name, Some(payload)) => [Text(Ascii(MechanismWord(name))), Text(Base64.Encode(payload))]
    case Noop(Some(tag)) => [Text(tag)]
    case HaveSpace(name, size) => [Text(name), Amount(size)]
    case PutScript(name, script) => [Text(name), Counted(script)]
    case CheckScript(script) => [Counted(script)]
    case GetScript(name) => [Text(name)]
    case DeleteScript(name) => [Text(name)]
    case SetActive(None) => [Text([])]
    case SetActive(Some(name)) => [Text(name)]
    case RenameScript(name, newName) => [Text(name), Text(newName)]
    case _ => []
  }

  function Spaced(parts: seq<bytes>): bytes {
    if parts == [] then [] else Ascii(" ") + parts[0] + Spaced(parts[1..])
  }

  ghost predicate AreArguments(parts: seq<bytes>, arguments: seq<Argument>) {
    |parts| == |arguments| && forall i :: 0 <= i < |parts| ==> IsArgument(parts[i], arguments[i])
  }

  /** The text is the word of the command, each argument after a space, and a
      line break. */
  ghost predicate IsCommand(text: bytes, c: Command.Command) {
    exists parts ::
      AreArguments(parts, ArgumentsOf(c)) && text == Ascii(CommandWord(c)) + Spaced(parts) + Ascii("\r\n")
  }

  function ArgumentText(a: Argument): bytes {
    match a
    case Text(octets) => StringOf(octets)
    case Counted(octets) => Literal(octets, true)
    case Amount(number) => Decimal.Print(number)
  }

  lemma ArgumentExactly(text: bytes, a: Argument)
    ensures text == ArgumentText(a) <==> IsArgument(text, a)
  {
    hide StringOf, Literal, Decimal.Print, IsString, IsCounted, IsDecimal;
    match a
    case Text(octets) => StringExactly(text, octets);
    case Counted(octets) => CountedExactly(text, octets);
    case Amount(number) => PrintedExactly(text, number);
  }

  function Texts(arguments: seq<Argument>): (parts: seq<bytes>)
    ensures |parts| == |arguments|
  {
    seq(|arguments|, i requires 0 <= i < |arguments| => ArgumentText(arguments[i]))
  }

  lemma ArgumentsExactly(parts: seq<bytes>, arguments: seq<Argument>)
    ensures parts == Texts(arguments) <==> AreArguments(parts, arguments)
  {
    hide IsArgument, ArgumentText;
    forall i | 0 <= i < |parts| && i < |arguments|
      ensures parts[i] == ArgumentText(arguments[i]) <==> IsArgument(parts[i], arguments[i])
    {
      ArgumentExactly(parts[i], arguments[i]);
    }
  }

  lemma SpacedFew(parts: seq<bytes>)
    ensures |parts| == 0 ==> Spaced(parts) == []
    ensures |parts| == 1 ==> Spaced(parts) == [SPACE] + parts[0]
    ensures |parts| == 2 ==> Spaced(parts) == [SPACE] + parts[0] + [SPACE] + parts[1]
  {
    assert Ascii(" ") == [SPACE];
    if |parts| == 1 {
      assert Spaced(parts[1..]) == [];
    } else if |parts| == 2 {
      assert Spaced(parts[1..][1..]) == [];
      assert Spaced(parts[1..]) == Ascii(" ") + parts[1] + [];
    }
  }

  lemma WordsOf(c: Command.Command)
    ensures Ascii(CommandWord(c)) == c.Keyword()
    ensures c.Authenticate? ==> Ascii(MechanismWord(c.mechanism)) == c.mechanism.Registered()
  {
    hide Ascii;
  }

  lemma SpacesTwo(c: Command.Command, a: Argument, b: Argument)
    requires ArgumentsOf(c) == [a, b]
    ensures c.Serialize() == c.Keyword() + ([SPACE] + ArgumentText(a) + [SPACE] + ArgumentText(b)) + CRLF
  {
    hide Ascii, StringOf, Literal, Decimal.Print, Base64.Encode, MechanismWord, Command.MechanismName.Registered;
    WordsOf(c);
    assert [a, b][0] == ArgumentsOf(c)[0] && [a, b][1] == ArgumentsOf(c)[1];
  }

  lemma SpacesOne(c: Command.Command, a: Argument)
    requires ArgumentsOf(c) == [a]
    ensures c.Serialize() == c.Keyword() + ([SPACE] + ArgumentText(a)) + CRLF
  {
    hide Ascii, StringOf, Literal, Decimal.Print, Base64.Encode, MechanismWord, Command.MechanismName.Registered;
    WordsOf(c);
    assert [a][0] == ArgumentsOf(c)[0];
  }

  lemma SpacesNone(c: Command.Command)
    requires ArgumentsOf(c) == []
    ensures c.Serialize() == c.Keyword() + [] + CRLF
  {
    hide Ascii;
  }

  lemma SerializeSpaces(c: Command.Command)
    ensures c.Serialize() == c.Keyword() + Spaced(Texts(ArgumentsOf(c))) + CRLF
  {
    hide ArgumentText, Spaced, Command.Command.Serialize, Command.Command.Keyword;
    var arguments := ArgumentsOf(c);
    SpacedFew(Texts(arguments));
    if |arguments| == 2 {
      SpacesTwo(c, arguments[0], arguments[1]);
    } else if |arguments| == 1 {
      SpacesOne(c, arguments[0]);
    } else {
      SpacesNone(c);
    }
  }

  /** What is written for a command is its line, and no other text is: its word,
      and each argument after a space, names quoted if and only if they can be,
      literals announced with a plus. */
  lemma CommandExactly(text: bytes, c: Command.Command)
    ensures text == c.Serialize() <==> IsCommand(text, c)
  {
    hide Command.Command.Serialize, Command.Command.Keyword, Spaced, ArgumentsOf, Texts, AreArguments, CommandWord;
    WordsOf(c);
    LineBreak();
    SerializeSpaces(c);
    ArgumentsExactly(Texts(ArgumentsOf(c)), ArgumentsOf(c));
    forall parts | AreArguments(parts, ArgumentsOf(c))
      ensures parts == Texts(ArgumentsOf(c))
    {
      ArgumentsExactly(parts, ArgumentsOf(c));
    }
  }
}
