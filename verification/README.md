# A verified model of io-managesieve

io-managesieve is an I/O-free client for RFC 5804 (ManageSieve). It is a stack
of resumable state machines, or coroutines, over a hand-written incremental
scanner: a coroutine is resumed with nothing, with a chunk read off a stream, or
with an empty chunk at its end, and answers that it wants a read, that it wants
some octets written, or that it is done. This project models that stack in
Dafny and proves what the layers promise together, over every input, every
server, every SASL mechanism and every way the network can cut a stream.

`dafny verify dfyconfig.toml` checks it.

## Layers

| files | what they model |
|---|---|
| Bytes, Decimal, Marker | octets, unsigned decimals, literal markers |
| Scanner, ScannerPrefix | one logical line: tokens, quoted strings, literals; verdicts do not change with what follows |
| Printer, RoundTrip | `quote`, `literal`, `string`; scanning undoes printing |
| Accepted, Grammar | the lines a scanner accepts are exactly those of a grammar |
| Response, ResponsePrefix | data lines, completions, response codes; responses form a prefix code |
| Words, CodeMeaning, Meaning, Octets | what octets, words, lines and responses mean, letter by letter, said without the parser and proved of it |
| Reader, Reading | the two base coroutines; the reader under every cut of a stream |
| Base64, Command, CommandLine | base64 (section 4 of RFC 4648), every command's serialiser, and reading a command back |
| Alphabet, Wire | the letters of an encoding, bit by bit; every command and client response, character by character |
| Replies, ReplyProperties, Calls | what each command keeps of its response, and what it tells its caller, said of the lines alone |
| PrintedReply, PrintedResponse, Transfer | responses a server prints, read back; upload then download |
| Exchange, Authenticate | the AUTHENTICATE exchange as a machine on values, and the object that refines it |
| ExchangeRun, ExchangeCuts, Consent, Schedule, Cancellation, Draining, RefreshLoss, Frames | whole runs of the exchange, under every cut, and its payloads on the wire |
| Endings, RunEndings | the transcript of every exchange, said of the lines of the server and the replies of the mechanism alone |
| Opening, SessionOpen | the session opener as a machine on values, and the objects that refine it |
| SessionStory, SessionEnding, SessionProtocol, SessionSuccess, Travel, Isolation, Injection | whole runs of the session opener, how they end, and what they never write |
| Witnesses | inputs on which the cut of a stream makes a difference |
| InStep, SignIn, Pump, Client, ClientSession | the blocking client, the pump behind it and whole sessions of calls |

The coroutines are classes whose fields the methods reassign. Each of them is
proved to refine a function on values (`ReadStep`, `SendStep`, `AuthStep`,
`SessionStep`): a `Resume` answers exactly what that function answers and leaves
exactly the state it leaves. The theorems about runs are about those functions.
Likewise the scanner and the parser are loops over an index, proved equal to
`Scan`, `ReadLine` and `ReadResponse`.

What those functions compute is in turn stated without them. `SpelledAs` gives a
word letter by letter; `IsLine`, `Means` and `IsResponse` say which octets are a
response and what it says; `Concludes` what a command tells its caller;
`Transcribes` how an exchange goes and ends; `Encodes` what base64 is, in bits;
`IsCommand` what is on the wire; `Exposed` which credentials must not travel. A
lemma ties each of them to the program, mostly by an if-and-only-if.

A mechanism is any function from everything it has been told so far to its
reply, which is any deterministic machine. A run delivers chunks on demand;
past the last one the stream has ended.

## What is false, and exactly when

* The verdict on a stream is the same under every cut if and only if nothing is
  decided past `MAX_RESPONSE` and one octets that was not decided within them
  (`ExactlyWhenChunksDoNotMatter`). Any response that short is read under every
  cut. `SomeVerdictDependsOnTheCut` gives a stream and two cuts that differ.
* An exchange gives one transcript under every cut if and only if no line it
  comes to is decided past that ceiling only and, when it goes on to refresh the
  capabilities, nothing past the completion could be decided by a refresh
  (`ExactlyWhenCutsDoNotMatter`). The only thing a run does that the reference
  does not is to give up such a line as `ResponseTooLarge`; a line that never
  ends is given up under every cut. `SomeExchangeDependsOnTheCut` gives a
  mechanism and a stream.
* AUTHENTICATE drops what it has buffered when it goes on to refresh the
  capabilities (src/rfc5804/authenticate.rs:496-501). The refresh reads from the
  first chunk boundary at or past the completion, so octets are dropped if and
  only if no read ended there (`RefreshReadsExactly`). The same octets succeed
  under one cut and fail under another (`BufferedReplyIsLost`, and
  `SomeRefreshIsLost` for a mechanism that meets its conditions).
* Whether octets trail a response, hence the `Injection` error of the greeting
  and of STARTTLS, depends on the cut: the guard fires if and only if no read
  ended where the response does (`InjectionExactly`;
  `SomeGreetingDependsOnTheCut` gives two cuts that differ).
* A scanner reads back what the printer wrote if and only if no literal is
  longer than `MAX_LITERAL` (`ScanUndoesPrinting`); a longer one is refused as
  `ScanOversized` says.
* `SETACTIVE` prints the absence of a name and the empty name alike, and that is
  the only collision between commands (`SerializeInjective`).
* The comment on `lex_quoted` says that `\n` in a quoted string is a literal
  `n`. The code refuses that escape, and every other but the two it lists
  (`EscapeIsRefused`).
* The comment on `MAX_RESPONSE` says that a server that never ends a line meets
  a parse error. The code reports `ResponseTooLarge`, under every cut
  (`EndlessLineIsTooLarge`).

## Model

| member | source | states |
|---|---|---|
| Decimal.ReadU32IsValue | src/utils.rs:196-199 | a checked 32-bit read of digits of any length, leading zeros included, fails exactly on the numbers that do not fit |
| Decimal.ValueOfPrint | src/utils.rs:253-254 | the decimal printed for a length reads back as that length |
| Marker.MarkerTrichotomy | src/utils.rs:196-207 | a marker is accepted as its value up to 8 MiB, too large up to 32 bits, or invalid, by the number it spells and nothing else |
| Marker.MarkerShape | src/utils.rs:182-194 | anything but `{digits}` or `{digits+}` is an invalid marker |
| Marker.MarkerAccepted | src/utils.rs:182-208 | a marker is accepted as `v` if and only if it spells `v` and `v` is at most 8 MiB |
| Marker.PrintedMarker | src/utils.rs:253-260 | the marker printed before `n` octets is read as `n`, up to the ceiling |
| Scanner.LexQuoted | src/utils.rs:144-174 | the index loop finds the octets and the end of a quoted string, or its first bad escape, as the recursive definition has them |
| Scanner.AtomEnd | src/utils.rs:120-125 | the first octet from a start that no atom can hold |
| Scanner.LexSegment | src/utils.rs:92-138 | the index loop over a physical line yields the tokens, the trailing marker or the first error of the recursive definition |
| Scanner.ScanLine | src/utils.rs:49-86 | the loop over physical lines reads the one logical line of the recursive definition, each literal's octets being content; the overflow arm is dead |
| ScannerPrefix.ScanStable | src/utils.rs:55-85 | a verdict on a line is unchanged by any octets that follow |
| ScannerPrefix.ScanLocal | src/utils.rs:55-85 | a line is reproduced from just the octets it consumed |
| ScannerPrefix.ScanPrefix | src/utils.rs:55-85 | every shorter prefix of a line is incomplete |
| Printer.QuoteValue | src/utils.rs:223-247 | the loop quotes exactly the values with no control character and within 1024 octets once escaped |
| RoundTrip.ScanUndoesPrinting | src/utils.rs:49-266 | any valid line of atoms, parentheses and strings, each string quoted or literal by any choice, scans back to exactly its tokens and length, whatever follows, if and only if its literals are within the ceiling |
| RoundTrip.ScanOversized | src/utils.rs:182-208 | a line with a literal past the ceiling is refused, with the error its first such literal calls for |
| Grammar.ScansExactlyTheGrammar | src/utils.rs:49-174 | the scanner answers tokens and a length if and only if that many octets are a line of the grammar, of those tokens: each in any spelling (quoted and escaped, or a literal with any marker of its length), white space around them, atoms kept apart, and a CRLF or a bare LF at the end |
| Accepted.ScanAcceptsSpellings | src/utils.rs:49-174 | the spelling of an accepted line, token by token |
| Accepted.OnlyEscapes | src/utils.rs:144-174 | a quoted string is read from its escaped octets and a closing quote only |
| Grammar.GrammarIsUnambiguous | src/utils.rs:49-86 | no octets are lines of two sequences of tokens |
| Grammar.EscapeIsRefused | src/utils.rs:155-163 | a backslash before anything but a quote or a backslash is refused, whatever comes before and after |
| Grammar.UnclosedIsRefused | src/utils.rs:144-174 | a quoted string nothing closes is refused as such, a backslash at its very end included |
| Octets.OctetIsRead | src/utils.rs:92-138 | each of the 256 octets on a line of its own is white space, an atom, a parenthesis, or refused with its own error |
| Octets.OctetAfterAtom | src/utils.rs:120-125 | right after an atom, each octet lengthens it or is what it would be alone |
| Octets.WordIsRead | src/rfc5804/response.rs:412-429 | a word alone on a line is a completion if it spells OK, NO or BYE in either case, and is refused as unknown, by its own octets, otherwise |
| CodeMeaning.CodeIsMeant | src/rfc5804/response.rs:452-506 | the tokens of a code are read as exactly the code whose name, letter by letter up to the first slash, whose detail and whose argument they are, unlisted if and only if no listed name is spelled; refused if and only if no atom opens them |
| Meaning.LineIsMeant | src/rfc5804/response.rs:310-325 | tokens are read as a line if and only if they mean it: data when a string opens them and nothing is a parenthesis, and otherwise a status, a code and a text |
| Meaning.LineIsRefused | src/rfc5804/response.rs:396-449 | tokens are refused with an error if and only if it is their reason: nothing there, a parenthesis out of place, a word that is no status, a code not closed, a code with no name |
| Meaning.StatusIsRead | src/rfc5804/response.rs:412-440 | a line no string opens is a completion of a status if and only if its first token is an atom spelling that status, in either case, and its code is closed and named |
| Meaning.LineIsRead | src/rfc5804/response.rs:310-325 | a buffer opens with a line of a length if and only if that many octets are a line of the grammar whose tokens mean it |
| Meaning.LineIsRefusedFor | src/rfc5804/response.rs:310-325 | a line of the grammar is refused with an error if and only if that is why its tokens mean nothing |
| Meaning.ResponseIsRead | src/rfc5804/response.rs:344-363 | a buffer opens with a response of a length if and only if that many octets are its data lines and its completion, each right after the one before |
| Response.FirstClose | src/rfc5804/response.rs:433-436 | a response code ends at the first closing parenthesis, and is unterminated if and only if there is none |
| Response.ParseLine | src/rfc5804/response.rs:310-325 | one line is read off the front by the scanning loop as `ReadLine` has it, which `Meaning.LineIsRead` states |
| Response.ParseResponse | src/rfc5804/response.rs:344-363 | the loop reads data lines up to a completion as the recursive definition does |
| PrintedResponse.CodeReadsBack | src/rfc5804/response.rs:452-506 | every response code reads back from its name and argument, an unlisted one if and only if no listed one goes by its name |
| PrintedResponse.CompletionReadsBack | src/rfc5804/response.rs:412-449 | a completion reads back from its status, its code between parentheses and its text |
| PrintedResponse.ResponseReadsBack | src/rfc5804/response.rs:344-363 | any response, however its tokens are spaced and each of its strings printed, reads back as that response and nothing more, whatever follows |
| ResponsePrefix.ResponseStable | src/rfc5804/response.rs:344-363 | a verdict on a response is unchanged by any octets that follow |
| ResponsePrefix.ResponseLocal | src/rfc5804/response.rs:344-363 | a response is reproduced from just the octets it consumed |
| ResponsePrefix.ResponsePrefix | src/rfc5804/response.rs:344-363 | every shorter prefix of a response is incomplete |
| ResponsePrefix.LinePrefix | src/rfc5804/response.rs:310-325 | every shorter prefix of a line is incomplete |
| ResponsePrefix.PrefixFree | src/rfc5804/response.rs:344-363 | no response is a proper prefix of another |
| ResponsePrefix.DataOpensOnString | src/rfc5804/response.rs:318-321 | every data line of a parsed response opens on a string |
| Reader.ResponseRead.Resume | src/send.rs:89-138 | one resume of the reader is `ReadStep`, and the reader never waits holding more than `MAX_RESPONSE` octets |
| Reader.CommandSend.Resume | src/send.rs:168-179 | one resume of a command is `SendStep`: the command once, then the reader, the argument that came with the write dropped |
| Reading.ChunksDoNotMatter | src/send.rs:89-138 | under every cut the reader gives the verdict on the whole stream |
| Reading.ResponseReadUnderEveryCut | src/send.rs:89-138 | a response within the ceiling and one octet is read under every cut |
| Reading.ExactlyWhenChunksDoNotMatter | src/send.rs:118-126 | the cut does not matter if and only if nothing is decided only past the ceiling |
| Reading.ReadingConserves | src/send.rs:128-136 | consumed, trailing and never requested octets make up the stream, under every cut |
| Reading.ReadsAreBounded | src/send.rs:93-138 | no stream of non-empty chunks takes more than `MAX_RESPONSE` and one reads |
| Reading.EndlessLineIsTooLarge | src/send.rs:118-126 | a server that never ends a line is given up as sending too much, under every cut |
| Alphabet.EncodedExactly | src/rfc5804/authenticate.rs:322-326 | a text is the encoding of a payload if and only if its letter `i` is the one that bits `6i` to `6i+5` number in the alphabet, enough of them to carry every bit, and equals signs fill the last group of four |
| Alphabet.DecodedExactly | src/rfc5804/authenticate.rs:476-479 | a text decodes to a payload if and only if it encodes it, bit by bit |
| Base64.DecodeOfEncode | src/rfc5804/authenticate.rs:322-326 | decoding undoes encoding, for every payload |
| Base64.DecodeIffEncode | src/rfc5804/authenticate.rs:476-479 | decoding accepts exactly the encodings of payloads |
| Frames.ClientResponseScansBack | src/rfc5804/authenticate.rs:322-326 | a client response is one line that scans back to one string, its encoded payload, if and only if that is within the ceiling |
| Frames.PayloadIsHeard | src/rfc5804/authenticate.rs:322-326 | a server reading a client response recovers the exact payload, whatever follows, if and only if its encoding is within the ceiling |
| Frames.InitialPayloadIsHeard | src/rfc5804/authenticate.rs:136-150 | likewise of the payload an AUTHENTICATE command carries |
| Wire.StringExactly | src/utils.rs:223-266 | a string argument is quoted if and only if it holds no octet below 32 and no 127 and has at most 1024 octets with a backslash before each quote and backslash; otherwise it is a literal announced by its decimal count and a plus |
| Wire.CommandExactly | src/rfc5804/putscript.rs:87-97 | what is written for a command is its word, each argument after a space, and CRLF, and no other text is: scripts are literals, every literal is announced with a plus |
| Wire.ClientResponseExactly | src/rfc5804/authenticate.rs:322-326 | a client response is one such string, its payload encoded, and CRLF |
| Command.SerializeIsRender | src/rfc5804/putscript.rs:87-97 | the line of every command is a rendered list of pieces whose tokens are its keyword and arguments, which is what lets it be scanned back (`Wire.CommandExactly` gives its characters) |
| CommandLine.CommandScansBack | src/rfc5804/renamescript.rs:74-84 | every command is one logical line that scans back to its keyword and exact arguments, whatever octets they hold, if and only if they are within the ceiling |
| CommandLine.SerializeInjective | src/rfc5804/setactive.rs:71-79 | a command within the ceiling prints like another if and only if they are one command, the two empty forms of SETACTIVE aside |
| Replies.EveryLineIsRead | src/rfc5804/capability.rs:113-127 | lines that open on strings give one entry each, in order, in terms of the accessors of a line (`Calls.ScriptsListed` says them of its tokens) |
| Calls.CapabilitiesListed | src/rfc5804/capability.rs:113-127 | the capabilities read are one for each line, in order, with its first string and, when its second token is one, its second |
| Calls.ScriptsListed | src/rfc5804/listscripts.rs:156-160 | the scripts read are one for each line, in order, named by its first string and active if and only if some atom of the line spells ACTIVE in either case |
| Calls.InterpretConcludes | src/rfc5804/getscript.rs:125-147 | what a command answers is the one outcome its lines conclude: a read error, a rejection with its whole completion, octets trailing STARTTLS, a missing script, or what its OK tells: the first string of the first line, the scripts, the capabilities, the text of WARNINGS, the tag |
| ReplyProperties.NoDataLineIsLost | src/rfc5804/listscripts.rs:156-160 | a parsed response gives as many capabilities or scripts as data lines; GETSCRIPT misses a script if and only if there is no data line |
| PrintedReply.ScriptReplyReads | src/rfc5804/getscript.rs:125-147 | a script sent as a literal and then OK parses to that script and nothing more |
| Transfer.ServerStoresTheScript | src/rfc5804/putscript.rs:87-97 | a server storing the script it scans from PUTSCRIPT stores its exact octets |
| Transfer.ScriptReplyFits | src/send.rs:34 | the reply carrying any readable script fits `MAX_RESPONSE` |
| Transfer.ScriptReplyCarries | src/rfc5804/getscript.rs:125-147 | the script as a literal and a bare OK is a reply that carries it |
| Transfer.DownloadIsWhatWasUploaded | src/rfc5804/getscript.rs:125-147 | uploading a script and downloading it is the identity under every cut of any reply that carries what was stored |
| Transfer.UploadThenDownload | src/client.rs:348-370 | two calls of one client in step, the second answered with the script scanned from what the first wrote: what is fetched is what was sent, and nothing is unread |
| Authenticate.Authenticate.ResumeSasl | src/rfc5804/authenticate.rs:272-281 | tells the mechanism one more thing and returns its payload or refusal |
| Authenticate.Authenticate.TakeLine | src/rfc5804/authenticate.rs:284-297 | takes exactly one line off the buffer, asks for more, or fails without touching it |
| Authenticate.Authenticate.SawCancellationReply | src/rfc5804/authenticate.rs:305-319 | the draining loop is `Drain`, and what it leaves when it asks for more is within the ceiling |
| Authenticate.Authenticate.CompleteExchange | src/rfc5804/authenticate.rs:329-367 | a completion is acted on as `OnCompletion` has it, which `Endings.CompletionConcludes` states |
| Authenticate.Authenticate.StartArm | src/rfc5804/authenticate.rs:384-424 | the opening command and what is held back, the credentials being there to take |
| Authenticate.Authenticate.ChallengeArm | src/rfc5804/authenticate.rs:466-493 | a challenge is answered from what was held back, or decoded and fed, or cancels the exchange |
| Authenticate.Authenticate.ReadArm | src/rfc5804/authenticate.rs:434-507 | one line read and acted on is `ReadingStep` |
| Authenticate.Authenticate.Resume | src/rfc5804/authenticate.rs:374-548 | one resume, round the six states, is `AuthStep`; the cause of a cancellation is there to report |
| Endings.CompletionConcludes | src/rfc5804/authenticate.rs:329-367 | a NO or BYE is reported whole, whatever is held back; an OK is unexpected while a word is held back; its data must decode; the mechanism is told the data and the end, and its first refusal is reported; otherwise the exchange succeeds or refreshes |
| Endings.ChallengeConcludes | src/rfc5804/authenticate.rs:466-493 | a challenge is answered if and only if a word is held back or it decodes and is not refused; otherwise the cancel line is written and the reason reported |
| Endings.ExchangeTranscribes | src/rfc5804/authenticate.rs:374-548 | for every mechanism, option and stream, the exchange has a transcript if and only if it is the one spelled out: what was written, all the mechanism was told, and the outcome, whatever line ended it |
| Endings.RejectionIsReported | src/rfc5804/authenticate.rs:329-336 | a rejection is reported if and only if the mechanism began, every challenge was answered and the completion is a NO or BYE; it is that completion |
| RunEndings.RefreshConcludes | src/rfc5804/authenticate.rs:540-544 | a refresh gives one capability for each line of an OK reply, and fails with the completion of any other or the error of the read |
| RunEndings.RefreshLists | src/rfc5804/authenticate.rs:540-544 | a refresh that succeeds under some cut lists the lines of the OK response its octets open with |
| RunEndings.EveryRunTranscribes | src/rfc5804/authenticate.rs:374-548 | in every run, under every cut, the transcript is the one spelled out, the refresh read from the first chunk boundary at or past the response; the one other outcome is to give up a line decided past the ceiling only |
| ExchangeRun.StepShrinks | src/rfc5804/authenticate.rs:374-548 | every resume that does not end the run makes progress, so every run ends |
| ExchangeRun.AbortReportsCause | src/rfc5804/authenticate.rs:518-538 | once cancelled, nothing more is written and every ending reports the cause |
| ExchangeCuts.ExchangeUnderEveryCut | src/rfc5804/authenticate.rs:434-538 | for every mechanism, option and stream, under every cut, the writes, the mechanism arguments and the outcome are those of reading the stream line by line, pipelined lines included, with the refresh reading from the first chunk boundary at or past the completion; the one other outcome is to give up a line decided past the ceiling only, and what was written and told before it is then as on the whole stream |
| ExchangeCuts.EveryRunBegins | src/rfc5804/authenticate.rs:434-538 | in every run, whatever the lengths of lines, what is written and told is the beginning of what the whole stream has written and told |
| ExchangeCuts.ExactlyWhenCutsDoNotMatter | src/rfc5804/authenticate.rs:284-297 | all cuts agree on the transcript if and only if every line reached is decided within the ceiling and a refresh finds nothing to decide; two cuts that differ otherwise |
| ExchangeCuts.CutsDoNotMatterWithoutRefresh | src/rfc5804/authenticate.rs:284-297 | without a refresh, all cuts agree if and only if every line reached is decided within the ceiling |
| Consent.ReferenceConsent | src/rfc5804/authenticate.rs:329-367 | without a refresh, the exchange on a stream succeeds if and only if the stream opens with a response all of whose payloads and end the mechanism accepts; then the writes and arguments are those of the agreed transcript |
| Consent.SucceedsIffConsented | src/rfc5804/authenticate.rs:384-493 | in every run, with a refresh or without and whatever the lengths of lines, success means the mechanism accepted to begin, every challenge and the end, its first word was written exactly once, and the run wrote and said exactly that, the refresh included; conversely, consent (and a refresh that succeeds) means success when every line reached is decided within the ceiling |
| Consent.RefreshedExchange | src/rfc5804/authenticate.rs:361-366 | asking for a refresh changes nothing of an exchange on a stream but what follows a success |
| Schedule.EveryRunIsScheduled | src/rfc5804/authenticate.rs:329-367 | in every run, successful or not, the mechanism is told to begin, then the decoded payload of each challenge in turn, one each, the first one skipped while a word is held back for it, then the data of an OK and the end of the exchange, as far as the run goes and never past a refusal |
| Cancellation.ResponseIsNoCancel | src/rfc5804/authenticate.rs:322-326 | no client response, for any payload, equals the cancel line |
| Cancellation.EveryRunIsSound | src/rfc5804/authenticate.rs:374-548 | in every run the mechanism is begun once, then fed, then told of the end at most once and last (what it is fed is in `EveryRunIsScheduled`); success needs that accepted; the cancel line is written at most once, last, and what is then reported is the mechanism's own last refusal or a challenge that does not decode; a challenge without a string is never met |
| Draining.DrainsOneResponse | src/rfc5804/authenticate.rs:305-319 | reading line by line until a completion consumes exactly the response read at once |
| Draining.DrainingInPieces | src/rfc5804/authenticate.rs:305-319 | draining what has arrived and then the rest is draining it all at once |
| Draining.DrainsWhileArriving | src/rfc5804/authenticate.rs:305-319 | a response still arriving is never taken for whole, and what is left of it is one response |
| RefreshLoss.BufferedReplyIsLost | src/rfc5804/authenticate.rs:496-501 | one stream, two cuts: the refresh succeeds under one and meets the end of the stream under the other |
| RefreshLoss.RefreshReadsExactly | src/rfc5804/authenticate.rs:496-501 | what the refresh reads is what follows the completion if and only if some read ended where the completion does, and the exchange is then the one on the stream |
| Witnesses.SomeVerdictDependsOnTheCut | src/send.rs:118-126 | a stream two cuts of which are read differently |
| Witnesses.SomeExchangeDependsOnTheCut | src/rfc5804/authenticate.rs:284-297 | a mechanism and a stream whose transcript depends on the cut, with no refresh |
| Witnesses.SomeRefreshIsLost | src/rfc5804/authenticate.rs:496-501 | a mechanism and a stream whose refresh succeeds under one cut and is lost under another |
| Witnesses.SomeSignInIsInStep | src/client.rs:348-370 | there is a sign-in in step that succeeds, its refresh included |
| Witnesses.SomeGreetingDependsOnTheCut | src/rfc5804/greeting.rs:119-124 | a stream whose greeting passes the guard under one cut and is refused under another |
| SessionOpen.GreetingGet.Resume | src/rfc5804/greeting.rs:113-137 | relays the reader, then refuses trailing octets, a rejection, or reads the capabilities |
| SessionOpen.StartTls.Resume | src/rfc5804/starttls.rs:123-148 | relays the command, then refuses trailing octets or a rejection |
| SessionOpen.SessionOpen.WantsAuth | src/session.rs:348-368 | no credentials, credentials that may not travel (`Travel.TravelsUnlessExposed` says which), or a fresh exchange with them taken |
| SessionOpen.SessionOpen.GreetingArm | src/session.rs:427-449 | the greeting hands its untaken argument to STARTTLS or to the exchange |
| SessionOpen.SessionOpen.StartTlsArm | src/session.rs:450-460 | the upgrade is asked for only on an OK nothing trails |
| SessionOpen.SessionOpen.Resume | src/session.rs:389-487 | one resume, through as many parts as it enters, is `SessionStep` |
| SessionStory.EveryRunIsAStory | src/session.rs:427-480 | every legal run still going has seen exactly the standalone parts in order, each fed exactly the chunks delivered after it began |
| SessionEnding.EveryRunEnds | src/session.rs:389-487 | every legal run that has finished saw such parts and what its last resume brought, and its outcome is that of the part then in charge: a refused greeting or STARTTLS with the error its octets call for, an upgrade not offered, credentials that may not travel, a mechanism that is not carried or will not begin, the end of the exchange, or the capabilities |
| SessionSuccess.AuthIsARun | src/session.rs:481-485 | the authentication of a session is a run of its own on exactly the chunks that arrived after it began |
| SessionSuccess.SuccessIsEarned | src/session.rs:389-487 | an opening that succeeds connected first, upgraded if and only if STARTTLS was asked for, authenticated if and only if it was given credentials, which could travel, with the consent of their mechanism; its capabilities are one for each line of the OK response of its last phase, the greeting or the refresh, read from exactly the chunks of that phase |
| SessionProtocol.EveryRunIsOrdered | src/session.rs:389-487 | in every legal run, finished or not: one connect, first, or a refusal before anything; at most one upgrade; anything written but STARTTLS belongs to credentials that may travel at that point (`Travel.NothingIsExposed` says which) |
| Travel.TravelsUnlessExposed | src/session.rs:348-368 | credentials may travel if and only if the connection was upgraded, or it is not plain TCP, or that is allowed, or they are none of PLAIN, LOGIN, OAUTHBEARER and XOAUTH2 |
| Travel.NothingIsExposed | src/session.rs:389-487 | in every legal run over plain TCP with such credentials, not allowed in the clear, nothing but the STARTTLS line is written before the upgrade |
| Travel.CleartextExactly | src/session.rs:348-368 | an opening ends in the refusal of cleartext credentials if and only if they are exposed, no upgrade was asked for and the greeting received is a clean OK; it names them |
| Travel.UnsupportedExactly | src/session.rs:427-449 | it ends in an unsupported upgrade if and only if one was asked for over plain TCP, nothing was written, and the greeting received is a clean OK no line of which spells STARTTLS |
| Travel.OverTlsExactly | src/session.rs:395-399 | it is refused before connecting if and only if an upgrade was asked for over TLS or a socket |
| Travel.OfferIsSpelled | src/rfc5804/capability.rs:143-147 | a greeting offers the upgrade if and only if some line of it opens on a string that spells STARTTLS in either case |
| SessionEnding.RefusedExactly | src/rfc5804/greeting.rs:113-137 | a greeting or a reply to STARTTLS is refused if and only if the stream ended, it cannot be read, it is too large, octets trail it, or it is no OK; with that error |
| SessionProtocol.UpgradeIsEarned | src/session.rs:450-469 | in every legal run, finished or not, the upgrade follows a greeting that offered it, a written STARTTLS and a clean OK; nothing is written after it before the second greeting has been read |
| Isolation.NothingCrossesTheUpgrade | src/session.rs:461-485 | two openings that both reach the upgrade answer alike from there on, whatever was read in the clear (section 2.2 of RFC 5804) |
| Injection.TrailedExactly | src/send.rs:128-136 | octets trail a response if and only if no read ended where it does |
| Injection.InjectionExactly | src/rfc5804/starttls.rs:127-133 | the guard of the greeting and of STARTTLS fires if and only if no read ended where the response does |
| InStep.PoisedStep | src/rfc5804/authenticate.rs:374-548 | an exchange given one line, or one response, per write asks for the rest of it, writes with nothing unread, or ends with nothing unread |
| InStep.ReadsInStep | src/send.rs:89-138 | a reader given part of one response asks for more, and given the last of it returns it with nothing trailing |
| SignIn.ExchangeSignsIn | src/rfc5804/authenticate.rs:374-548 | the exchange on the replies has a transcript if and only if it is the one their lines and the mechanism spell out, a refresh listing the lines of the last reply |
| SignIn.InStepIsExact | src/rfc5804/authenticate.rs:374-548 | an exchange in step, whatever its reads were, is the one on the replies: its writes, what it tells the mechanism and its outcome, the refresh reading the whole of the last reply |
| InStep.OpeningCallsForLine | src/rfc5804/authenticate.rs:136-150 | an opening command calls for a line: it is not the cancel line and it opens as AUTHENTICATE does |
| InStep.CommandCallsForResponse | src/rfc5804/putscript.rs:87-97 | no other command calls for a line: none opens as AUTHENTICATE or as a string does |
| InStep.ClientResponseCallsForLine | src/rfc5804/authenticate.rs:322-326 | a client response calls for a line, for any payload |
| Client.Stream.Read | src/client.rs:360-363 | a read takes some of what has been said, and nothing only at the end |
| Client.Calling.Resume | src/rfc5804/noop.rs:129-155 | a command coroutine relays its send and answers what the lines of its response conclude |
| Client.ClientStd.Call | src/client.rs:348-370 | running one command writes it once and takes exactly the octets its outcome is read off; in step, the outcome is what the lines of the one response tell, command by command, and nothing is unread |
| Client.ClientStd.Login | src/client.rs:348-370 | running an exchange is the run on exactly the octets taken; in step, the writes, the mechanism arguments and the outcome are those the lines of the replies and the mechanism spell out, a rejection with its completion and a refresh with its lines included, and nothing is unread whatever the outcome |
| ClientSession.Session | src/client.rs:348-370 | over any sequence of calls in step, each call is answered from exactly the replies to its own writes, in order, a command by what the lines of its response tell, a sign-in by what the lines of its replies and its mechanism spell out; and nothing is unread at the end |

## Left out

- Sockets, TLS, nonce drawing, URL parsing and I/O errors: the stream behind the client is an object that delivers some prefix of what the server has said, or its end.
- io-sasl: not part of this model. A mechanism is an arbitrary function of everything it has been told, its refusals are numbered, and its registered name is written out; the cram-md5 and scram features count as on.
- Lossy UTF-8 decoding, `Display` implementations, logging and `escape_byte_string`: for reading only. Names, texts, tags and codes are kept as octets.
- The async client and the macro that delegates each call: one-line forwarding.
- The raw command, and the greeting called on a client by itself.
- Command modules other than the two that gate the upgrade share one class, `Client.Calling`, and one error type, the per-command enums being alike.
- Capability accessors other than STARTTLS: a lookup each.
- Resuming after completion, and a chunk where the contract of a resume says nothing: outside the documented contract.
- Machine integers: sizes are unbounded, with the 64-bit limits stated where they matter (`USIZE_MAX` in the overflow check of `ScanLine`, `ISIZE_MAX` on the length of a buffer and `CHUNK_MAX` on that of a chunk). The size in HAVESPACE is any natural number.
- ClientSession.Session: the program has no such loop; it stands for the calls a caller makes one after the other.
- Transfer.UploadThenDownload: likewise, the two calls of a caller that uploads and downloads.
- Client.ClientStd.Call: the source's generic `run` is written twice, here and in `Login`, because a command and an exchange are different classes.
- Nested extension data in a response code: the code ends at its first closing parenthesis, as in the source.
