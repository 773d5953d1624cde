# decof: a verified model

This project models five parts of the decof parameter server and proves what they are for.

- **The CLI value language.** The printer of values (`Encoder`), the table-driven scanner (`ScannerTables`,
  `ScannerRules`, `Scanner`), the table-driven LR parser with its pointer-sharing value stack (`LrTables`,
  `LrMachine`, `Parser`), the escape and base64 codecs (`Escapes`, `Base64`), and the whole pipeline from a value to
  its text and back (`Lexemes`, `Pipeline`), with the text of real numbers as streams print it (`RealText`). The
  automaton is proved equal to the seven lexical rules written as regular expressions (`Regex`, `ScannerRules`), and
  the parser to the grammar written as productions and derivation trees (`Grammar`). `ScannerInput` tells from the
  text alone which calls lose bytes and which inputs are read to their end, `Conversions` which inputs make a
  conversion fail or leave it undefined, and `Literals` what every word of a lexical rule is read as. `EscapeSyntax`
  and `Base64Standard` write the two codecs down a second time, as a language of escapes and as the groups and the
  table of the standard, and prove them the same.
- **The publish connection.** The coalescing update container as a map threaded into a list (`UpdateContainer`),
  and the sender that keeps one write in flight (`Publisher`), over whole runs of notifications, error lines and
  completed writes, up to the values a receiver gets out of the stream (`Delivery`).
- **The SCGI byte machines.** The incremental request parser with its counters (`RequestSpec`, `RequestParser`)
  and the bencode reader with the loop that decodes a sequence of strings (`Bencode`). `ScgiStandard` compares what
  is accepted with what the SCGI specification calls a request.
- **The object tree.** Links changed in place by construction, adding, removing, moving and destruction (`Links`,
  `Ancestry`, `ObjectTree`), and the agreement of qualified names with look-up (`Naming`).
- **The subscription account** over client contexts, parameters and the tick list (`Subscriptions`).

## How to read it

What the source changes in place is a class here, with the source's fields. Each of its methods is proved against a
function on values (`Scanner.Lex` against `ScannerSpec.NextToken`, `Parser.Parse` against `Grammar.ParseTokens`,
`PubsubContext` against `PublisherSpec.Step`, `RequestParser` against `RequestSpec.Consume` and `Parse`,
`TreeObject` against the functions of `Links`, the subscription classes against `SubscriptionSpec`), and the lemmas
about those functions say what the parts promise. Bytes are integers from 0 to 255; text is a sequence of bytes.
64-bit counters wrap where the source's do. A computation that has no result either throws or is undefined, and the
two are told apart: where the source's behaviour is undefined, the model says so and promises nothing else.
`KnownAnswers` has inputs of the repository's own tests with the bytes they expect.

## What turned out to be false, and when exactly it is true

- Bytes 0 to 8 have no transition in the scanner's table, although the last lexical rule matches any character.
  `ScannerRules.AgreementIsExact` says for which words the table and the rules agree.
- What the scanner read beyond a match is pushed back as signed `char`s, and negative ones are dropped: of the two
  bytes 34 and 128, the second is neither matched nor unread (`ScannerInput.QuoteLosesByte`). A call conserves its
  input exactly if it does not come to an opening quote that is never closed before the automaton stops, with a
  byte from 128 on behind it (`ScannerInput.ConservationIff`).
- A character from 128 on that only the last rule matches is returned as a negative `char`; the parser takes any
  token number that is not positive for the end of the input, so the text after `5` is never looked at if it begins
  with such a byte (`Pipeline.HighByteEndsInput`). The tokens account for the whole input exactly if no byte from
  128 on stands outside a string (`ScannerInput.ReadToEndIffClean`, `Pipeline.WholeIffClean`).
- Integers are printed with 64 bits and read with 32; and a string that needs a `\x` escape leaves the stream in
  hexadecimal for the rest of the value. A real number that is printed without a point is read as an integer; an
  exponent without a point, or with the plus sign that streams print, is no part of any token. `Pipeline.RoundTrip`
  and `Pipeline.AllSurviveMeans` give the exact condition under which a value is read back.
- `parse()` may return 1 although the result is already assigned, and the command dispatcher ignores what it
  returns: this happens exactly if an expression is followed by at least one more token
  (`Grammar.AssignedIffFollowed`), as in `5]` (`Pipeline.BracketBehindInteger`).
- The base64 decoder erases one byte for each `=`, even if there are more of them than bytes, and reads past the end
  of a text whose last group is a single character. Both are undefined: `&==` is an input (`TwoPadsAreUndefined`),
  and parsing what the scanner delivers is undefined exactly if such a binary stands where a scalar may stand and
  everything before it is converted (`Conversions.UndefinedIff`). The printer's output never is
  (`Conversions.PrintedIsDefined`).
- A publisher on a socket that reports a send buffer of size zero never sends an update, though it does send error
  lines: `PublisherSpec.PublishesIffBuffer`, `PublisherSpec.StallsOnlyWithoutBuffer`.
- Within one filling of the buffer the hexadecimal flag is carried over from one published line to the next: 255
  behind a string with the byte 1 leaves as `ff` in a run of four events (`Delivery.HexIsCarriedOver`). Over all runs,
  a line is printed in hexadecimal exactly if an earlier line of its filling published a string that needs a numeric
  escape (`Delivery.RunFlags`), and a receiver gets the notified value back exactly if it survives under that flag
  (`Delivery.WireIsReceived`).
- `0:,` is accepted as a request although the SCGI specification demands a `CONTENT_LENGTH` header
  (`RequestSpec.NoHeaderIsAccepted`); so is a block that holds only that header (`ScgiStandard.OneHeaderIsAccepted`).
  `RequestSpec.GoodExactlyOnRequests` describes exactly what is accepted. Of that, what has both mandatory headers,
  a body length without a sign, a block length without leading zeros and no name twice conforms, and nothing else
  (`ScgiStandard.AcceptedConformsIff`); of what conforms, requests with a comma in a name or with `SCGI` behind the
  second place are not accepted (`ScgiStandard.ConformingIsAcceptedIff`).
- The phase "in a header name" is never entered (`RequestSpec.NeverInHeaderName`): names are read in the phase that
  starts a header, which is why a comma in a name is an error.
- Whatever stands behind a request in the read that ends it takes the good verdict away again
  (`RequestSpec.NothingMayFollow`); one byte behind a body is taken into the body (`RequestSpec.TrailingByte`).
- The decode loop does not look at the two bytes between strings (`BencodeSpec.DecodeIffFramed`), and its iterator
  steps over the end exactly for strings with two bytes behind each of them but a single one behind the last
  (`BencodeSpec.PastEndIffStray`), such as `01:ab`. The trim in front of the loop breaks the round trip exactly for
  a last string that ends in white space: `BencodeSpec.TrimmedRoundTrip`.
- Adding an ancestor as a child, or moving an object below itself or a descendant, closes a loop; nothing in the
  source prevents it: `Ancestry.AddIffNotAbove`, `Ancestry.ResetIffNotAbove`.
- The observation count is exact over all runs exactly if URIs are unique and every parameter hangs below the
  dictionary, and an observation that throws while the current value is read stays counted for ever:
  `SubscriptionSpec.BalancedIffDistinct`, `SubscriptionSpec.CountsAreExact`.
- `unobserve` uses its object before any check, and unsubscribing hands it whatever the look-up finds. What happens
  is undefined exactly for a URI that names no object: `TreeSubscriptions.UnsubscribeIsUndefinedIff`.

## Model

| member | source | states |
|---|---|---|
| Numerals.DecimalTextRoundTrip | src/cli/parse.cpp:393-397 | the decimal text of a 64-bit integer is an integer lexeme, and 32-bit `stoi` gives it back or throws exactly outside the 32-bit range |
| Numerals.IntegerRoundTrip | src/cli/encoder.cpp:95-98 | an integer survives printing and reading exactly if it fits 32 bits or, printed in hexadecimal, is a single decimal digit |
| Numerals.PlaceValues | src/cli/parse.cpp:393-397 | the digits of an integer count by their place in decimal |
| Numerals.HexTextMeans | src/cli/encoder.cpp:95-98 | with the hexadecimal flag an integer is printed modulo 2 to the power of 64, in lower case |
| Escapes.EscapeRoundTrip | src/cli/encoder.cpp:107-136 | unescaping the escaped text gives back every byte string |
| Escapes.EscapedIsPrintable | src/cli/encoder.cpp:123-133 | escaped text stays within 0x20 to 0x7F, so it cannot break newline framing or meet a byte the scanner rejects |
| Escapes.DecodeEscapes | src/cli/decoder.h:45-131 | the four-state machine, writing into the buffer it reads from, yields the functional decode of the original text, throws exactly where that fails, and leaves the bytes outside alone |
| EscapeSyntax.DecodesIffUnits | src/cli/decoder.h:45-131 | a text decodes exactly if it is made of plain characters, the eleven letter escapes and two hexadecimal digits of either case, and it decodes to what these stand for |
| EscapeSyntax.UnknownEscape | src/cli/decoder.h:91-97 | any other letter behind a backslash is an exception, whatever follows |
| EscapeSyntax.PrintedAsIs | src/cli/encoder.cpp:123-133 | printable characters but the four special ones are printed unchanged, and only they |
| EscapeSyntax.NumericIff | src/cli/encoder.cpp:123-133 | a numeric escape is printed exactly for bytes from 128 on and for the control characters without a letter |
| EscapeSyntax.PrintedUnit | src/cli/encoder.cpp:109-133 | a character is printed as it is, by its letter, or by two lower-case hexadecimal digits |
| Base64.EncodedShape | src/cli/encoder.cpp:32-45 | the text has whole groups of four alphabet characters and the pad count of section 4 of RFC 4648 |
| Base64.RoundTrip | src/cli/decoder.cpp:26-39 | replacing pads, regrouping bits and erasing the pad count restores every byte string of every length |
| Base64.UndefinedIffMalformed | src/cli/decoder.cpp:26-39 | on a text over the alphabet nothing is thrown, and decoding is undefined exactly if its length is 1 modulo 4 or it has more pads than three quarters of its length |
| Base64.EncodedIsWellFormed | src/cli/encoder.cpp:32-45 | the encoder's text is never of that kind |
| Base64Standard.EncodesByGroups | src/cli/encoder.cpp:32-45 | the bit iterators write what the groups of three bytes and the alphabet of section 4 of RFC 4648 say |
| Base64Standard.DecodesByGroups | src/cli/decoder.cpp:26-39 | every defined text, also with pads in strange places, decodes to the bytes of its groups of four without as many from the end as there are pads |
| Encoder.Encoder.EncodeChar | src/cli/encoder.cpp:123-133 | one character appends its escape, and the hexadecimal flag is set exactly by a numeric escape |
| Encoder.Encoder.EncodeString | src/cli/encoder.cpp:107-136 | the quoted escaped text is appended; the flag ends up set if any character needed a numeric escape or it was set before |
| Encoder.Encoder.EncodeScalar | src/cli/encoder.cpp:90-141 | each kind of scalar appends its text under the stream's current flag, and a string may set the flag for what follows |
| Encoder.Encoder.EncodeElements | src/cli/encoder.cpp:62-88 | the loop appends the elements with commas between them, each under the flag its predecessors left |
| Encoder.Encoder.EncodeValue | src/cli/encoder.cpp:57-88 | a value appends its text and leaves the flag its elements leave |
| ScannerTables.TableMeaning | src/cli/lex.cpp:42-76 | the range table and the transition table together are the byte-level automaton, and no row continues at end of file |
| ScannerRules.RunDecides | src/cli/lex.cpp:42-76 | from every state, running the automaton decides what is left of each rule |
| ScannerRules.AutomatonIsRules | src/cli/scanner.flexc++:28-47 | for every word, the automaton reports the earliest rule matching all of it, and rejects words with a byte below 9 |
| ScannerRules.AgreementIsExact | src/cli/lex.cpp:20-30 | table and rules agree on a word exactly if it has no byte below 9 or no rule matches it |
| ScannerRules.NulIsRejected | src/cli/lex.cpp:20-30 | the byte 0 matches the last rule but is rejected by the table |
| ScannerSpec.MaximalMunch | src/cli/lex.cpp:368-383 | a match is the longest accepted prefix, reported for the earliest rule, and there is none only if no prefix is accepted |
| ScannerSpec.Accounting | src/cli/lex.cpp:433-482 | the input of a call is, in order, what is skipped, the lexeme, what was read beyond it and what was not read; the unread rest is the last part behind those bytes of the third that are below 128 |
| ScannerSpec.ConservedIffAscii | src/cli/lex.cpp:124-137 | skipped bytes, lexeme and unread rest are the input exactly if what was read beyond the lexeme holds no byte from 128 on |
| ScannerInput.QuoteMatch | src/cli/lex.cpp:299-329 | a closed string is matched as a whole; an opening quote that is not closed is matched alone, after the automaton has read the string's text |
| ScannerInput.ConservationIff | src/cli/lex.cpp:124-137 | a call conserves its input exactly if the text behind the blanks and control characters does not begin with an opening quote that is never closed and has a byte from 128 on behind it |
| ScannerInput.QuoteLosesByte | src/cli/lex.cpp:124-137 | of an opening quote and the byte 128, the quote is the lexeme and nothing is left unread |
| ScannerInput.EchoedIsUnmatched | src/cli/lex.cpp:433-482 | of the bytes a call passes over, exactly those that no rule matches are echoed, in order |
| ScannerInput.ReadToEndIffClean | src/cli/lex.cpp:398-431 | the tokens go on to the end of the input exactly if no byte from 128 on stands outside a string, those that are lost in pushing back not counted |
| ScannerSpec.NextToken | src/cli/lex.cpp:433-482 | every call makes a non-empty input shorter, and reports end of file only when nothing is left |
| ScannerSpec.FirstStepIsFinal | src/cli/lex.cpp:357-362 | after any first byte the automaton is in an accepting state, so echoing the first of several characters never happens |
| ScannerSpec.StuckAfter | src/cli/lex.cpp:299-329 | when the automaton stops, the longest match lies within what it has read, also if it overran the last accepting state |
| Scanner.Scanner.Next | src/cli/lex.cpp:106-122 | pushed-back characters come before the stream |
| Scanner.Scanner.ReReadMatched | src/cli/lex.cpp:133-137 | pushing back the tail of the match puts its characters below 128 in front of the unread input, in order, and drops the others |
| Scanner.Scanner.UpdateFinals | src/cli/lex.cpp:368-383 | inside a cycle, the record becomes length and rule of the longest accepted prefix of what was read so far |
| Scanner.Scanner.EndMatch | src/cli/lex.cpp:299-329 | the matched text is cut to the recorded length; of what was read past it, the bytes below 128 are unread again, in front of the rest |
| Scanner.Scanner.ReportMatch | src/cli/lex.cpp:398-431 | a longest match that is not of blanks is the token of the call, with its lexeme and unread rest; behind one of blanks the call goes on with less to read |
| Scanner.Scanner.Decide | src/cli/lex.cpp:433-482 | fetching and classifying a character keeps the state of the cycle in step with the automaton |
| Scanner.Scanner.Lex | src/cli/lex.cpp:433-482 | the loop delivers the token, lexeme, rest and echo that the maximal-munch specification gives, with the losses in pushing back |
| Grammar.DerivedIsAccepted | src/cli/grammar.bisonc++:48-140 | what the grammar derives is accepted with the value the grammar assigns, or the parse fails as its first failing conversion does |
| Grammar.AcceptedIsDerived | src/cli/grammar.bisonc++:48-140 | an accepted token sequence has a derivation tree with that value |
| Grammar.AcceptedIffDerived | src/cli/grammar.bisonc++:48-140 | acceptance with a value holds exactly if some derivation has that value, for every token sequence |
| Grammar.AssignedIffFollowed | src/cli/parse.cpp:366-384 | the parse returns 1 with a result already assigned exactly if a derivation of an expression with that value yields a proper prefix of the tokens |
| LrTables.SearchIsAction | src/cli/parse.cpp:478-508 | the linear search with the token written into the sentinel finds the action of the table |
| LrTables.TypeMeaning | src/cli/parse.cpp:72-80 | the type stored with a state tells exactly whether the state needs a token before it can look anything up |
| LrMachine.ReducePossible | src/cli/parse.cpp:355-454 | whenever the table asks for a reduction, the stack is deep enough and every slot read by the action holds a value of the tag read |
| LrMachine.ReducingToken | src/cli/parse.cpp:332-337 | while the table asks for a reduction no token is saved, so saving the current one overwrites nothing |
| LrMachine.LexemeMatters | src/cli/parse.cpp:386-414 | a conversion reads the text of its own token, never that of a lookahead |
| LrMachine.NullBelow | src/cli/parse.cpp:310-320 | under a series that is moved there are null values only, so sharing a pointer overwrites nothing |
| LrMachine.StepFollows | src/cli/parse.cpp:620-649 | one round keeps the invariant and the outcome the grammar gives, and comes closer to the end |
| LrMachine.RunsAreSafe | src/cli/parse.cpp:620-649 | on every token sequence every run keeps the stack at most five deep, terminals null and nonterminals of their kind, and has at most ten rounds per token and ten more |
| Parser.Parser.Push | src/cli/parse.cpp:310-320 | the state and the current value end up in the next slot, also when the vectors have to grow |
| Parser.Parser.NextToken | src/cli/parse.cpp:458-473 | fetching a token is the machine's fetch: a current token stays, a saved one comes back with its value, and else the scanner's next one is taken, with any number that is not positive as end of file |
| Parser.Parser.Pop | src/cli/parse.cpp:339-348 | as many states are dropped as asked for, or the original aborts if there are not enough |
| Parser.Parser.Lookup | src/cli/parse.cpp:478-508 | the search through the mutable table row yields the action of the table |
| Parser.Parser.GetVal | src/cli/parserbase.h:274-283 | a null or differently tagged value is replaced by a new one of the tag |
| Parser.Parser.ConvertScalar | src/cli/parse.cpp:386-414 | the scalar of the token fetched last, or an exception, or undefined behaviour, exactly where its conversion has it |
| Parser.Parser.MovingAction | src/cli/parse.cpp:366-446 | the actions that move a series do to the pointers what the grammar's actions do to the values |
| Parser.Parser.ExecuteAction | src/cli/parse.cpp:355-448 | every semantic action computes the grammar's value from the slots, or fails as that does, and leaves the slots below alone |
| Parser.Parser.ExecuteDue | src/cli/parse.cpp:355-454 | whenever a reduction is due, its action finds the slots it reads, computes the machine's value or fails exactly as that does, and leaves the slots below alone |
| Parser.Parser.ReduceBy | src/cli/parse.cpp:450-454 | a reduction is the machine's reduction on the pointers, or fails as that does |
| Parser.Parser.ErrorRecovery | src/cli/parse.cpp:517-590 | no state can handle an error token, so the parse ends with 1 |
| Parser.Parser.Perform | src/cli/parse.cpp:632-645 | what the table says of the current token is done to the pointers as the machine does it, or ends the parse as the machine does |
| Parser.Parser.Parse | src/cli/parse.cpp:620-649 | terminates on every input; returns 0 with the grammar's value, returns 1, raises, or is undefined, exactly as the grammar and the conversions say for the tokens delivered |
| Lexemes.LexemeIsToken | src/cli/lex.cpp:433-482 | an accepted lexeme behind which the automaton is stuck is delivered as the next token |
| Pipeline.ScalarIsToken | src/cli/encoder.cpp:57-141 | the text of a scalar in front of a delimiter is delivered as one token of its kind |
| Lexemes.HexTokens | src/cli/encoder.cpp:131-131 | hexadecimal text with a letter puts the letter among the first two tokens, where no grammar rule takes it |
| Lexemes.MarkTokens | src/cli/encoder.cpp:100-105 | a real printed with an exponent but without a point, or with a plus sign, puts the exponent's mark among the first two tokens |
| Pipeline.SeriesReadBack | src/cli/encoder.cpp:62-88 | a series is read back exactly if every element survives under the flag it is printed with |
| Pipeline.RoundTrip | src/cli/parse.cpp:620-649 | encoding, scanning and parsing give back a value exactly if all its elements survive, reals included |
| Pipeline.AllSurviveMeans | src/cli/encoder.cpp:90-133 | the condition, element by element: integers of 32 bits, or of a single digit behind a string that needed a numeric escape; reals with a point and no plus sign whose digits are read as the same number |
| Literals.BooleanLiteral | src/cli/parse.cpp:386-391 | a word of the first rule is read as true or false |
| Literals.IntegerLiteral | src/cli/parse.cpp:393-396 | every word of the second rule is read as its number if that fits 32 bits, and raises otherwise |
| Literals.RealLiteral | src/cli/parse.cpp:398-401 | every word of the third rule is read as the number `stod` makes of it, or raises where that throws |
| Literals.StringLiteral | src/cli/parse.cpp:403-408 | every word of the fourth rule is read as what stands between its quotes, unescaped |
| Literals.BinaryLiteral | src/cli/parse.cpp:410-413 | every word of the fifth rule is read as the bytes behind its ampersand, or fails as their decoding does |
| Literals.CharacterIsToken | src/cli/lex.cpp:421-424 | any other character is a token of its own number, or the end of the input from 128 on |
| Pipeline.WholeIffClean | src/cli/parse.cpp:469-470 | an accepted text was read as a whole exactly if no byte from 128 on stands outside a string |
| Pipeline.HighByteEndsInput | src/cli/parse.cpp:469-470 | `5`, the byte 128 and a closing bracket are accepted as the integer 5, although they are no expression as a whole |
| Pipeline.BracketBehindInteger | src/cli/parse.cpp:366-384 | `5]` makes the parse return 1 with 5 assigned |
| Conversions.FailsIff | src/cli/parse.cpp:386-414 | parsing any token sequence throws, or is undefined, exactly if a conversion that does so stands where a scalar may stand and everything before it is converted |
| Conversions.UndefinedIff | src/cli/decoder.cpp:34-37 | parsing what the scanner delivers for any text is undefined exactly if a binary with a last group of one character, or with more pads than bytes, is what is reached so |
| Conversions.TwoPadsAreUndefined | src/cli/decoder.cpp:34-37 | the text `&==` is such an input |
| Conversions.PrintedIsDefined | src/cli/encoder.cpp:57-141 | parsing the text of a value is never undefined, whether or not the value survives |
| Pipeline.PrintAndParse | src/cli/encoder.cpp:57-141 | the same for the imperative printer, scanner and parser together |
| UpdateQueue.PushReplaces | src/cli/update_container.cpp:38-43 | pushing a present URI replaces its update where it stands |
| UpdateQueue.PushAppends | src/cli/update_container.cpp:45-59 | pushing a new URI appends |
| UpdateQueue.QueuedIsLatest | include/decof/cli/update_container.h:44-58 | over every history, a queued update carries the value and time of the latest push of its URI |
| UpdateQueue.QueuedByArrival | include/decof/cli/update_container.h:44-58 | over every history, the queue is ordered by the pushes that made its URIs enter it |
| UpdateContainer.UpdateContainer.Push | src/cli/update_container.cpp:28-60 | the threaded map stays a list over exactly its entries, and its contents become those of the queue's push |
| UpdateContainer.UpdateContainer.PopFront | src/cli/update_container.cpp:62-81 | the head is taken off with its value and time; an empty container throws and is unchanged |
| UpdateContainer.UpdateContainer.Empty | src/cli/update_container.cpp:83-86 | tells whether the sequence is empty |
| PublisherSpec.StepKeeps | src/cli/pubsub_context.cpp:98-145 | every handler keeps: a write in flight exactly if the flag is set, nothing queued or buffered otherwise, bytes and updates accounted for |
| PublisherSpec.AtMostOneWrite | src/cli/pubsub_context.cpp:117-145 | over every run at most one write is in flight, and the flag says whether there is one |
| PublisherSpec.StallsOnlyWithoutBuffer | src/cli/pubsub_context.cpp:124-137 | after every handler a non-empty queue or buffer implies a write in flight, for all runs, exactly if the socket's buffer size is not zero |
| PublisherSpec.PublishesIffBuffer | src/cli/pubsub_context.cpp:124-137 | no run publishes an update exactly if the socket's buffer size is zero |
| PublisherSpec.WholeBufferIsWritten | src/cli/pubsub_context.cpp:117-145 | a handler that starts a write starts it on the whole buffer, and while one is in flight nothing is taken from the queue |
| PublisherSpec.CutIs | src/cli/pubsub_context.cpp:107-112 | the root keeps its name, and every other URI loses the root's name and the separator |
| PublisherSpec.BytesConserved | src/cli/pubsub_context.cpp:117-145 | what has left and what is buffered is the lines in full and in order |
| PublisherSpec.PublishedInOrder | src/cli/pubsub_context.cpp:107-115 | the published updates of a URI are a subsequence of its notified ones |
| PublisherSpec.IdleMeansCurrent | src/cli/pubsub_context.cpp:98-145 | whenever no write is in flight everything has left and the last line of each URI carries its last notified update |
| PublisherSpec.ComesToRest | src/cli/pubsub_context.cpp:98-105 | from every reachable state finitely many completions end with no write in flight |
| PublisherSpec.EventuallyCurrent | src/cli/pubsub_context.cpp:98-145 | after those completions the wire ends each URI's lines with its last notified update |
| PublisherSpec.UpdateIsFramed | src/cli/pubsub_context.cpp:131-133 | whatever bytes a value holds, its line has a newline at the end and nowhere else |
| PublisherSpec.LineIsReadBack | src/cli/pubsub_context.cpp:131-133 | a receiver can take time, URI and value text out of a published line |
| PublisherSpec.LinesAreRecovered | src/cli/pubsub_context.cpp:124-134 | cutting the stream at newlines gives back the lines |
| Delivery.HexAfterValueIs | src/cli/encoder.cpp:131-131 | printing a value leaves the stream in hexadecimal exactly if it was before or the value holds a string that needs a numeric escape |
| Delivery.DrainFlags | src/cli/pubsub_context.cpp:122-134 | a filling publishes the first updates of the queue, each in hexadecimal exactly if an earlier queued value holds such a string |
| Delivery.DrainStopsWhenFull | src/cli/pubsub_context.cpp:124-134 | a filling ends exactly when the queue is empty or the buffer holds as many bytes as the socket's buffer, and not before |
| Delivery.RunFlags | src/cli/pubsub_context.cpp:117-145 | over every run, each published line belongs to the filling of one handler, whose place in the lines is given, and is in hexadecimal exactly if an earlier line of that filling published such a string |
| Delivery.HexIsCarriedOver | src/cli/pubsub_context.cpp:98-145 | in the run that notifies any value, a string holding the byte 1 and the integer 255, and completes the first write, the integer leaves as `ff` |
| Delivery.ReceivedIffSurvives | src/cli/pubsub_context.cpp:131-133 | reading a line and parsing its value text gives the published value exactly if that survives under the flag of the line |
| Delivery.WireIsReceived | src/cli/pubsub_context.cpp:98-145 | over every run at rest, cutting the wire into lines and parsing gives each notified value exactly if it survives under the flag of its line |
| Publisher.PubsubContext.Notify | src/cli/pubsub_context.cpp:107-115 | the object's state becomes that of the notify step |
| Publisher.PubsubContext.ReportError | src/cli/pubsub_context.cpp:216-231 | an error line goes straight to the buffer, then sending is tried |
| Publisher.PubsubContext.WriteHandler | src/cli/pubsub_context.cpp:98-105 | the bytes of the finished write leave, later ones stay, and sending is tried |
| Publisher.PubsubContext.PreloadWriting | src/cli/pubsub_context.cpp:117-145 | the drain loop through a fresh stream does what the specification's drain does, then one write is started if there is anything |
| RequestSpec.ConsumeAdvances | src/scgi/request_parser.cpp:47-148 | one byte moves the counters as the shape of the request read so far demands, and a good byte completes a request |
| RequestSpec.GoodIsRequest | src/scgi/request_parser.cpp:47-148 | the bytes up to the first good verdict are digits, colon, a block of the announced length made of name and value pairs, comma and body, and the parser holds their fold |
| RequestSpec.RequestIsGood | src/scgi/request_parser.cpp:47-148 | a well-formed request has no verdict on any proper prefix and is good at its last byte, with its headers and body |
| RequestSpec.GoodExactlyOnRequests | src/scgi/request_parser.cpp:47-148 | a stream becomes good for the first time at its end exactly if it is a well-formed request |
| RequestSpec.VerdictIff | src/scgi/request_parser.cpp:47-148 | on every byte the machine goes on exactly if the byte fits what was read before it, is good exactly if it completes a request, and is bad otherwise |
| RequestSpec.NoVerdictIff | src/scgi/request_parser.cpp:47-148 | a stream has no verdict at any byte exactly if each of them fits |
| RequestSpec.OverlongIsBad | src/scgi/request_parser.cpp:130-131 | behind a block of the announced length, anything but a comma is bad, also inside a name or a value |
| RequestSpec.SerializeRoundTrip | test/test_scgi_access.cpp:87-118 | what a client serialises is read back to the same headers and body |
| RequestSpec.ClientIsUnderstood | test/test_scgi_access.cpp:87-118 | the same for the bytes of the request, the two mandatory names spelt out |
| RequestSpec.SizeRoundTrip | src/scgi/request_parser.cpp:57-57 | the decimal text of a 64-bit size is read back |
| RequestSpec.SignedSize | src/scgi/request_parser.cpp:90-90 | a plus sign is ignored and a minus sign wraps around |
| RequestSpec.LastValueWins | src/scgi/request_parser.cpp:123-125 | the map has exactly the names sent, each with the value sent last |
| RequestSpec.FieldsAreLatest | src/scgi/request_parser.cpp:99-121 | each field is what the last header that sets it says, the method being the last of GET, PUT and POST; without such a header it is undefined or empty |
| RequestSpec.FieldsAgree | src/scgi/request_parser.cpp:99-121 | method, URI, content type and encoding agree with the headers of the map |
| RequestSpec.TokensOfTwo | src/scgi/request_parser.cpp:110-120 | a content type with a parameter is split at any run of separators |
| RequestSpec.TokensAre | src/scgi/request_parser.cpp:110-114 | semicolons, spaces and tabs split a text into words, in runs of any length |
| RequestSpec.ParseConcat | include/decof/scgi/request_parser.h:47-56 | parsing in two pieces is parsing at once, up to the first bad byte |
| RequestSpec.ChunksDoNotMatter | src/scgi/scgi_context.cpp:62-83 | any split of a stream into reads leads to the same parser state and result |
| RequestSpec.RequestIsRead | src/scgi/scgi_context.cpp:62-83 | the read handler, which stops at the first verdict, accepts a well-formed request however it is split |
| RequestSpec.TrailingByte | src/scgi/request_parser.cpp:133-141 | a byte behind a request is taken into a body and the verdict is lost, or is bad if there is no body |
| RequestSpec.NothingMayFollow | src/scgi/request_parser.cpp:133-141 | a request with further bytes behind it is good exactly if there are none |
| RequestSpec.NoHeaderIsAccepted | src/scgi/request_parser.cpp:66-76 | the three bytes `0:,` are a good request without any header |
| RequestSpec.NeverInHeaderName | src/scgi/request_parser.cpp:63-85 | on no input does a parser that is not in it enter the phase for header names |
| ScgiStandard.AcceptedConformsIff | src/scgi/request_parser.cpp:47-148 | an accepted request is one by the SCGI specification exactly if it has two headers, digits only as body length, no leading zeros and no name twice |
| ScgiStandard.ConformingIsAcceptedIff | src/scgi/request_parser.cpp:47-148 | a request by the specification is accepted exactly if its sizes fit 64 bits, SCGI is its second header and no name holds a comma |
| ScgiStandard.OneHeaderIsAccepted | src/scgi/request_parser.cpp:66-72 | a block with only the length of an empty body is accepted and does not conform |
| RequestParser.RequestParser.constructor | src/scgi/request_parser.cpp:29-32 | a new parser is fresh, whatever its two counters hold |
| RequestParser.RequestParser.Reset | src/scgi/request_parser.cpp:34-45 | a reset parser is fresh but for the counters, content type and encoding |
| RequestParser.RequestParser.FinishHeader | src/scgi/request_parser.cpp:86-128 | the end of a value checks the first two headers and stores the pair |
| RequestParser.RequestParser.Consume | src/scgi/request_parser.cpp:47-148 | one byte changes the fields as the specification's machine |
| RequestParser.RequestParser.Parse | include/decof/scgi/request_parser.h:47-56 | a non-empty read is the specification's parse of it |
| BencodeSpec.ParseIsTake | src/scgi/bencode_string_parser.cpp:38-67 | a fresh parser is good exactly if the input starts with a decimal length, a colon and that many bytes, which it holds, and stops right behind them |
| BencodeSpec.RoundTrip | src/scgi/js_value_encoder.cpp:55-59 | decoding the encoder's output gives back every list of byte strings |
| BencodeSpec.RoundTripUnterminated | src/scgi/scgi_context.cpp:167-181 | the same without the final line end |
| BencodeSpec.DecodeIffFramed | src/scgi/scgi_context.cpp:167-181 | the loop yields a list exactly for the bodies that frame it with two arbitrary bytes between strings |
| BencodeSpec.PastEndIffStray | src/scgi/scgi_context.cpp:167-181 | the loop's iterator steps past the end exactly for frames with gaps of two bytes and one frame with a single byte behind it; what is neither this nor properly framed is rejected |
| BencodeSpec.StrayByte | src/scgi/scgi_context.cpp:169-169 | an instance: the encoder's text of a list with one byte put behind it |
| BencodeSpec.LeadingZeroStray | src/scgi/scgi_context.cpp:169-169 | an instance that no encoder writes: `01:ab` |
| BencodeSpec.TrimmedRoundTrip | src/scgi/scgi_context.cpp:125-125 | with the trim, the encoder's output, also behind white space, is decoded to the list, or rejected exactly if the last string ends in white space |
| Bencode.BencodeStringParser.Consume | src/scgi/bencode_string_parser.cpp:38-67 | one byte changes the fields as the specification's machine |
| Bencode.BencodeStringParser.Parse | src/scgi/bencode_string_parser.h:45-53 | the loop yields the verdict and the position of the specification's parse |
| Bencode.DecodeStrings | src/scgi/scgi_context.cpp:167-181 | the loop over fresh parsers decodes what the specification decodes |
| Bencode.EncodeStrings | src/scgi/js_value_encoder.cpp:76-82 | the loop appends the text of the list |
| Links.AddKeepsLinked | src/core/node.cpp:49-56 | adding keeps "the parent is the node exactly if the object is in its list, once" and changes one parent only |
| Links.RemoveKeepsLinked | src/core/node.cpp:58-67 | the same for removing, which does nothing to an object that is not in the list |
| Links.CreateKeepsLinked | src/core/object.cpp:24-32 | the same for the constructor, which notes the parent before the parent is told |
| Links.ResetKeepsLinked | src/core/object.cpp:63-70 | the same for moving |
| Links.DestroyKeepsLinked | src/core/node.cpp:32-37 | the same for the destructors of node and object, after which the children are roots |
| Links.AddMovesToTheEnd | src/core/node.cpp:49-56 | the child is last in the node's list and in no other list; all other children keep their order |
| Links.CreateAppends | src/core/object.cpp:24-32 | a new object stands last among its siblings, and no other list changes |
| Links.ResetMovesToTheEnd | src/core/object.cpp:63-70 | a moved object is last in its new list and in no other |
| Links.RemoveLeavesOthers | src/core/node.cpp:58-67 | removing changes one list only |
| Links.DestroyLeavesOthers | src/core/node.cpp:32-37 | a destroyed object is in no list any more, and nothing else moves |
| Links.WithoutKeepsOrder | src/core/node.cpp:58-67 | whoever stays in a list keeps its place relative to the others |
| Ancestry.AttachKeeps | src/core/node.cpp:49-56 | hanging an object below a node it is not an ancestor of leaves all paths finite |
| Ancestry.AttachBreaks | src/core/node.cpp:49-56 | hanging it below itself or a descendant closes a loop |
| Ancestry.StepKeepsForest | src/core/object.cpp:24-70 | every legal operation keeps the forest |
| Ancestry.AddIffNotAbove | src/core/node.cpp:49-56 | adding keeps the forest exactly if the child is not the node or one of its ancestors |
| Ancestry.ResetIffNotAbove | src/core/object.cpp:63-70 | moving keeps the forest exactly if the new parent is none, or not the object or one of its descendants |
| Ancestry.RunKeepsForest | src/core/object.cpp:24-70 | over every run of constructions, additions, removals, moves and destructions the forest is kept |
| Ancestry.RootIsUnique | src/core/object.cpp:97-113 | climbing ends at the one object above that has no parent |
| ObjectTree.TreeObject.constructor | src/core/object.cpp:24-32 | the links become those of the creation, including the parent noted first |
| ObjectTree.TreeObject.Destroy | src/core/object.cpp:34-38 | the links become those without the object |
| ObjectTree.TreeObject.AddChild | src/core/node.cpp:49-56 | the links become those of the addition |
| ObjectTree.TreeObject.RemoveChild | src/core/node.cpp:58-67 | the links become those of the removal |
| ObjectTree.TreeObject.RemoveIfSame | src/core/node.cpp:60-66 | all occurrences leave the list, and the parent is cleared only if there was one |
| ObjectTree.TreeObject.ResetParent | src/core/object.cpp:63-70 | the links become those of the move |
| ObjectTree.TreeObject.GetObjectDictionary | src/core/object.cpp:97-113 | the climb terminates with the root if that is a dictionary, null otherwise |
| ObjectTree.TreeObject.GetFqName | src/core/object.cpp:50-56 | the recursion terminates with the qualified name |
| ObjectTree.TreeObject.FindChild | src/core/node.cpp:69-80 | the first child of the name, or null |
| ObjectTree.TreeObject.FindDescendantObject | src/core/node.cpp:82-104 | the recursive look-up yields what the specification finds |
| ObjectTree.TreeObject.FindObject | src/core/object_dictionary.cpp:57-80 | the same from the root, with an optional leading separator |
| Naming.DescendantSound | src/core/node.cpp:82-104 | the name of what is found is the name of the start, a separator and what was asked for |
| Naming.FindChildIsFirst | src/core/node.cpp:69-80 | the first child of the name is found, and none exactly if there is none |
| Naming.NameFindsObject | src/core/object_dictionary.cpp:57-80 | an object's qualified name, with or without a leading separator, finds the object |
| Naming.FoundIsNamed | src/core/object_dictionary.cpp:57-80 | whatever is found was named in full with at most one leading separator |
| Naming.LookupIffName | src/core/object_dictionary.cpp:57-80 | look-up and naming are inverse, for every text |
| Naming.PublishedNameResolves | src/cli/pubsub_context.cpp:107-113 | the URI published for an object leads from the root back to it |
| Naming.PublishedNamesDiffer | src/cli/pubsub_context.cpp:107-113 | different objects are published under different URIs |
| SubscriptionSpec.RunBalanced | src/core/client_context.cpp:30-66 | over every interleaving, an external parameter's count is the number of contexts holding its URI plus the observations that threw, and it is in the tick list once exactly if the count is positive |
| SubscriptionSpec.CountsAreExact | include/decof/external_readonly_parameter.h:76-99 | the count is the number of holders exactly if no observation threw |
| SubscriptionSpec.BalancedIffDistinct | src/core/object_dictionary.cpp:47-55 | this holds for all runs exactly if no two observable objects share a URI with an external parameter and all hang below the dictionary |
| SubscriptionSpec.HeldIff | src/core/client_context.cpp:30-66 | over every run a context holds a URI exactly if it once observed such an object with access to it and without an exception, and has not taken that back since |
| SubscriptionSpec.ObserveOutcomeIff | src/core/client_context.cpp:30-49 | exactly when each outcome occurs; access is denied exactly if the level, 3 for read-only users, is above the read level |
| SubscriptionSpec.UnobserveOutcomeIff | src/core/client_context.cpp:51-66 | exactly when each outcome occurs, and that a failure changes nothing |
| SubscriptionSpec.PolledInOrder | src/core/object_dictionary.cpp:47-55 | the polled parameters keep their order, and a new one comes last |
| SubscriptionSpec.UnobserveUndoesObserve | src/core/client_context.cpp:51-66 | taking an observation back restores holders, counts and tick list |
| Subscriptions.Parameter.Observe | include/decof/external_readonly_parameter.h:76-90 | the first observation registers for ticks; without a dictionary nothing is counted |
| Subscriptions.Parameter.Unobserve | include/decof/external_readonly_parameter.h:92-99 | the last one unregisters |
| Subscriptions.ClientContext.Observe | src/core/client_context.cpp:30-49 | state and outcome are those of the observe step, for null objects too |
| Subscriptions.ClientContext.Unobserve | src/core/client_context.cpp:51-66 | state and outcome are those of the unobserve step; a null object is undefined behaviour |
| TreeSubscriptions.TreeIsDistinct | src/core/object.cpp:50-56 | the qualified names of a well-named tree below a dictionary meet the conditions of the account |
| TreeSubscriptions.UnsubscribeIsUndefinedIff | src/cli/pubsub_context.cpp:207-212 | unsubscribing is undefined exactly if no object of the tree has the URI as its name behind the root's |
| KnownAnswers.TwoElements | src/cli/encoder.cpp:62-88 | two elements in brackets or braces with a comma between them |
| KnownAnswers.BooleanTexts | src/cli/encoder.cpp:90-93 | the texts of the two booleans |
| KnownAnswers.NegativeInteger | test/test_cli_access.cpp:155-163 | the text of -42 |
| KnownAnswers.BinaryText | test/test_cli_access.cpp:227-234 | the bytes of "decof" and their base64 text |
| KnownAnswers.HexadecimalEscape | test/test_cli_codec.cpp:33-42 | a hexadecimal escape of any byte, in lower, upper or mixed case |
| KnownAnswers.UpperCaseEscape | test/test_cli_codec.cpp:35-36 | the escape with the digits A and 0 is the byte 160 |
| KnownAnswers.MinimalRequest | test/test_scgi_parser.cpp:42-50 | the bytes of the minimal request have no verdict before the comma and are good with it |
| KnownAnswers.RequestWithBody | test/test_scgi_parser.cpp:137-145 | the bytes of a request with ten bytes of body |
| KnownAnswers.TwelveBytes | test/test_bencode_string_parser.cpp:38-44 | `12:` takes the next twelve bytes, line ends included |
| KnownAnswers.BadStarts | test/test_bencode_string_parser.cpp:46-58 | a signed length and a missing one are bad |
| KnownAnswers.EncodedString | src/scgi/js_value_encoder.cpp:55-59 | the text of a string of ten bytes, with carriage return and line feed |

## Left out

- The guard that notes the current context of a dictionary.
- Sockets, strands, timers and accept loops: a write is "the bytes present at its start leave when it completes".
- Failed reads and writes of a connection, and closing it.
- `std::stod` and the digits a stream prints for a number are parameters; infinities and NaN are no numbers here.
- The table rows of the scanner are written with equal entries grouped; the begin-of-line column is -1 throughout.
- Scanner features that nothing reaches: line numbers, stream stack, begin-of-line rules, changing streams.
- What an execution does after undefined behaviour.
- `std::isdigit` on a negative `char` is taken to be false.
- Binary lexemes hold no white space, so the iterator that drops it from base64 text is not modelled.
- A second `parse()` on the same parser: the CLI makes a new parser for every request.
- The value left in a moved-from scalar of production 1.
- Memory limits of strings and containers.
- Extraction of commands, passwords and URIs from the text of publish requests, and the wording of error lines.
- `std::hex` has no effect on `put_time`; the text of a time is a parameter.
- Binary sequences of booleans, integers and reals in SCGI bodies, and HTTP responses.
- Destruction of client contexts, whose connections drop without an `unobserve`, and changes of the tree while
  something is observed.
- Delivery of values on a tick and `last_value_`.
- Renaming of objects, browsing and visitors, access checks on single parameters.
- The command dispatcher of the CLI, which ignores what `parse()` returns.
