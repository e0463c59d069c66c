# A verified model of the soc HTTP server

This project models the parts of the soc C++ HTTP server that are algorithms with
state of their own, and proves what they are for. Loops and objects of the source
are Dafny methods and classes; each is proved against a pure function on values,
and the properties are lemmas about those functions.

- **JSON** (`JsonUtil`, `JsonLexer`, `JsonLexicon`, `JsonGaps`, `JsonValue`, `JsonParser`,
  `JsonGrammar`, `JsonLanguage`, `JsonFormatter`, `JsonLayout`, `JsonRoundTrip`,
  `JsonRawPrint`): lexer over a cursor with push-back, recursive parser over a token index,
  pretty and compact printers, string escaping. Printing, lexing and parsing is the identity
  on trees. Every token is described by its characters, and so is what is read over; which
  token lists parse to a tree without null pointers, by the tokens of that tree, and the whole
  accepted language, null pointers included, by a grammar. Printing strings raw reads back
  exactly when no string holds a quote or a backslash.
- **Timers** (`TimerHeap`, `TimerQueue`, `IdleTimeout`, `TcpServer`): the indexed heap
  refines a finite map; the drain fires exactly what is due; over every run of the
  event loop the connected descriptors are those a timer-free reading of the run says.
- **Writing** (`Channel`, `TcpConnection`): resumable output of headers and file under
  any partial writes and errors, for `writev`, `sendfile` and SSL.
- **Reading requests** (`Buffer`, `HttpHeader`, `HttpRequest`, `HttpMultiPart`,
  `MultiPartRoundTrip`, `MultiPartExactly`, `KeyValue`): the byte queue, the header map and
  its two parsers, independence of chunking, the multipart state machine, forms, queries and cookies.
- **Codecs** (`Base64`, `UrlCodec`, `FastCgi`): round trips with their exact domains,
  buffer sizes, record framing. Standards: sections 3.5, 4 and 10 of RFC 4648, sections 2.1 and
  2.3 of RFC 3986, sections 3.3 and 3.4 of the FastCGI Specification 1.0.
- **ThreadPool**: the pool as interleaved steps: what it conserves, that no wakeup is lost
  while it runs, and exactly when a shutdown can hang.

Where a promised property fails, lemmas give the exact condition under which it holds, an
input that shows it to fail, or both: so for the round trips, the buffer sizes, the heap
order, the two header parsers, the loops that may never end, and the end of a shutdown.

Choices that a reader should know:

- Foreign calls answer through parameters: the clock, the kernel's byte counts, and the
  conversions behind the backslash-u and backslash-x escapes. Nothing is assumed of these two,
  except in `JsonRawPrint`: a code point of four digits is at most three bytes of UTF-8, and
  a converted number has no backslash and at most two characters more than it had digits.
- Where the code would loop forever, the pure function says so (`Endless`, `Forever`, or
  no result) and the method requires that it does not; lemmas show that the answer means
  what it says.
- An exception of the source is an `Err`, a `Throws` or a false result.
- Reading one position past a string gives its terminating NUL, as for `std::string`.
- `TimerHeap.Adjust` and the protocol rest on a clock that never runs backwards.
- The result of `downAdjust` compares an index with one that only grows. It is always
  false, so `push` and `del` always sift up as well; the comments in the source say otherwise,
  and the model follows the code.

## Model

| member | source | states |
|---|---|---|
| `JsonUtil.EscapeUndoesUnescape` | soc/libjson/include/JsonUtil.h:90-202 | for every string, escaping its unescaped form gives the string back, whatever the foreign hexadecimal conversions do |
| `JsonUtil.UnescapedIsClosed` | soc/libjson/include/JsonUtil.h:90-121 | an unescaped string holds no bare quote and only valid escapes, so the string loop of the lexer reads through all of it |
| `JsonUtil.PlainIsClosed` | soc/libjson/include/JsonUtil.h:71-88 | so does any string without quotes and backslashes, printed as it is |
| `JsonUtil.EscapeString` | soc/libjson/include/JsonUtil.h:154-195 | the index loop, with its two inner digit loops, computes the recursive decoding of the whole string, or fails where that fails |
| `JsonUtil.UnescapeString` | soc/libjson/include/JsonUtil.h:197-202 | the index loop computes the character-wise unescaping |
| `JsonUtil.EscapeUnicode` | soc/libjson/include/JsonUtil.h:161-173 | behind a u: four hexadecimal digits or an error, and where reading goes on |
| `JsonUtil.EscapeHex` | soc/libjson/include/JsonUtil.h:174-185 | behind an x: the longest run of hexadecimal digits, an error when it is empty, and where reading goes on |
| `JsonLexer.JsonReader.Get` | soc/libjson/include/JsonReader.h:47-51 | moves the cursor one on and returns what is there, EOF past the end |
| `JsonLexer.JsonReader.Gets` | soc/libjson/include/JsonReader.h:71-76 | reads a fixed count of characters, EOF past the end |
| `JsonLexer.JsonLexer.SkipWhitespace` | soc/libjson/include/JsonLexer.h:49-61 | returns the first character that is not blank with the cursor behind it, or EOF with the cursor behind the end |
| `JsonLexer.JsonLexer.LexString` | soc/libjson/include/JsonLexer.h:65-84 | on a closed literal: the raw text up to the closing quote, or an error at an invalid escape; the cursor is behind it |
| `JsonLexer.JsonLexer.SkipLineComment` | soc/libjson/include/JsonLexer.h:103-110 | skips to behind the newline or the end |
| `JsonLexer.JsonLexer.SkipBlockComment` | soc/libjson/include/JsonLexer.h:111-123 | on a closed comment: skips to behind its end |
| `JsonLexer.JsonLexer.LexNumber` | soc/libjson/include/JsonLexer.h:183-220 | integer or float by longest run, with the leading-zero and trailing-point errors, and the one character pushed back |
| `JsonLexer.JsonLexer.LexWord` | soc/libjson/include/JsonLexer.h:126-160 | true, false and null, or an error |
| `JsonLexer.JsonLexer.Analyse` | soc/libjson/include/JsonLexer.h:48-223 | one call emits, skips or fails exactly as the function on the text left does, and always moves the cursor |
| `JsonLexer.JsonLexer.GetTokens` | soc/libjson/include/JsonParser.h:67-76 | the token loop ends on every text that is not endless, with the tokens or the error of the whole text |
| `JsonLexer.StringLoopRunsForever` | soc/libjson/include/JsonLexer.h:67-84 | the string loop is still running after any number of turns exactly when the literal is not closed |
| `JsonLexer.CommentLoopRunsForever` | soc/libjson/include/JsonLexer.h:112-119 | likewise for the block comment loop |
| `JsonGaps.GapsChangeNothing` | soc/libjson/include/JsonLexer.h:49-123 | in front of any text, any sequence of closed comments of either kind, and of characters with which nothing begins, changes neither the tokens nor the error |
| `JsonGaps.BlockCommentIsDropped` | soc/libjson/include/JsonLexer.h:111-123 | for every text that does not hold the closer, the comment around it leaves the tokens of what follows |
| `JsonGaps.LineCommentIsDropped` | soc/libjson/include/JsonLexer.h:103-110 | likewise from two slashes to the newline, or to a byte that reads as the end |
| `JsonGaps.LastLineIsDropped` | soc/libjson/include/JsonLexer.h:103-110 | and to the end of the text |
| `JsonGaps.OpenBlockNeverEnds` | soc/libjson/include/JsonLexer.h:111-119 | a block comment without its closer sends the lexer into an endless loop |
| `JsonLexicon.BlanksAreSkipped` | soc/libjson/include/JsonUtil.h:62-63 | blanks, tabs, vertical tabs and newlines are skipped together, and nothing else is |
| `JsonLexicon.IntegerLexes` | soc/libjson/include/JsonLexer.h:182-206 | an optional sign and digits, with no leading zero unless there is a sign, are one number of that value, or the least integer when it is too large |
| `JsonLexicon.LeadingZeroFails` | soc/libjson/include/JsonLexer.h:186-190 | a zero and another digit are an error |
| `JsonLexicon.RealLexes` | soc/libjson/include/JsonLexer.h:207-220 | with a point or exponent behind the digits, the longest run of digits, exponents and signs is one float, and an error when it ends in a point or an exponent |
| `JsonLexicon.NameFails` | soc/libjson/include/JsonLexer.h:126-160 | what begins like true, false or null and is not is an error |
| `JsonLexicon.SlashFails` | soc/libjson/include/JsonLexer.h:96-101 | and so is a slash that begins no comment |
| `JsonLexicon.PunctuationLexes` | soc/libjson/include/JsonLexer.h:161-178 | the six punctuation marks |
| `JsonLexicon.StringLexes` | soc/libjson/include/JsonLexer.h:65-94 | a body of ordinary characters and of escapes out of ten is one string, raw or resolved as the flag says, or the error of resolving it |
| `JsonLexicon.BadEscapeFails` | soc/libjson/include/JsonLexer.h:74-80 | behind such a body, a backslash in front of any other character is an error |
| `JsonLexicon.OpenStringNeverEnds` | soc/libjson/include/JsonLexer.h:67-84 | and without a closing quote the lexer never ends |
| `JsonLexicon.NamedEscape` | soc/libjson/include/JsonUtil.h:123-195 | n, t, r, 0, b and f stand for their control characters, any character but these and u and x for itself |
| `JsonLexicon.UnicodeEscape` | soc/libjson/include/JsonUtil.h:161-173 | a u and four hexadecimal digits of either case are converted |
| `JsonLexicon.UnicodeFails` | soc/libjson/include/JsonUtil.h:161-173 | fewer than four are an error |
| `JsonLexicon.HexEscape` | soc/libjson/include/JsonUtil.h:174-185 | an x takes all hexadecimal digits that follow, and none is an error |
| `JsonParser.JsonParser.AfterClosure` | soc/libjson/include/JsonParser.h:100-129 | the lookahead on the index is the check on the tokens left |
| `JsonParser.JsonParser.AfterOpen` | soc/libjson/include/JsonParser.h:130-153 | likewise behind an opening bracket |
| `JsonParser.JsonParser.AfterSeparator` | soc/libjson/include/JsonParser.h:189-206 | likewise behind a comma |
| `JsonParser.JsonParser.AfterScalar` | soc/libjson/include/JsonParser.h:155-187 | likewise behind a scalar |
| `JsonParser.JsonParser.ParseJsonValue` | soc/libjson/src/JsonParser.cc:86-119 | the switch on a value token, recursion included, on any token list whose last token passed the begin and end check |
| `JsonParser.JsonParser.ParseJsonMember` | soc/libjson/src/JsonParser.cc:18-67 | key, colon and value; both unguarded advances of the index stay inside the list |
| `JsonParser.JsonParser.ParseJsonArray` | soc/libjson/src/JsonParser.cc:71-122 | the array loop computes the recursive parse; the index only grows and every token access is in range |
| `JsonParser.JsonParser.ParseJsonObject` | soc/libjson/src/JsonParser.cc:5-69 | the object loop likewise |
| `JsonParser.JsonParser.ParseDocument` | soc/libjson/include/JsonParser.h:25-98 | from the first token: empty, syntax error, object, array or neither, for every token list, well-formed or not |
| `JsonGrammar.AcceptValue` | soc/libjson/src/JsonParser.cc:86-119 | completeness: the tokens of a value are read as that value and no further, also when closing brackets are missing at the end |
| `JsonGrammar.AcceptElements` | soc/libjson/src/JsonParser.cc:71-122 | completeness for the items of an array |
| `JsonGrammar.AcceptMembers` | soc/libjson/src/JsonParser.cc:5-69 | completeness for the members of an object |
| `JsonGrammar.SoundValue` | soc/libjson/src/JsonParser.cc:86-119 | soundness: a value read without null pointers was spelled by the tokens taken, up to closing brackets missing at the end |
| `JsonGrammar.SoundItems` | soc/libjson/src/JsonParser.cc:71-122 | soundness for the items of an array |
| `JsonGrammar.SoundPairs` | soc/libjson/src/JsonParser.cc:5-69 | soundness for the members of an object |
| `JsonGrammar.ArraysExactly` | soc/libjson/src/JsonParser.cc:71-122 | the parser returns an array without null pointers exactly when the list ends in a bracket and spells that array, up to brackets missing in front of it and closers behind |
| `JsonGrammar.ObjectsExactly` | soc/libjson/src/JsonParser.cc:5-69 | likewise for objects |
| `JsonGrammar.TokensParseBack` | soc/libjson/include/JsonParser.h:25-62 | the tokens of every tree parse back to the tree |
| `JsonGrammar.NullPointersExactly` | soc/libjson/src/JsonParser.cc:100-120 | an accepted array holds no null pointer exactly when its tokens spell some array |
| `JsonGrammar.NullPointersInObjectsExactly` | soc/libjson/src/JsonParser.cc:5-69 | likewise for an accepted object and the arrays in it |
| `JsonGrammar.StrayBracePasses` | soc/libjson/src/JsonParser.cc:117-120 | a stray brace in an array is accepted and adds a null pointer |
| `JsonLanguage.AcceptNode` | soc/libjson/src/JsonParser.cc:5-122 | every sentence of the full grammar is read up to its end and gives the tree the grammar says, stray tokens and missing closers included |
| `JsonLanguage.SoundNode` | soc/libjson/src/JsonParser.cc:5-122 | whatever is read comes from such a sentence |
| `JsonLanguage.ArrayLanguageExactly` | soc/libjson/src/JsonParser.cc:71-122 | on every token list: an array is returned, null pointers or not, exactly when the list is a sentence for that array and ends in a bracket |
| `JsonLanguage.ObjectLanguageExactly` | soc/libjson/src/JsonParser.cc:5-69 | on every token list: an object is returned, null pointers in its arrays or not, exactly when the list is a sentence for it and ends in a brace |
| `JsonLanguage.OtherDocumentsExactly` | soc/libjson/include/JsonParser.h:25-62 | a scalar is returned exactly for one scalar token on its own, and the empty document exactly for no token |
| `JsonLanguage.GrammarsAgree` | soc/libjson/src/JsonParser.cc:71-122 | on arrays without null pointers that grammar says what the tree's own tokens say |
| `JsonGrammar.MissingCloserPasses` | soc/libjson/include/JsonParser.h:80-98 | a list that lacks a closing bracket is accepted |
| `JsonFormatter.JsonFormatter.AppendSpaceCharacter` | soc/libjson/include/JsonFormatter.h:42-45 | appends that many blanks |
| `JsonFormatter.JsonFormatter.AppendString` | soc/libjson/include/JsonString.h:16-26 | appends the string in quotes, escaped, unescaped or as it is, or throws |
| `JsonFormatter.JsonFormatter.AppendValue` | soc/libjson/src/JsonFormatter.cc:17-26 | appends a child, recursion included |
| `JsonFormatter.JsonFormatter.AppendPair` | soc/libjson/src/JsonFormatter.cc:53-65 | appends key, colon and child |
| `JsonFormatter.JsonFormatter.FormatArray` | soc/libjson/src/JsonFormatter.cc:5-37 | the array loop appends exactly the recursive layout, or throws exactly when a string in it does |
| `JsonFormatter.JsonFormatter.FormatObject` | soc/libjson/src/JsonFormatter.cc:39-76 | the object loop likewise |
| `JsonFormatter.JsonFormatter.Format` | soc/libjson/include/JsonFormatter.h:24-39 | the text of the source in either layout, or an error |
| `JsonFormatter.ArrayToString` | soc/libjson/include/JsonArray.h:29-41 | the compact loop over an array |
| `JsonFormatter.ObjectToString` | soc/libjson/include/JsonObject.h:25-39 | the compact loop over an object |
| `JsonLayout.FormatIndents` | soc/libjson/src/JsonFormatter.cc:5-76 | for every positive indent, read off the text alone: every line begins with indent blanks for each open container, and lines end behind openers and commas and before closers, outside strings |
| `JsonLayout.CompactIsStripped` | soc/libjson/include/JsonFormatter.h:24-39 | the compact text of a tree whose strings need no escapes is the indented one without blanks and newlines outside strings |
| `JsonLexicon.RawStringReads` | soc/libjson/include/JsonString.h:16-26 | a string whose escapes were not resolved is printed so that it reads the same again |
| `JsonLexicon.EscapesResolveLate` | soc/libjson/include/JsonString.h:16-26 | escapes that the lexer left are resolved by the printer to the same text, or to the exception |
| `JsonLexicon.ThrowsExactly` | soc/libjson/include/JsonString.h:16-26 | printing throws exactly when the tree holds a string whose escapes are to be resolved and cannot be |
| `JsonRoundTrip.IntTextReads` | soc/libjson/include/JsonLexer.h:183-206 | every 32-bit integer's decimal text is one numeral and has that value |
| `JsonRoundTrip.WritesText` | soc/libjson/src/JsonFormatter.cc:5-76 | printed text at any depth and layout lexes to the tokens of its tree in front of anything that delimits it |
| `JsonRoundTrip.FormatLexes` | soc/libjson/src/JsonFormatter.cc:5-76 | the formatter's text lexes to the tokens of the tree |
| `JsonRoundTrip.FormatRoundTrip` | soc/libjson/src/JsonFormatter.cc:5-76 | format with escape off, lex and parse with escape on: every object or array tree comes back, key order and duplicates kept |
| `JsonRoundTrip.Reparse` | soc/libjson/include/JsonParser.h:25-76 | the same on the loops of printer, lexer and parser themselves |
| `JsonRawPrint.RawStringExactly` | soc/libjson/include/JsonString.h:14-26 | a string printed raw in front of any text is read back as itself exactly when it holds no quote and no backslash |
| `JsonRawPrint.EscapeShrinks` | soc/libjson/include/JsonUtil.h:154-195 | resolving escapes never lengthens a lexeme |
| `JsonRawPrint.QuoteComesEarly` | soc/libjson/include/JsonUtil.h:154-195 | an escaped quote comes out before the place where it stands, so a lexeme that resolves to its own front holds none |
| `JsonRawPrint.RawLexesExactly` | soc/libjson/include/JsonObject.h:25-39 | compact text, and formatted text with escaping on, lexes to the tokens of its tree exactly when no string in it holds a quote or a backslash |
| `JsonRawPrint.RawRoundTripExactly` | soc/libjson/include/JsonString.h:14-26 | likewise for the whole round trip through such text, closers that the parser forgives included |
| `JsonRawPrint.PrintersAgreeExactly` | soc/libjson/include/JsonObject.h:25-39 | the pretty and the compact text of a tree lex alike exactly when no string holds a quote or a backslash |
| `JsonRawPrint.CompactQuoteNeverEnds` | soc/libjson/include/JsonString.h:14 | a witness: on the compact text of a lone quote the lexer never ends |
| `JsonRoundTrip.DataIsSafe` | soc/libjson/include/JsonString.h:16-26 | escaped strings, 32-bit integers and containers of them meet what the round trip needs, and printing them never throws |
| `TimerHeap.TimerHeap.UpAdjust` | soc/net/include/TimerHeap.h:105-126 | restores heap order and positions when only the edge into the start is broken; equal deadlines move too |
| `TimerHeap.TimerHeap.DownAdjust` | soc/net/include/TimerHeap.h:129-155 | restores everything below the start, keeps positions exact, and always returns false |
| `TimerHeap.TimerHeap.Sift` | soc/net/include/TimerHeap.h:46-49 | the heap survives the upward sift that always follows |
| `TimerHeap.TimerHeap.Push` | soc/net/include/TimerHeap.h:30-51 | is the map update, for new and known descriptors, and keeps count, order and exact positions |
| `TimerHeap.TimerHeap.Top` | soc/net/include/TimerHeap.h:59-64 | a timer of the map that is due no later than any other, or the exception exactly when the map is empty |
| `TimerHeap.TimerHeap.Pop` | soc/net/include/TimerHeap.h:53-58 | removes just that timer from the map and keeps the invariant; on an empty heap throws and changes nothing |
| `TimerHeap.TimerHeap.Del` | soc/net/include/TimerHeap.h:89-102 | removes the timer at any position and keeps the invariant; the last of several is sifted back in when it is due together with its parent, which then goes in its stead |
| `TimerHeap.TimerHeap.Adjust` | soc/net/include/TimerHeap.h:79-86 | sets the deadline in the map; the heap stays ordered exactly when the new deadline is not before that of the timer above, hence whenever it is not earlier than the old one |
| `TimerHeap.AdjustBreaksOrder` | soc/net/include/TimerHeap.h:79-86 | a witness: of two timers the second becomes due before the first, and the heap is out of order |
| `TimerHeap.RootIsLeast` | soc/net/include/TimerHeap.h:59-64 | in an ordered heap the root is due first |
| `TimerHeap.UpStep` | soc/net/include/TimerHeap.h:117-123 | one turn of the upward sift moves the broken edge up and keeps the bridge over it |
| `TimerHeap.DownStep` | soc/net/include/TimerHeap.h:137-150 | one turn of the downward sift, for the child that is due first |
| `TimerHeap.DownDone` | soc/net/include/TimerHeap.h:143-154 | where the downward sift stops, only the edge into its start is open |
| `TimerQueue.TimerQueue.HandleTimeout` | soc/net/src/TimerQueue.cc:44-58 | fires exactly the timers due, each once, in the order they are due, and leaves exactly the others as a valid heap |
| `TimerQueue.FireOne` | soc/net/src/TimerQueue.cc:49-54 | firing a least timer keeps the fired ones in order and the rest exact |
| `TimerQueue.AllFired` | soc/net/src/TimerQueue.cc:49-57 | when nothing left is due, what fired is exactly what was due |
| `TimerQueue.RanAllIs` | soc/net/src/TimerQueue.cc:52 | what the callbacks of a drain do to the connection table |
| `TimerQueue.RanIs` | soc/net/src/TcpServer.cc:137-147 | a callback changes the entry it closes and no other |
| `TcpServer.TcpServer.HandleConnected` | soc/net/src/TcpServer.cc:137-150 | is the accept step of the protocol |
| `TcpServer.TcpServer.HandleConnectionEvent` | soc/net/src/TcpServer.cc:152-168 | is the activity step; stale and unknown descriptors included |
| `TcpServer.TcpServer.HandleClose` | soc/net/src/TcpServer.cc:170-183 | is the close step; the timer stays behind |
| `TcpServer.TcpServer.HandleTimeout` | soc/net/src/TimerQueue.cc:44-58 | is the tick step: the drain closes the connections whose timers are due |
| `TcpServer.Handle` | soc/net/src/TcpServer.cc:137-183 | after any run of handlers with a clock that never runs backwards: the connections connected are those the run keeps alive, each with one timer due one timeout after its last activity |
| `IdleTimeout.RunsMeanAlive` | soc/net/src/TcpServer.cc:137-183 | over every run, connected means accepted and since then neither closed nor found idle, in terms of the events alone; and the deadline is last activity plus timeout |
| `IdleTimeout.NobodyIdleAfterTick` | soc/net/src/TimerQueue.cc:44-58 | a tick leaves connected exactly those that were active within the timeout |
| `IdleTimeout.TimersMean` | soc/net/src/TcpServer.cc:137-183 | over every run, the timers, stale ones included, are those that accepts and activity on live connections have set and no tick has taken, with their deadlines |
| `IdleTimeout.EntriesMean` | soc/net/src/TcpServer.cc:137-183 | over every run, the table has an entry exactly for each descriptor met, which is fresh, open or closed as the events say |
| `IdleTimeout.TimersStaySane` | soc/net/src/TcpServer.cc:144-146 | every timer, stale ones too, closes its own descriptor and is due within the timeout |
| `Channel.Channel.RawWrite` | soc/net/src/Channel.cc:83-136 | one call sends the next bytes of buffer and file, in order, and keeps the counters; completion is flagged exactly when all is sent or the file has no header in front |
| `Channel.Channel.SslWrite` | soc/net/src/Channel.cc:34-66 | likewise for SSL, with or without headers; completion is flagged exactly when all is sent |
| `Channel.Channel.Write` | soc/net/src/Channel.cc:34-136 | bytes emitted plus bytes unsent stay the same, so nothing is lost, repeated or reordered |
| `Channel.Channel.Reset` | soc/net/src/Channel.cc:4-11 | empties the channel and takes back nothing that was sent |
| `Channel.Extend` | soc/net/src/Channel.cc:125-129 | a partial write extends what is out by the next bytes of the payload |
| `TcpConnection.TcpConnection.Write` | soc/net/src/TcpConnection.cc:23-38 | the loop uses every answer up to the first error: exactly the bytes they take of the pieces offered go out; it returns 0, with the channel reset, exactly when that is all of them, and otherwise -1 with the rest kept; a raw file without headers ends with what the first answer takes of it |
| `TcpConnection.Deliver` | soc/net/src/TcpConnection.cc:23-58 | over any calls, partial writes and errors: exactly the bytes that the answers used take go out, however they are spread over the calls, always a prefix of headers and file; done exactly when they are enough, and always with as many positive answers as bytes |
| `TcpConnection.EnoughExactly` | soc/net/src/Channel.cc:70-135 | everything goes out exactly when some first answers add up to the first piece and the others to the second |
| `TcpConnection.PositivesSuffice` | soc/net/src/Channel.cc:70-135 | every positive answer takes at least one byte of what is left |
| `TcpConnection.UnframedFileIsLost` | soc/net/src/Channel.cc:108-134 | every raw file without headers, sent either way, is dropped with completion flagged after exactly what the first answer takes of it |
| `HttpMultiPart.LoopEndsExactly` | soc/http/src/HttpMultiPart.cc:31-186 | the step function has no result exactly when the outer loop never ends |
| `HttpMultiPart.BodyReadsExactly` | soc/http/src/HttpMultiPart.cc:31-186 | the outer loop ends exactly on the bodies that a grammar of dashes, boundaries, lines and data describes, broken off anywhere, and the step function has a result exactly there |
| `HttpMultiPart.ScanTakesLine` | soc/http/src/HttpMultiPart.cc:66-104 | whatever is quoted on a disposition line, its scan ends behind the first line end, or at the end of the text |
| `HttpMultiPart.DelimiterExactly` | soc/http/src/HttpMultiPart.cc:125-165 | the delimiter may end the body, but an empty boundary needs something behind its dashes |
| `HttpMultiPart.ReadDisposition` | soc/http/src/HttpMultiPart.cc:67-95 | the loop over a disposition line computes the recursive scan |
| `HttpMultiPart.ReadType` | soc/http/src/HttpMultiPart.cc:114-124 | collects the type up to the end of its line |
| `HttpMultiPart.ReadData` | soc/http/src/HttpMultiPart.cc:134-157 | copies the data up to the delimiter through the 4096-byte buffer, byte for byte |
| `HttpMultiPart.HttpMultiPart.Store` | soc/http/src/HttpMultiPart.cc:158-176 | the last field of a name wins, the first file of a name stays |
| `HttpMultiPart.HttpMultiPart.Parse` | soc/http/src/HttpMultiPart.cc:21-187 | on every such body, the index loop over ten states ends with the maps of the step function |
| `MultiPartRoundTrip.ReadsPart` | soc/http/src/HttpMultiPart.cc:21-187 | one rendered part is read back whole, its two header names spelled in any case |
| `MultiPartRoundTrip.RenderReadsBack` | soc/http/src/HttpMultiPart.cc:21-187 | every rendered list of parts comes back: names, file names, types and data, each part with its header names in any case |
| `MultiPartRoundTrip.ParseRendered` | soc/http/src/HttpMultiPart.cc:21-187 | the same on the code's own loop, which therefore ends |
| `MultiPartRoundTrip.StoreAllSets` | soc/http/src/HttpMultiPart.cc:158-176 | in those maps a field name has the value of its last field |
| `MultiPartRoundTrip.StoreAllFirstFile` | soc/http/src/HttpMultiPart.cc:158-176 | and a file name has its first file, and that one only |
| `MultiPartRoundTrip.PreambleNeverEnds` | soc/http/src/HttpMultiPart.cc:31-40 | on every body with text in front of its first dashes the loop never ends |
| `MultiPartExactly.SpoiledEnds` | soc/http/src/HttpMultiPart.cc:21-187 | a name, type or data once misread shows in the maps at the end, whatever the rest of the body makes the loop do |
| `MultiPartExactly.PartExactly` | soc/http/src/HttpMultiPart.cc:21-187 | a body of one part comes back exactly when its names can stand between quotes, its type is one line and its data does not hold the delimiter |
| `Buffer.Buffer.Append` | soc/net/include/Buffer.h:44-50 | adds to the end of the byte queue |
| `Buffer.Buffer.Retired` | soc/net/include/Buffer.h:26-31 | drops from its front, or everything |
| `Buffer.Buffer.EnsureWritable` | soc/net/include/Buffer.h:54-57 | there is room afterwards, and what was unread still is |
| `Buffer.Buffer.MakeSpace` | soc/net/include/Buffer.h:64-73 | growing and the overlapping move in place keep the unread bytes |
| `HttpHeader.LessTotal` | soc/http/src/HttpHeader.cc:59-70 | the order of the keys is total |
| `HttpHeader.EmplaceSplits` | soc/http/src/HttpHeader.cc:68-69 | a new entry goes behind all keys not greater and before all greater ones |
| `HttpHeader.Add0Keeps` | soc/http/src/HttpHeader.cc:59-70 | keys stay sorted, lower-case and single, except for cookies |
| `HttpHeader.Add0Means` | soc/http/src/HttpHeader.cc:59-70 | cookie names collect their values in order, any other name keeps the last, and no other name is touched |
| `HttpHeader.HttpHeader.Add` | soc/http/src/HttpHeader.cc:54-70 | the method on the map |
| `HttpHeader.HttpHeader.Get` | soc/http/src/HttpHeader.cc:80-86 | the first value under the name, or none exactly when there is none |
| `HttpHeader.AddThenGet` | soc/http/src/HttpHeader.cc:54-86 | what is added under one name is found under every name that differs in the case of letters at most, and under no other; cookies come behind those before them |
| `HttpHeader.NamesAgreeExactly` | soc/utility/src/EncodeUtil.cc:209-213 | two names have the same key exactly when they differ in the case of letters at most |
| `HttpHeader.LessExactly` | soc/http/src/HttpHeader.cc:59-70 | the order of keys is the lexicographic one |
| `HttpHeader.HttpHeader.ParseText` | soc/http/src/HttpHeader.cc:12-42 | the parser loop, its result and where it stops |
| `HttpHeader.HttpHeader.SkipSpaces` | soc/http/src/HttpHeader.cc:31-34 | the loop over spaces, which looks one character past the line, stops inside it |
| `HttpHeader.HttpHeader.Store` | soc/http/src/HttpHeader.cc:107-115 | appends the text of the map to the send buffer |
| `HttpHeader.LineReads` | soc/http/src/HttpHeader.cc:16-39 | one stored line is parsed back to its entry |
| `HttpHeader.StoreReadsBack` | soc/http/src/HttpHeader.cc:12-42 | from any entry on, the stored text rebuilds the map and ends where the body starts |
| `HttpHeader.ParsedFits` | soc/http/src/HttpHeader.cc:12-42 | whatever the parser reads fits on a line again |
| `HttpHeader.StoreReadsBackExactly` | soc/http/src/HttpHeader.cc:12-115 | a stored map comes back with the offset of the body exactly when no key holds a colon or CRLF, no value holds CRLF and none begins with a space |
| `HttpRequest.SplitAgrees` | soc/http/src/HttpRequest.cc:152-180 | reading part of the bytes first makes no difference, whatever the code |
| `HttpRequest.ChunksAgree` | soc/http/src/HttpRequest.cc:50-60 | for every split into appends: same code, same headers, same unread bytes as one call on the whole |
| `HttpRequest.StoredReads` | soc/http/src/HttpRequest.cc:152-180 | the request reader reads back what the header map stores |
| `HttpRequest.SentReadsExactly` | soc/http/src/HttpRequest.cc:152-180 | in any pieces, a stored map arrives whole with the body unread exactly when no key holds a colon or CRLF and no value CRLF |
| `HttpRequest.ValuesAgreeExactly` | soc/http/src/HttpRequest.cc:168-173 | the two header parsers give a field the same value exactly when one space follows its colon |
| `HttpRequest.FieldsAgreeExactly` | soc/http/src/HttpRequest.cc:152-180 | on a whole text they find the same fields in the same order exactly when that holds of every complete field line |
| `HttpRequest.ParsersAgree` | soc/http/src/HttpRequest.cc:152-180 | then their maps and what they leave unread are the same, and nothing is thrown |
| `HttpRequest.FieldsBuild` | soc/http/src/HttpHeader.cc:12-42 | the fields so found are what the header map is built of |
| `HttpRequest.ReadFieldsBuild` | soc/http/src/HttpRequest.cc:152-180 | likewise for the request reader |
| `HttpRequest.ReadExactly` | soc/http/src/HttpRequest.cc:152-180 | the whole outcome of the request reader: the map of the fields in front, and whether it is done, waits, throws or finds a bad line, with what is left |
| `HttpRequest.ParseExactly` | soc/http/src/HttpHeader.cc:12-44 | likewise for the header parser, with the index where it stops |
| `HttpRequest.FieldExactly` | soc/http/src/HttpHeader.cc:21-32 | a field line is what stands before the first CRLF, with a name up to the first colon |
| `HttpRequest.ThrowsExactly` | soc/http/src/HttpRequest.cc:147-178 | the request reader throws exactly when a complete line ends at its colon before the fields stop |
| `HttpRequest.BareColonThrows` | soc/http/src/HttpRequest.cc:168-171 | a witness: a line that ends at its colon is an empty value for one and an exception for the other |
| `HttpRequest.HttpRequest.ParseRequestHeader` | soc/http/src/HttpRequest.cc:152-180 | the loop over the receive buffer is the function on the unread bytes |
| `HttpRequest.HttpRequest.Receive` | soc/http/src/HttpRequest.cc:50-60 | bytes arrive and the driver's header states run |
| `HttpRequest.HttpRequest.ReceiveAll` | soc/http/src/HttpRequest.cc:50-60 | all pieces: the code and headers of one call on the whole, and the unread bytes of one call on the pieces received, which are all unless it threw |
| `Base64.TablesInverse` | soc/modules/base64/include/Base64.h:60-80 | the two tables are inverse and neither knows the padding |
| `Base64.AlphabetIs` | soc/modules/base64/include/Base64.h:60-80 | the table is the alphabet of RFC 4648 |
| `Base64.Examples` | soc/modules/base64/include/Base64.h:100-150 | its examples encode as it says |
| `Base64.EncodedSizeIs` | soc/modules/base64/include/Base64.h:83-85 | encoding writes exactly the computed size |
| `Base64.EncodeDecodes` | soc/modules/base64/include/Base64.h:106-191 | decoding gives every byte string back |
| `Base64.DecodeEncodes` | soc/modules/base64/include/Base64.h:106-191 | text comes back from its bytes exactly when it is canonical padded text |
| `Base64.DecodedSizeSuffices` | soc/modules/base64/include/Base64.h:88-91 | the decoded bytes fit the computed size exactly when the digits end in a whole group or in front of the last one; so whenever the length is a multiple of 4 |
| `Base64.ThreeDigitsLackRoom` | soc/modules/base64/include/Base64.h:88-91 | a witness: three digits decode to two bytes, for which no room is made |
| `Base64.EncodeInto` | soc/modules/base64/include/Base64.h:106-139 | the pointer loop writes the encoding and touches nothing behind it |
| `Base64.DecodeInto` | soc/modules/base64/include/Base64.h:153-191 | the loop over digits writes the decoding, touches nothing behind it, and counts both sides |
| `Base64.EncodeString` | soc/modules/base64/include/Base64.h:196-201 | canonical text that decodes to the data |
| `Base64.DecodeString` | soc/modules/base64/include/Base64.h:208-214 | the decoding; encoding it gives the text exactly when that is canonical |
| `UrlCodec.EncodeDecodes` | soc/utility/src/EncodeUtil.cc:156-199 | decoding gives every byte string back, whatever follows |
| `UrlCodec.DecodeEncodes` | soc/utility/src/EncodeUtil.cc:156-199 | text comes back from its bytes exactly when it is made of unreserved bytes and upper-case escapes of the others |
| `UrlCodec.EncodeAvoids` | soc/utility/src/EncodeUtil.cc:182-199 | encoded text holds no separator |
| `UrlCodec.UrlEncode` | soc/utility/src/EncodeUtil.cc:182-199 | the loop computes the encoding, which decodes to its input |
| `UrlCodec.UrlDecode` | soc/utility/src/EncodeUtil.cc:156-172 | the index loop computes the decoding |
| `UrlCodec.EscapeReads` | soc/utility/src/EncodeUtil.cc:138-172 | a percent sign and two hexadecimal digits, each of either case, are the byte 16 times the one and the other |
| `UrlCodec.PlainReads` | soc/utility/src/EncodeUtil.cc:156-172 | anything else stands for itself |
| `UrlCodec.CaseChangesNothing` | soc/utility/src/EncodeUtil.cc:138-172 | changing the case of digits in escapes changes nothing |
| `UrlCodec.ByteIsSpelled` | soc/utility/src/EncodeUtil.cc:148-199 | unreserved characters stay, every other byte becomes a percent sign and its two digits in upper case |
| `KeyValue.JoinReadsBack` | soc/http/src/HttpRequest.cc:315-334 | joined encoded pairs, with any spaces behind the separators, are parsed back to the map of the list |
| `KeyValue.PiecesReadBack` | soc/http/src/HttpRequest.cc:315-334 | pieces of any spelling are parsed to the map of what they mean; a piece without a separator is name and value at once |
| `KeyValue.PutAllSets` | soc/http/src/HttpRequest.cc:321-323 | in that map a name has the value of its last pair |
| `KeyValue.PutAllKeeps` | soc/http/src/HttpRequest.cc:321-323 | and a name of no pair is untouched |
| `KeyValue.ParseKeyValue` | soc/http/src/HttpRequest.cc:315-334 | the loop adds to the map what the function on the text says, pieces without separator included, if it does not run on behind the text |
| `KeyValue.SkipSpaces` | soc/http/src/HttpRequest.cc:327-328 | the loop over spaces behind a separator, with the byte behind the text that it may read |
| `KeyValue.RunsOnExactly` | soc/http/src/HttpRequest.cc:315-334 | one of the turns runs on behind the text exactly when that ends in a separator and spaces and a space is behind it |
| `KeyValue.JoinIsBounded` | soc/http/src/HttpRequest.cc:327-328 | over joined text that loop never runs on, whatever is behind it |
| `KeyValue.ParseJoined` | soc/http/src/HttpRequest.cc:315-334 | so the loop parses joined text back to the map of the list |
| `FastCgi.ContentLengthExactly` | soc/modules/php-fastcgi/src/PhpFastCgi.cc:53-69 | a header carries the content length modulo 65536, hence the length exactly when it fits |
| `FastCgi.HeaderCarries` | soc/modules/php-fastcgi/src/PhpFastCgi.cc:53-69 | version, kind, and the request id and padding as far as they fit |
| `FastCgi.PostIsRead` | soc/modules/php-fastcgi/src/PhpFastCgi.cc:134-149 | a server takes a post body as one record and an empty one behind it exactly when it is shorter than 65536 bytes |
| `FastCgi.LongPostIsCut` | soc/modules/php-fastcgi/src/PhpFastCgi.cc:53-69 | a witness: of a body of 65536 bytes the record holds nothing |
| `FastCgi.LengthExactly` | soc/modules/php-fastcgi/src/PhpFastCgi.cc:89-109 | a length is read back modulo 2^31, hence exactly when it is below |
| `FastCgi.BodiesRead` | soc/modules/php-fastcgi/src/PhpFastCgi.cc:82-123 | concatenated name-value bodies of any pairs are read back as those pairs |
| `FastCgi.MakeNameValueBody` | soc/modules/php-fastcgi/src/PhpFastCgi.cc:82-123 | the byte writes produce that body, its exact length, and touch nothing behind it |
| `FastCgi.ReadStdout` | soc/modules/php-fastcgi/src/PhpFastCgi.cc:191-204 | the content of a record is appended whole across the 2048-byte chunks |
| `FastCgi.ReadBody` | soc/modules/php-fastcgi/src/PhpFastCgi.cc:190-225 | one record moves output, status and message as its kind says, padding skipped |
| `FastCgi.ReadPhpFpm` | soc/modules/php-fastcgi/src/PhpFastCgi.cc:179-228 | over any stream of records that fit the reader: exactly the concatenated output, failure exactly when there was an error record, and the last error text |
| `ThreadPool.StepKeeps` | soc/net/include/ThreadPool.h:28-72 | every step of callers and workers keeps the mutex exclusive, the queue first-in first-out and every accepted task accounted for |
| `ThreadPool.RunsConserve` | soc/net/include/ThreadPool.h:28-72 | over every interleaving: front is never called on an empty queue, tasks start in the order accepted, and accepted is queued, in flight and finished, once each |
| `ThreadPool.EveryCallCounts` | soc/net/include/ThreadPool.h:28-72 | over every interleaving: what is accepted or being added is the tasks of the calls of add before the shutdown, read off the events alone, and each of these is being added, queued, being run or finished, once for each call |
| `ThreadPool.EveryCallIsServed` | soc/net/include/ThreadPool.h:28-66 | no wakeup is lost: as long as the pool runs, a stretch without new calls is finite, and where it comes to rest every worker waits, the queue is empty and every call has had its task run |
| `ThreadPool.ExitedMeansRan` | soc/net/include/ThreadPool.h:57-72 | when every worker has exited, what ran is what the calls before the shutdown brought, less what is late or still being added, and all that was accepted exactly when nothing is late |
| `ThreadPool.NothingLate` | soc/net/include/ThreadPool.h:28-36 | with all workers gone and no add under way, nothing is accepted any more |
| `ThreadPool.EveryTaskRan` | soc/net/include/ThreadPool.h:28-72 | so with nothing late and no add under way every call's task has run, in every continuation |
| `ThreadPool.LateTaskIsLost` | soc/net/include/ThreadPool.h:28-36 | an add that passed its check before the shutdown can leave a task that no worker ever runs |
| `ThreadPool.ShutdownMissesExactly` | soc/net/include/ThreadPool.h:37-64 | in a pool of any size a worker can still be found waiting behind the shutdown's notification exactly when that came between its test and its wait |
| `ThreadPool.StaysAwake` | soc/net/include/ThreadPool.h:57-66 | once the flag is cleared no worker decides to wait |
| `ThreadPool.WaitsOn` | soc/net/include/ThreadPool.h:62-64 | a waiting worker stays where it is until a notification for it, one for all, or a spurious wakeup |
| `ThreadPool.EachWakes` | soc/net/include/ThreadPool.h:33-64 | and each of these does wake it |
| `ThreadPool.MissedStaysMissed` | soc/net/include/ThreadPool.h:37-44 | a worker that was missed waits in every continuation without a spurious wakeup, and the join with it |
| `ThreadPool.ShutdownHangsExactly` | soc/net/include/ThreadPool.h:28-72 | a shutdown can come to rest with a worker left, and the join never return, exactly when its notification comes between some worker's test and wait and no call of add is under way |
| `ThreadPool.RunsAreShort` | soc/net/include/ThreadPool.h:28-72 | while the pool runs, and once the flag is cleared, the steps of every run are bounded, whatever their order, but for new calls of add, and in a running pool the shutdown and wakeups without cause |
| `ThreadPool.KeepsDraining` | soc/net/include/ThreadPool.h:28-72 | behind every other notification all but one worker stay awake, and the one left has a push or a notification still to come when it waits |
| `ThreadPool.ShutdownEnds` | soc/net/include/ThreadPool.h:28-72 | every other shutdown ends, calls of add under way or not: the steps left are bounded, and where it comes to rest every worker has gone and the queue holds nothing from before the last one went |
| `ThreadPool.ShutdownCanHang` | soc/net/include/ThreadPool.h:37-64 | a witness that the missed state is reachable from the start |

## Left out

- JSON floats keep their text: the conversion to `double` and printing one are library code.
- Lines, columns and error texts; which exception is thrown, where there is more than one kind.
- The reader over an `ifstream`, and `JsonObject::get` and the other lookups.
- JSON nodes are values: two containers that share one node are not told apart from two that hold equal nodes.
- An integer numeral beyond 32 bits is given the value x86 hardware gives the conversion, the least integer.
- The response builder formats JSON with escaping on, which prints strings raw; `RawRoundTripExactly` says when that reads back.
- `TimerHeap::clear` leaves the count and is only used by the destructor.
- Heap positions are unbounded, where the source narrows them to `int`, and time stamps do not wrap.
- The session timer, `HttpSession`, `runOnce` and `runEvery`: other threads or the system clock drive them.
- Races between a worker and the timer on one connection; mutexes of the containers, whose methods are single steps.
- The closed-connection callback and epoll registration.
- Channel.Channel.RawWrite: the kernel takes any number of the bytes offered or fails; other effects of `writev` and `sendfile` on the descriptors are not modelled.
- TcpConnection.TcpConnection.Write: when the given kernel answers run out the next one is EAGAIN; the error code itself is not returned.
- HttpMultiPart.HttpMultiPart.Parse: a `strncmp` past the end of the body counts as a mismatch, and NUL characters compare like any other.
- Multipart bodies that make no progress run forever; they are characterised, not parsed. A second file of one name goes into a copy and is lost, as in the code.
- HttpRequest.HttpRequest.Receive: the states behind the header (query, cookies, content) are left out.
- KeyValue.ParseKeyValue: text that ends in a separator and spaces, with one more space behind it in memory, makes the code read on behind it; that is excluded, and `RunsOnExactly` says that it is all that has to be.
- KeyValue.SkipSpaces: excludes the same text.
- Channel.Channel.SslWrite: a call after everything was sent, with no file mapped and no reset, passes a null address with an old length; that is excluded.
- Base64.DecodeInto: asks for room for the decoded bytes; `DecodedSizeSuffices` says when the size the source computes is enough.
- FastCgi.ReadPhpFpm: reads are full, as from a stream that has arrived; padding is at most 8 bytes and an error text at most 2048, the sizes of the reader's buffers, behind which more would be written. A short read is not made up for by the code and is not modelled. An end record with padding, and a record of any kind but output, error and end with content or padding, are excluded as well: the code does not read that part, takes it for the next header and loses its place.
- FastCgi.ReadBody: the same bounds, for one record.
- FastCgi.MakeNameValueBody: asks for a buffer that holds the body; the sender's buffer of 2048 bytes is not checked by the code.
- ThreadPool: a task is a number and ends; what it does is not modelled, except that any thread may call `add` at any time. Fairness is not modelled: `EveryCallIsServed`, `ShutdownEnds` and `ShutdownHangsExactly` are about runs that go on as long as a step can be taken.
- `parseRequestLine`, digest and basic authentication, dispatch, MIME tables, cookies set by responses, logger, configuration, hashes: lookups and plumbing, or no law worth stating.
