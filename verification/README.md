# kanon_httpd: a verified model of its hard parts

The HTTP server answers requests for files and for generated pages. This project models, in Dafny,
the pieces of it whose behaviour is hard to read off the code, and proves what they do for all
inputs, all runs and all interleavings:

- **The shared resource cache** (`ResourceCache`, `HttpServerCache`, `ReferenceCounts`). A map of weak
  references under a mutex, references dropped outside the mutex, deleters that run some time later.
  Every interleaving is a list of atomic events; the class `HttpServer` is the code a thread runs, tied
  to those events; who holds what is also counted from the events alone.
- **The incremental parser** (`HttpParser`, `HttpParserRuns`, `VersionNumbers`, `RequestRoundTrip`),
  with its one-pass URL transducer measured against a segment stack, without escapes (`ComplexUrl`)
  and with them (`PercentEscapes`, `SpelledUrl`, `GluedUrl`), and what it stores of a URL with a query
  measured against what was sent (`StoredUrl`, `PathAndQuery`, `UrlInputs`); which error a bad line gets
  (`LineErrors`), and which messages keep the connection (`KeepAliveRule`).
- **The older, character-level parser** (`RequestLine`, `HttpRequestParser`): the automaton of the
  request line against a grammar and against the lines it is meant to read (`IntendedLines`), the
  resumable header loop (`HeaderCuts`), what is kept of a URL (`OlderUrl`), the calls on a growing buffer
  and what they reject (`OlderRuns`), why and where (`OlderErrors`), and the agreement of the two parsers
  (`ParsersAgree`).
- **File streaming** (`FileStream`): one response head with the first part of a file, then one
  write-complete callback after another, under any short reads.
- **Responses** (`HttpResponse`, `ChunkCoding`, `ResponseFraming`): the builder, and what a client
  that frames messages as sections 3.3.3 and 4.1 of RFC 7230 say reads back; `ServedFileArrives`
  joins builder, streaming and client.
- **Line reading** (`LineReader`) through a 4096-byte buffer, and **option parsing** (`Takina`,
  `OptionGroups`) in one pass with a current option and a count, also from the texts of the arguments
  alone (`OptionTexts`).

Objects that update their fields are classes here too. Each of their methods is proved equal to a
function of the old state, and the theorems are about those functions. Bytes are Dafny characters.

The code is modelled as it is. Where it does something its authors cannot have wanted, the model
does it too, a lemma exhibits an input, and the theorem says exactly when the intended property
holds. Two outcomes stand for behaviour no return value describes: `Spin` (the parse loop goes
round for ever, waiting for a body that has not arrived) and `Fault` (a failed assertion, a null
dereference, a signed overflow, a string view cut beyond its end, a read outside the mapping, a
byte count of -1 that goes unchecked).

## Where the code and its comments part

- The comment on the cached content length (src/http2/http_parser.h:133-136) speaks of resuming
  after a short read; the loop never leaves on one (src/http2/http_parser.cc:52-77). `Spin` marks
  those states, `NeverLeaves` says for which bytes they are reached and `MessageInPieces` for which
  cuts of a message; `FragmentationIndependence` goes on from them as from the kShort they should be.
- The comment on escapes (src/http2/http_parser.cc:255-258) wants the slash state back after an
  escape; the effect is that the next '/' is swallowed (`EscapeAfterSlash`), and in general that of a
  directory without plain characters (`RenderedIsIntended`).
- Hexadecimal letters are announced as "% Hex Hex" and always refused; ten control bytes are accepted
  in their place (`DigitsAccepted`), so that an escape can stand for '/' and be taken for a separator
  (`DecodedSlashIsReread`).
- The query of a complex URL goes through the transducer with its path, and only the last segment is
  asked for a '?': a GET of "/a/?x/../b" becomes the static path "/a/b" (`QueryRewritten`). An escape
  that stands only in the last segment is never decoded (`EscapeKeptRaw`). `RightExactly` and, without
  '%', `PlainRight` say when the stored request is the one that was sent. The older parser rewrites the
  query too, and can take a request with a query for a static one (`QueryUnnoticed`, `TakenExactly`).
- The version is announced as "<major digit>.<minor digit>" (src/http2/http_parser.cc:190);
  "HTTP/0.9;" and "HTTP/.101" count as HTTP/1.1 (`OddVersions`), and `DigitVersions` says what else.
- A header value is what stands behind the character after the colon, whatever that is: "a:b" stores
  nothing (`NoBlankLosesValue`, `StoredValue`).
- "No CR or LF is allowed except in the final CRLF sequence" (src/http/http_request_parser.cc:198), but
  the automaton copies both into the URL, so a URL can swallow a line of its own; it also takes an
  empty host, any number of 'P' in the protocol name, and reports a missing second minor digit and
  goes on (`GrammarIsLoose`, `AcceptedIsIntended`).
- A bad request is answered with 400 or 405 (src/http/http_request_parser.cc:857-874), but a line that
  goes wrong behind its version, or begins with CR or LF, comes out as the server's own error 500
  (`BlamedOnServer`).
- When a later read of a file fails, the error page is sent behind the head and what was read of the file
  (src/http2/http_session.cc:224-228); a client takes it for file bytes (`FailureArrives`).
- An option type documented as taking no argument accepts and ignores any (`RightNumber`).

## Model

| member | source | states |
|---|---|---|
| ResourceCache.StepInv | src/http2/http_server2.cc:89-121 | every event (lookup, open, publish, copy, drop, the deleter's two halves, descriptors opened and closed elsewhere) keeps the invariant that ties map, objects, references and the kernel's table together |
| ResourceCache.HoldersShare | src/http2/http_server2.cc:89-121 | in every reachable state two references are for the same path exactly when they are one object, and exactly when they are one descriptor number |
| ResourceCache.LookupHits | src/http2/http_server2.cc:91-94 | with the mutex free, the entry of a path with a live object refers to that object, and a lookup returns it, changes nothing else and opens nothing |
| ResourceCache.LiveEntryStays | src/http2/http_server2.cc:62-88 | no event removes or replaces the entry of an object that stays live, so a late deleter of an older object never removes a newer entry |
| ResourceCache.ReleasedAtMostOnce | src/http2/http_server2.cc:101-116 | in every run each object is closed at most once, and counts as closed exactly when that event is in the run |
| ResourceCache.ObjectsAge | src/http2/http_server2.cc:101-118 | over whole runs an object keeps path, number and length, has no reference again once its last one is gone, and stays closed |
| ResourceCache.ReleaseHitsOwn | src/http2/http_server2.cc:104-112 | a close comes after the last reference is gone and hits a number that is still this object's, never one that has been reused |
| ResourceCache.NumbersDistinct | src/http2/http_server2.cc:95-101 | distinct unreleased objects have distinct descriptors, whatever numbers the kernel reuses |
| ResourceCache.OutsideUntouched | src/http2/http_server2.cc:101-116 | no event of the cache takes a descriptor that belongs to somebody else |
| ResourceCache.KeysAccounted | src/http2/http_server2.cc:91-118 | every key of the map is the path of an unreleased object, a path whose open has failed, or the path a lookup is busy with |
| ResourceCache.QuietMeansReleased | src/http2/http_server2.cc:101-116 | with no reference and no deleter left every object is released and only keys of failed opens remain |
| ResourceCache.Drains | src/http2/http_server2.cc:89-121 | from any reachable state without references, whatever stage a lookup or deleter has reached inside the mutex, it can leave and the pending deleters can run to the end, so nothing is stuck |
| ResourceCache.DeleterRuns | src/http2/http_server2.cc:101-116 | an undisturbed deleter erases the entry exactly if it has expired, closes its own number and marks its object closed |
| ResourceCache.FailedOpenLeavesEntry | src/http2/http_server2.cc:91-99 | a lookup of a path nobody holds whose open fails leaves the entry that was there, or an empty one |
| ReferenceCounts.CopyShares | src/http2/http_session.cc:192-202 | a reference that is held can be copied under any free name; the copy refers to the same object, and every other reference stays as it is |
| ReferenceCounts.DropTakes | src/http2/http_server2.cc:101-116 | a reference can be dropped at any time, whoever is inside the mutex; all others stay, and the object is a zombie exactly if none is left |
| ReferenceCounts.LiveExactlyWhileHeld | src/http2/http_server2.cc:60-122 | over any run of a new server an object is live exactly as long as somebody holds a reference to it that was got by a lookup, an open or a copy and has not been dropped |
| ReferenceCounts.ReferencesAreCounted | src/http2/http_server2.cc:60-122 | and as many references to it exist as the events gave and did not take back; it is live exactly as long as that is not zero |
| ReferenceCounts.LastDropExactly | src/http2/http_server2.cc:101-116 | a live object becomes a zombie exactly at the drop of the only reference left to it |
| ReferenceCounts.HeldStays | src/http2/http_server2.cc:60-122 | whoever does not drop a reference keeps it over any run: the same live object, its number open and the cache's own, no close under way |
| ReferenceCounts.CopyOutlives | src/http2/http_session.cc:192-202 | the copy in the write-complete callback keeps the object live and its number open after the original is dropped |
| ReferenceCounts.ElsewhereIsElsewhere | src/http2/http_server2.cc:95-112 | numbers opened and closed elsewhere change nothing of the cache |
| HttpServerCache.HttpServer.Lookup | src/http2/http_server2.cc:91-94 | finds a live object exactly if somebody holds the path's resource, and then shares it; otherwise only an empty entry may be new |
| HttpServerCache.HttpServer.Fill | src/http2/http_server2.cc:94-119 | the miss branch runs exactly the open and publish events, keeps the invariant, and makes exactly one object or records the failure |
| HttpServerCache.HttpServer.GetFd | src/http2/http_server2.cc:60-122 | an undisturbed call is a run of the event system: it shares the live descriptor if there is one, else opens one and publishes it, else returns null |
| HttpServerCache.HttpServer.GetAddr | src/http2/http_server2.cc:124-167 | the same for mappings; the temporary descriptor is closed on every path, and on a hit the caller's length plays no part |
| HttpServerCache.HttpServer.DropReference | src/http2/http_server2.cc:101-116 | dropping a reference is one event, and it was the last exactly if the object is a zombie afterwards |
| HttpServerCache.HttpServer.CopyReference | src/http2/http_session.cc:192-202 | one copy event: one more reference to the same object, all others unchanged |
| HttpServerCache.HttpServer.Deleter | src/http2/http_server2.cc:101-116 | is a run of the event system; it closes the object's own number, and an entry it removes is its own path's, held by nobody |
| ComplexUrl.Transduce | src/http2/http_parser.cc:265-390 | the loop ends with the output and state of the character-by-character definition, or at the first bad escape digit, saying which of the two it was |
| ComplexUrl.OutputAlwaysInRange | src/http2/http_parser.cc:327-333 | after any nonempty prefix of a URL that starts with '/', in whatever state, the output starts with '/', is no longer than the prefix, and the erase at ".." is in range and keeps a prefix that ends in '/' (also when the output is "/" and size minus 2 wraps) |
| ComplexUrl.TransducerOutput | src/http2/http_parser.cc:265-345 | the exact output for every URL without '%', as pushes and pops on a segment stack with the leading dots of segments lost |
| ComplexUrl.TransducerIsNormalize | src/http2/http_parser.cc:265-345 | on text without '%', a '?' taken for an ordinary character as it is inside a path: one pass with rfind and erase equals dropping empty segments and removing dot segments (section 5.2.4 of RFC 3986) exactly where no kept segment begins with '.' and the last is not ".." above a directory |
| ComplexUrl.NormalizeIdempotent | src/http2/http_parser.cc:224-241 | the intended normal form is its own normal form |
| ComplexUrl.TransducerIdempotent | src/http2/http_parser.cc:265-345 | on those URLs a second pass changes nothing |
| ComplexUrl.LeadingDotIsLost | src/http2/http_parser.cc:320-323 | "/.x/" does not come out as its normal form |
| ComplexUrl.LastDotDotIsLost | src/http2/http_parser.cc:327-345 | neither does "/a/..", whose ".." is dropped without popping |
| ComplexUrl.OutputDotSegments | src/http2/http_parser.cc:306-345 | the output holds a "." or ".." segment if and only if a remaining directory or the last segment consists of three or four dots |
| ComplexUrl.FourDotsClimb | src/http2/http_parser.cc:327-345 | "//..../x" comes out as "/../x" |
| PercentEscapes.PercentRoundTrip | src/http2/http_parser.cc:347-388 | decoding the encoding of any byte string gives the bytes back if and only if no byte needs a hexadecimal letter; otherwise the URL is refused |
| PercentEscapes.DigitsAccepted | src/http2/http_parser.cc:348-366 | a character is accepted as an escape digit if and only if it is a decimal digit or one of the bytes 0x10 to 0x19, which the case fold turns into digits and the code into -39 to -30 |
| SpelledUrl.SpelledOutput | src/http2/http_parser.cc:265-390 | the exact output for every URL of plain characters and accepted escapes, segment by segment: which dots are dropped, which directories get a '/', what ".." among escapes erases |
| SpelledUrl.UrlOutput | src/http2/http_parser.cc:265-390 | every URL starting with '/' reads as such segments up to its first bad escape; it is accepted exactly if that is only cut off by the end, and the output is what the segments render to |
| SpelledUrl.ReadsBack | src/http2/http_parser.cc:265-390 | a spelling is read as just the segments it spells, so every URL has one reading |
| SpelledUrl.IntendedIsNormalize | src/http2/http_parser.cc:224-241 | for a path without '%' the spelled meaning is the segment-stack normal form |
| SpelledUrl.RenderedIsIntended | src/http2/http_parser.cc:265-390 | without ".." in any segment, and whatever bytes the escapes stand for, the output is what the URL means if and only if every directory is empty, ".", or has plain characters of which the first is no dot, and the last segment drops no dot |
| SpelledUrl.ShelfOutput | src/http2/http_parser.cc:265-390 | with any segments whose escapes stand for no '/': the output as a stack of directories and a glued rest, and it is what the URL means if and only if these are the remaining directories and the last segment |
| SpelledUrl.EscapedUrl | src/http2/http_parser.cc:265-390 | with ".." allowed and no directory glued: the output is what the URL means, each escape decoded once, if and only if no remaining directory nor the last segment begins with a plain dot and a last ".." has nothing to pop |
| GluedUrl.CountedOutput | src/http2/http_parser.cc:265-390 | with ".." and glued directories together, escapes standing for no '/': scanning the directories, the output is what the URL means if and only if as many are made as are meant, no remaining one begins with a plain dot and the last segment drops none; behind a last "..", the URL must mean the root, or one directory too few must be made and those made be the meant ones |
| GluedUrl.GluedInputs | src/http2/http_parser.cc:327-345 | "/%25/../x" comes out right, "/%25/%25/../x" and "/%25/a/../x" do not |
| SpelledUrl.EscapeAfterSlash | src/http2/http_parser.cc:295-298 | "/%25/x" comes out as "/%x" |
| SpelledUrl.DecodedSlashIsReread | src/http2/http_parser.cc:329-333 | an escape that decodes to '/' (its second digit the byte 0x16) is taken for a separator by a later "..": "/a%5<0x16>b/../c" comes out as "/a/c" and means "/c" |
| HttpParser.HttpParser.ClassifyUrl | src/http2/http_parser.cc:145-163 | the find loop marks a URL complex exactly if a directory is empty, ".", ".." or holds '%', or the last segment holds '?', which also makes it dynamic |
| HttpParser.HttpParser.DigitLoop | src/http2/http_parser.cc:190-202 | computes the decimal fold of the characters, digits or not, as far as int holds it |
| HttpParser.HttpParser.ParseHttpVersion | src/http2/http_parser.cc:165-220 | accepts what the version definition accepts, with the same error for every failure, and resolves a complex URL last |
| HttpParser.HttpParser.ParseComplexUrl | src/http2/http_parser.cc:223-403 | stores the transduced URL, cut at the first '?' if dynamic; a bad escape only records an error; a dynamic URL without '?' trips the assertion |
| StoredUrl.Verdict | src/http2/http_parser.cc:392-400 | the assertion on the '?' fails if and only if the method is POST, the URL complex, its escapes accepted and no '?' left in what its segments render to; no other method can trip it |
| StoredUrl.PlainQuery | src/http2/http_parser.cc:395-396 | without '%' a '?' is left if and only if a remaining directory or the last segment has one |
| StoredUrl.Stored | src/http2/http_parser.cc:216-218 | a URL that is not complex or has a bad escape is stored as sent, any other as rendered, whole if static and otherwise cut at the first '?' |
| PathAndQuery.RightExactly | src/http2/http_parser.cc:145-403 | cut at the first '?' as sent, the stored request has the meaning of the path, the untouched query and the right static flag if and only if the path's escapes are complete, the query holds no escape and no '/' with '/' or '.' behind it, the last segment has a '?' (or it is a POST to an odd path), and the path comes out as it is meant; without a query, if and only if an odd path is no POST and comes out right, or a path that is not looked at ends in no escape and no dot segment |
| PathAndQuery.PlainRight | src/http2/http_parser.cc:145-403 | without '%': the same with the normal form of the path for its meaning and its safety for the last condition, for every URL |
| PathAndQuery.DecimalEscapes | src/http2/http_parser.cc:347-388 | an escape of two decimal digits never stands for '?', '/' or '.' |
| UrlInputs.QueryRewritten | src/http2/http_parser.cc:150-163 | a GET of "/a/?x/../b" is stored as the static URL "/a/b" with an empty query |
| UrlInputs.EscapeKeptRaw | src/http2/http_parser.cc:148-163 | "/%41" is stored as it stands and means "/A" |
| UrlInputs.RightByChance | src/http2/http_parser.cc:392-400 | an escape that stands for '?' (its second digit a control byte) can make a request right although neither path nor query comes through, which is why RightExactly is about the other paths |
| StoredUrl.StoredDotSegments | src/http2/http_parser.cc:145-158 | dot segments in what is stored for a static request: from three or four dots if the URL was complex, and otherwise if and only if its last segment is one, which nobody looks at |
| HttpParser.HttpParser.ParseHeaderLine | src/http2/http_parser.cc:82-221 | outcome, error and request fields of every request line, well formed or not |
| VersionNumbers.ReadsWeighted | src/http2/http_parser.cc:190-206 | the digit loop computes the sum of the characters' distances from '0' weighted by powers of ten, or overflows exactly where a prefix leaves int |
| VersionNumbers.DigitVersions | src/http2/http_parser.cc:190-214 | with digits on both sides, of any number, accepted are exactly major 1 with minor 0 or 1 and major 0 with minor 100 or 101 |
| VersionNumbers.OneDigitVersions | src/http2/http_parser.cc:190-214 | with one digit on each side, exactly "1.0" and "1.1" |
| VersionNumbers.OddVersions | src/http2/http_parser.cc:190-206 | "HTTP/0.9;", "HTTP/.101" and "HTTP/.I" with the byte 0x9b behind, which counts as negative, are accepted as HTTP/1.1 |
| StoredUrl.AcceptedLines | src/http2/http_parser.cc:82-221 | a fresh parser accepts a request line if and only if it is a supported method, one space, a path without spaces, one space and "HTTP/" with two texts around the first dot whose weighted sums, a hundred times the first plus the second, come to 100 or 101, and it does not trip the assertion |
| LineErrors.RejectedLine | src/http2/http_parser.cc:82-221 | why a request line is refused, by its words: none behind the method, no such method, no word behind the URL, an empty URL, one without '/', no "HTTP/", no dot, no such version; behind a good version nothing is refused |
| LineErrors.NotAllowedExactly | src/http2/http_parser.cc:85-105 | the status is 405 exactly for a first word, with a blank behind it, that is none of GET, POST, PUT and HEAD, and 400 for every other refused line |
| LineErrors.EscapeComplaint | src/http2/http_parser.cc:348-388 | a bad escape in a complex URL leaves an error that says which digit of the first bad escape it was, and the request goes on |
| LineErrors.RejectedField | src/http2/http_parser.cc:405-425 | a header line ends the fields exactly if it is empty, and is refused exactly if it is not and has no colon |
| LineErrors.CallRejects | src/http2/http_parser.cc:7-80 | a call on a refused first line with anything behind it reports that line's error and takes nothing from the buffer |
| HttpParser.HttpParser.ParseHeaderField | src/http2/http_parser.cc:405-425 | blank line, missing colon, nothing behind the colon, and otherwise the first value for a name wins |
| RequestRoundTrip.StoredValue | src/http2/http_parser.cc:410-424 | for every line with a colon: the stored value is the text behind it without the blanks around it if and only if exactly one blank stands in front of the value and none behind |
| RequestRoundTrip.NoBlankLosesValue | src/http2/http_parser.cc:420-422 | "a:b" stores the empty value |
| HttpParser.HttpParser.SetHeaderMetadata | src/http2/http_parser.h:86-125 | keep-alive by version and Connection, and the cached length by Content-Length; without one the old length stays |
| KeepAliveRule.MatchesExactly | src/http2/http_parser.h:88-101 | the comparison holds exactly for the beginnings of the word, the empty one included, in any case, and for the whole word with a NUL and anything behind it |
| KeepAliveRule.KeptAlive | src/http2/http_parser.h:85-113 | a well-formed HTTP/1.1 message is keep-alive if and only if its first Connection field does not stand for "close" in that sense; an HTTP/1.0 message if and only if it has one that stands for "keep-alive" |
| KeepAliveRule.AlwaysSupported | src/http2/http_parser.cc:7-80 | an invariant of all calls on any bytes: behind the request line method and version are supported ones, and a complete request is keep-alive only as the rule of its version says |
| KeepAliveRule.KeepAliveDefaults | src/http2/http_parser.h:88-109 | "GET / HTTP/1.1" without fields is kept, "GET / HTTP/1.0" is not |
| HttpMessage.MatchesPrefixes | src/http2/http_parser.h:92-103 | the comparison of Connection is bounded by the value, so any prefix of the word, even an empty value, counts as the word, and nothing else does |
| HttpParser.HttpParser.ExtractBody | src/http2/http_parser.cc:427-438 | takes exactly the announced bytes, or changes nothing |
| HttpParser.HttpParser.HeaderLineStep | src/http2/http_parser.cc:28-38 | the request-line branch is one iteration of the loop's definition; a line that fails is not consumed |
| HttpParser.HttpParser.HeaderFieldStep | src/http2/http_parser.cc:39-50 | the header-field branch likewise |
| HttpParser.HttpParser.BodyStep | src/http2/http_parser.cc:52-76 | the body branch; Spin exactly where it would go round with nothing changed |
| HttpParser.HttpParser.Parse | src/http2/http_parser.cc:8-80 | result, parser state, request and unread bytes of one call on any buffer in any state |
| HttpParserRuns.LoopLeavesUnlessSpin | src/http2/http_parser.cc:16-79 | the loop as coded leaves within one iteration per remaining phase and byte, unless a body is announced and not all there, in which case it never leaves |
| HttpParserRuns.NeverLeaves | src/http2/http_parser.cc:16-77 | the loop as coded never leaves if and only if the buffer consists of accepted lines up to a blank line and of fewer bytes behind them than announced |
| HttpParserRuns.WhyMore | src/http2/http_parser.cc:22-26 | what is missing when a call wants more: a line end before the body, or body bytes |
| HttpParserRuns.LineErrorAgain | src/http2/http_parser.cc:82-221 | a request line that fails, fails the same way on the request it has half filled |
| HttpParserRuns.FragmentationIndependence | src/http2/http_parser.cc:8-80 | however a byte stream is cut into pieces, calls after each piece end with the same result, request, error, parser state and unread bytes as one call on the whole |
| HttpParserRuns.CallsSpin | src/http2/http_parser.cc:8-80 | in a delivery as coded some call never returns if and only if the bytes up to the end of some piece are such a buffer |
| HttpParserRuns.ErrorIsForever | src/http2/http_parser.cc:31-49 | after kError the offending line is still in front, and every later call on the grown buffer reports kError and changes nothing |
| Text.StrToULLReads | src/http2/http_parser.h:119-122 | a length with blanks, a sign and anything that is no digit around it is read as itself, saturating, and negated modulo 2^64 behind a minus sign |
| RequestRoundTrip.AnnouncedCanonical | src/http2/http_parser.h:119-124 | a first Content-Length field that prints the body's size announces it |
| RequestRoundTrip.ExpectedUrl | src/http2/http_parser.cc:392-400 | what the expected request says: the URL as sent, or as rendered and cut at the first '?'; without '%' it is the request that was sent, path in normal form and query untouched, if and only if the query is clean and the path, where it is looked at, safe |
| RequestRoundTrip.RoundTrip | src/http2/http_parser.cc:16-77 | a printed well-formed message followed by any bytes is read back as the same request, first header value winning, and leaves exactly those bytes |
| RequestRoundTrip.PartialBodySpins | src/http2/http_parser.cc:52-77 | a well-formed head with only part of its body behind it is where the loop spins |
| RequestRoundTrip.PartialMessage | src/http2/http_parser.cc:16-79 | every proper prefix of a well-formed message asks for more if its head is incomplete and spins otherwise |
| RequestRoundTrip.MessageInPieces | src/http2/http_parser.cc:16-79 | a message delivered in pieces makes no call spin if and only if no piece ends at or behind the end of its head and before its own end |
| RequestRoundTrip.Pipelining | src/http2/http_parser.cc:11-14 | any concatenation of well-formed messages is read back message by message by one parser |
| RequestLine.AcceptsGrammar | src/http/http_request_parser.cc:189-617 | every line of the grammar (four methods, spaces, path or scheme://host[:port]/path, spaces, version, line end) is accepted with the offsets of its parts |
| RequestLine.AcceptedInGrammar | src/http/http_request_parser.cc:189-617 | every accepted line belongs to the grammar |
| RequestLine.AcceptsExactly | src/http/http_request_parser.cc:189-617 | both directions, and on acceptance the URL is exactly the text between url_start and url_end, all offsets ordered and in bounds |
| RequestLine.MarksUnique | src/http/http_request_parser.cc:189-617 | a line has its parts in one place only |
| IntendedLines.AcceptedIsIntended | src/http/http_request_parser.cc:189-617 | against the lines meant by the comments and by section 3.1 of RFC 2616, written down from their text: an accepted line is one of them if and only if its protocol name is exactly "HTTP", its second minor character, if any, is a digit, its URL holds no CR or LF, and its host, behind a scheme, is not empty |
| IntendedLines.IntendedReads | src/http/http_request_parser.cc:189-617 | an intended line, with anything behind it, is accepted if and only if neither version number has more than two digits, and then method, URL, version numbers and the end come out as they stand in it |
| IntendedLines.GrammarIsLoose | src/http/http_request_parser.cc:380-577 | five accepted lines that are not intended: "HTTPP/1.1", "HTTP/1.1x", a URL with CR LF and one with LF inside, and an empty host |
| RequestLine.ManyReads | src/http/http_request_parser.cc:183-190 | a good line delivered in any number of reads is accepted, and then as in one read, if and only if every read that does not complete it ends inside the method, because the state is not kept between calls |
| RequestLine.ReadsExactly | src/http/http_request_parser.cc:183-190 | any bytes in any number of reads: the calls end in an accepted line if and only if the whole begins with a line of the grammar and every read that does not complete it ends inside the method |
| RequestLine.CutsFitExactly | src/http/http_request_parser.cc:610-617 | that condition on the cuts, by the positions where the reads end |
| HttpRequestParser.HttpRequestParser.ParseRequestLine | src/http/http_request_parser.cc:179-618 | the character loop ends as the automaton's run does, offsets and position included |
| HttpRequestParser.HttpRequestParser.ProcessRequestLine | src/http/http_request_parser.cc:152-177 | the URL is the token itself, or for a complex one what the transducer makes of it; a bad escape still completes |
| OlderUrl.LineTaken | src/http/http_request_parser.cc:152-177 | the URL and the static flag a call leaves on any accepted line are those of its URL token and method |
| OlderUrl.TakenExactly | src/http/http_request_parser.cc:152-177 | the older parser keeps the meaning of the path with the untouched query behind it, and the right static flag, if and only if the path's escapes are complete and the path comes out as it is meant, the query holds no escape and no '/' with '/' or '.' behind it, and, unless it is a POST, somebody notices the '?': the automaton, where no segment before it begins with a dot and no escape stands before it, or the transducer, behind a text segment or at a later '?' that is not behind a '/' |
| OlderUrl.PlainTaken | src/http/http_request_parser.cc:152-177 | without '%': the same for every URL, with the normal form for the meaning and its safety for the path's condition |
| OlderUrl.QueryUnnoticed | src/http/http_request_parser.cc:380-450 | a GET of "/./?x" counts as static |
| HttpRequestParser.HttpRequestParser.TakeField | src/http/http_request_parser.cc:659-669 | one field line: name, value, cached length, position |
| HttpRequestParser.HttpRequestParser.ProcessRequestHeader | src/http/http_request_parser.cc:634-680 | the header loop: result, position, map and cached length of every call |
| HttpRequestParser.AtollReads | src/http/http_request_parser.cc:663 | a length with blanks, a sign and anything that is no digit around it is read as itself, up to the bounds of long long, and below zero converted to size_t |
| HeaderCuts.HarmlessExtends | src/http/http_request_parser.cc:634-680 | over harmless lines what a call has decided stays with more bytes behind, and where it wanted more, going on is as good as one call |
| HeaderCuts.CutsAgreeExactly | src/http/http_request_parser.cc:634-680 | for every header map and length before and every way to cut the bytes, the repeated calls end as one call on the whole, if and only if the lines are harmless: up to the blank line or a line behind which no colon comes, each has a colon of its own, and one that ends at it is the last thing there or has a name seen before, and for Content-Length a value of 0 or one overwritten later |
| HeaderCuts.FieldLinesHarmless | src/http/http_request_parser.cc:634-680 | blocks of "name: value" lines are harmless, so they can be cut anywhere, even between CR and LF |
| HeaderCuts.HeadersDoNotResume | src/http/http_request_parser.cc:648-660 | "a:" CR LF "x" in one piece and in two |
| HttpRequestParser.HttpRequestParser.Parse | src/http/http_request_parser.cc:83-150 | the phase loop from the request line to the end of the headers, and what it leaves in the buffer |
| HttpRequestParser.FaultsInHeadersOnly | src/http/http_request_parser.cc:152-177 | an invariant of all calls of Parse on a growing buffer, after rejections too: cutting the URL out of the line never goes beyond the bytes |
| OlderRuns.HeadInPart | src/http/http_request_parser.cc:83-150 | for a message with a plain URL and "name: value" fields every proper prefix of the head is answered with kShort |
| OlderRuns.PiecesEndAsOne | src/http/http_request_parser.cc:83-150 | calls on a growing buffer, the line cut where it resumes and its header lines harmless, end with the result, the parser and the unread bytes of one call on the whole |
| OlderRuns.MessageInReads | src/http/http_request_parser.cc:83-150 | so a plain message cut anywhere in its fields is read completely: URL, method, fields, length, and exactly the bytes behind it left over |
| OlderRuns.LineRejected | src/http/http_request_parser.cc:189-617 | bytes are rejected for their request line if and only if they are not all capitals and no continuation makes them begin with a line of the grammar |
| OlderRuns.HeaderRejected | src/http/http_request_parser.cc:634-680 | a header block is rejected if and only if, in front of its blank line, a complete line has no colon anywhere behind its beginning |
| OlderRuns.RejectsExactly | src/http/http_request_parser.cc:83-150 | a call on a new parser answers kBad for one of these two reasons and no other |
| OlderRuns.OnceComplete | src/http/http_request_parser.cc:129-139 | once complete, every later call says so, whatever has arrived, and changes nothing |
| OlderErrors.RefusedAt | src/http/http_request_parser.cc:189-617 | a request line is refused at the first byte with which nothing can be accepted any more, and for the word that byte is in: method, URL or version, except two characters behind the version's dot and at a line end in front of everything, where it is the request |
| OlderErrors.BlamedOnServer | src/http/http_request_parser.cc:857-874 | the status of a refused line is 500 exactly in those two cases, 405 exactly in the first word otherwise, and else 400 |
| ParsersAgree.PlainExpected | src/http2/http_parser.cc:82-221 | what the newer parser makes of a plain URL: kept whole, or cut at the first '?' |
| ParsersAgree.OldLine | src/http/http_request_parser.cc:152-177 | what the older parser makes of a plain request line: method, version, static flag and the whole URL |
| ParsersAgree.OldHeaders | src/http/http_request_parser.cc:634-680 | it reads a block of "name: value" lines: first value wins in the map, last Content-Length in the length |
| ParsersAgree.LastLengthCounts | src/http/http_request_parser.cc:661-665 | of several printed Content-Length fields the last is the length |
| ParsersAgree.ParsersAgree | src/http/http_request_parser.cc:83-150 | on every well-formed message with a plain URL the two parsers agree on method, version, static flag, headers and URL with query |
| FileStream.HttpSession.ServeFile | src/http2/http_session.cc:121-213 | the first part of a response by pread or from the mapping, or the error page if the file cannot be served: bytes sent, offset, callback |
| FileStream.HttpSession.SendErrorResponse | src/http2/http_session.cc:331-345 | the error page goes out and the connection is shut down |
| FileStream.HttpSession.SendFile | src/http2/http_session.cc:215-250 | one callback of the pread kind, for any result of the read |
| FileStream.HttpSession.SendFileOfMmap | src/http2/http_session.cc:252-272 | one callback of the mapped kind, the remaining size computed modulo 2^64 |
| FileStream.HttpSession.SetLastWriteComplete | src/http2/http_session.cc:427-433 | installs the closing callback and changes nothing else |
| FileStream.HttpSession.CloseConnection | src/http2/http_session.cc:315-329 | starts the timer of a kept connection and shuts down any other |
| FileStream.HttpSession.OnWriteComplete | src/http2/http_session.cc:192-210 | a write-complete report runs exactly the registered callback |
| FileStream.StepStreams | src/http2/http_session.cc:215-272 | every callback keeps the account of the bytes sent and the offset reached |
| FileStream.SendsExactly | src/http2/http_session.cc:121-272 | a completed response has sent the head and the file, each byte once and in order, if and only if the session's offset was 0 or the first part held the whole file; otherwise it has sent fewer bytes |
| FileStream.LastWriteMeansAllSent | src/http2/http_session.cc:230-268 | the closing callback is installed only when every byte has been handed over |
| FileStream.StepProgress | src/http2/http_session.cc:215-272 | from offset 0 every callback strictly lowers the unsent size and none faults |
| FileStream.AlwaysFinishes | src/http2/http_session.cc:121-272 | from offset 0 no run is longer than the file and two steps, and one that stops without a read error has sent head and file |
| FileStream.CompletionReachable | src/http2/http_session.cc:192-272 | and from offset 0 every response can be completed by some further reads |
| FileStream.EveryCutRuns | src/http2/http_session.cc:215-250 | the kernel may divide what is left of a file into any parts of 1 to 65536 bytes: each division is a run that sends exactly those bytes, and the next read may fail at any time |
| FileStream.EndsAsAsked | src/http2/http_session.cc:315-329 | over any run a completed response ends with the keep-alive timer if and only if the request is keep-alive, and otherwise with the write side shut down |
| FileStream.FailureSendsPage | src/http2/http_session.cc:224-228 | over any run in which a read fails, the head, the file up to the failure and then the error page have been sent, and the connection is shut down |
| FileStream.OffsetStays | src/http2/http_session.cc:189-230 | a response of more than one part leaves the offset above 0 |
| FileStream.OneShotKeepsOffset | src/http2/http_session.cc:205-210 | a response of one part leaves the offset as it was |
| FileStream.MappedStart | src/http2/http_session.cc:172-187 | head and first part of a mapped file are at most 65536 bytes together |
| FileStream.MappedPart | src/http2/http_session.cc:252-272 | and every later part is 65536 bytes, or the rest |
| FileStream.SecondResponseIsShort | src/http2/http_session.cc:189-259 | so the next such response on the same connection sends fewer bytes than it announces |
| ChunkCoding.HexReads | src/common/http_response.cc:70-89 | the upper-case numeral of a number reads back as the number |
| ChunkCoding.HexCanonical | src/common/http_response.cc:70-89 | no other upper-case numeral without leading zero does |
| ChunkCoding.HexLength | src/common/http_response.cc:75-88 | a number has at most k digits if and only if it is below 16^k |
| ChunkCoding.Dec2Hex | src/common/http_response.cc:70-89 | for every size_t the position stays inside the 16-byte array and the result is that numeral |
| ChunkCoding.UnchunkAll | src/common/http_response.h:118-125 | a receiver gets the chunks before the first empty one, whatever bytes they hold, and what stood behind it is left over |
| ChunkCoding.ChunkRoundTrip | src/common/http_response.h:118-125 | chunks ended by an empty chunk decode to their concatenation, leaving exactly the bytes behind, if and only if no earlier chunk is empty |
| ChunkCoding.UnchunkStable | src/common/http_response.h:118-125 | more bytes never change what a receiver has decided |
| ChunkCoding.CutChunksArePartial | src/common/http_response.h:118-125 | cut anywhere before its end, such a body is read as unfinished |
| HttpResponse.HttpResponse.AddHeaderLine | src/common/http_response.h:36-40 | version, code and phrase, the latter two through 255 bytes |
| HttpResponse.HttpResponse.AddHeader | src/common/http_response.h:52-60 | one field line through 256 bytes, cut there and at NUL bytes |
| HttpResponse.HttpResponse.AddChunkedTransferHeader | src/common/http_response.h:71-76 | turns length computation off, chunks on, and adds the field |
| HttpResponse.HttpResponse.AddBlackLine | src/common/http_response.h:81-87 | ends the head, except where the length is still to be computed |
| HttpResponse.HttpResponse.AddBody | src/common/http_response.h:97-106 | appends to the buffer, or to the body kept back |
| HttpResponse.HttpResponse.AddChunk | src/common/http_response.h:118-125 | appends one coded chunk |
| HttpResponse.HttpResponse.GetBuffer | src/common/http_response.cc:10-24 | adds the computed length if there is a body, the blank line and the body |
| HttpResponse.HeaderIntact | src/common/http_response.h:52-60 | a field arrives as given if and only if it has no NUL and name, value and the four separators fit 255 bytes |
| HttpResponse.LongHeaderLosesItsEnd | src/common/http_response.h:54-58 | a longer one loses its line end |
| HttpResponse.HeadReads | src/common/http_response.h:36-87 | a client reads a status line and clean fields back in order, and frames what is behind them |
| ResponseFraming.PiecesAndHeaders | src/common/http_response.h:52-106 | while the length is to be computed, headers and body pieces may interleave in any way: each collects in its own place, in order |
| ResponseFraming.ComputedLength | src/common/http_response.cc:10-24 | any interleaving of headers and body pieces and one GetBuffer: a client gets the fields in call order, the computed Content-Length, and the body cut off exactly, whatever follows; without a body nothing delimits the message |
| ResponseFraming.SecondGetBuffer | src/common/http_response.cc:10-24 | a second GetBuffer changes nothing if and only if the length is known |
| ResponseFraming.ErrorPageArrives | src/common/http_response.cc:26-50 | a client gets status line, three fields and the page, written out here as text, and exactly the bytes behind are left over, for every message that fits the 4096-byte buffer it is formatted through |
| ResponseFraming.ChunkedResponse | src/common/http_response.h:71-125 | in either mode, wherever the coding is announced, a client gets the headers in order and the concatenated chunks, if and only if no chunk before the last is empty |
| ResponseFraming.BuildFileHead | src/http2/http_session.cc:130-148 | the builder calls of ServeFile make the head of a served file |
| ResponseFraming.FileHeadIs | src/http2/http_session.cc:130-167 | that head is at most 512 bytes, so the room left for the file is never negative |
| ResponseFraming.FileFraming | src/http2/http_session.cc:137-148 | a client takes exactly the file's size behind the head, or waits |
| ResponseFraming.ServedFileArrives | src/http2/http_session.cc:121-272 | builder, streaming and client together: the client gets exactly the file if and only if the session's offset was 0 or the first part held the file; otherwise it waits for bytes that never come; it reads Connection: Keep-Alive if and only if the connection is kept |
| ResponseFraming.FailureArrives | src/http2/http_session.cc:215-230 | if a later read fails, a client takes the error page for the file's next bytes: it gets a body of the announced size with the page in it, or waits |
| LineReader.File.Fgets | src/util/file.cc:121-134 | one fill: up to and with a newline, at most 4095 bytes, NUL behind |
| LineReader.File.Strlen | src/util/file.cc:137 | the first NUL of the buffer |
| LineReader.File.ReadLine | src/util/file.cc:112-158 | the loop of fills: result, line, what is left unread, end-of-file flag |
| LineReader.ReadsOn | src/util/file.cc:120-157 | a line without NUL of any length, read in one call: the pieces join, and only an unterminated line of a multiple of 4095 bytes is not returned |
| LineReader.ReadsLines | src/util/file.cc:112-158 | the lines of a file without NUL, all of them or all but such a last one |
| LineReader.NulLosesBytes | src/util/file.cc:137-153 | bytes are never invented, and a NUL loses some |
| LineReader.LinesRead | src/util/file.cc:112-158 | repeated calls give the lines of the file, and their concatenation is the file, if and only if there is no NUL and the unterminated last line is not a positive multiple of 4095 bytes long |
| LineReader.LinesStripped | src/util/file.cc:139-151 | without newlines each line comes stripped of LF or CR LF, if and only if CR and LF did not fall into different fills; a line torn there keeps its CR |
| Takina.Options.AddOption | src/takina/takina.h:297-319 | a long name and a short name register once, the first time, an empty long name never; the flag a caller passes is cleared in any case (lines 153-156) |
| Takina.Options.AddHelp | src/takina/takina.h:321-322 | registers --help unless the name is taken, and clears its flag |
| Takina.Options.Parse | src/takina/takina.h:216-277 | the pass over the arguments: outcome and every variable, for any registered options |
| Takina.Options.ParseArgument | src/takina/takina.h:223-272 | one argument: the next cursor and variables, or the outcome the pass ends with |
| OptionGroups.RunValues | src/takina/takina.h:249-265 | arguments behind an option are stored one by one as long as number and conversion allow, and rejected from there on |
| OptionGroups.PutIsStored | src/takina/takina.h:415-483 | storing them one by one stores them as a whole: last for a unary option, all in order for a list, each at its index, in bounds, for an array |
| OptionGroups.ParsesExactly | src/takina/takina.h:193-277 | the pass accepts if and only if the first argument is an option, none is empty, and every option is known and followed by the number of valid arguments its type asks for; then every group has been stored in turn |
| OptionGroups.ParsedVariables | src/takina/takina.h:216-277 | after an accepted pass each variable depends only on the arguments given to its own option |
| OptionGroups.FinalValue | src/takina/takina.h:415-483 | and holds true, the last value, all values in order, or the last list with further cells untouched |
| OptionGroups.HelpExactly | src/takina/takina.h:267-271 | the help text is shown if and only if --help comes behind arguments that would be accepted alone |
| OptionTexts.OneOption | src/takina/takina.h:223-265 | "--" and a long name or "-" and a short one, then texts up to the next option: if their number and values are right the option's variable holds them and the pass goes on; otherwise it ends with the complaint the first wrong text or the lack of one calls for, naming the option |
| OptionTexts.NoSuchOption | src/takina/takina.h:233-246 | what looks like an option and is none is named in the complaint |
| OptionTexts.NoOptionYet | src/takina/takina.h:223-258 | a text in front of every option, and an empty argument anywhere, is a fault |
| OptionTexts.HelpShown | src/takina/takina.h:267-271 | "--help" shows the help text once registered |
| OptionTexts.EveryArgument | src/takina/takina.h:223-246 | every argument is plain text, the spelling of an option, or looks like one and is none |
| OptionTexts.LineParses | src/takina/takina.h:193-277 | every command line of options as they are written is accepted, and each variable holds what its own options' values make of it |

## Left out

- Sockets, the event loop, timers, logging, raw stat, open, mmap and pread: their results are parameters or events.
- Lifetimes of raw pointers and captured references: positions are indices and requests are values; in particular the request that a write-complete callback refers to after `OnMessage` has returned.
- src/http/http_server.cc, src/unix/pipe.cc, src/unix/process.cc, cgi/ and plugins: process and loader wiring.
- src/config/ and src/common/parse_args.cc: small splitters that would add only easy members.
- Help-text layout, error message texts, MIME types and status phrases: tables; a MIME type, a phrase and a message are parameters.
- The formatted AddBody and AddChunk overloads: they hand the untruncated vsnprintf length on, also beyond their buffer.
- File::Read: one fread loop that without errors reads what is there, up to the length.
- Trailers, transfer decoding of requests, folded header lines: the source does not have them.
- HttpSession::OnMessage makes a new parser for every message; the model is of a parser that persists across calls, as its cached fields are meant for.
- HttpParserRuns.FragmentationIndependence: goes on from Spin as from a short read, because the code has no exit there; CallsSpin says when the code gets there.
- HttpParser.HttpParser.ParseHeaderField: a colon at the very end of a line is Fault, because what StringView does beyond its end is not part of this model.
- HttpRequestParser.HttpRequestParser.ProcessRequestHeader: a field that ends the buffer at its colon is Fault for the same reason; a value that would end before it begins is taken up to the end of the buffer.
- HttpServerCache.HttpServer.GetFd: states one undisturbed call; calls that others interleave with are the event lists of ResourceCache.
- HttpServerCache.HttpServer.GetAddr: as GetFd; a mapping of length 0, which the kernel refuses, is one of the failures.
- FileStream.SendsExactly: the file does not change while it is sent, and offsets stay below 2^63.
- ResponseFraming.ComputedLength: for fields without NUL, colon in the name, line ends or outer blanks, of at most 251 bytes, and none of which frames the message itself.
- PathAndQuery.RightExactly: for paths in which no escape stands for '?', which takes a control byte for a digit; RightByChance shows that with one the condition is not necessary.
- OlderUrl.TakenExactly: for the same paths as PathAndQuery.RightExactly.
- GluedUrl.CountedOutput: behind a last ".." with one directory too few, whether those made are the meant ones is left as a comparison, because equal names can stand in for each other.
- ResponseFraming.ErrorPageArrives: a message that does not fit its format buffer, because the count then runs beyond the buffer.
- LineReader.File.ReadLine: read errors are not modelled; there the `continue` goes to the loop condition, so an interrupted read can end a line early.
- Takina.Options.Parse: options registered under different names have different variables; strtol and strtod are parameters; the argument count does not overflow.
