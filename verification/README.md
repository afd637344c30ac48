# AhriMQ: a verified model of its HTTP core

AhriMQ is a C++ HTTP server. This project models the parts of it that are deterministic and live
in memory, and proves what they promise, in Dafny 4.11:

- **The route tree** (`RouteSegments`, `RouteTree`, `RouteSearch`, `RouteHistory`, `RouteTheorems`,
  `RouteExamples`, `RouteNode`). Patterns consist of static segments, `{x}` and `p{x}`. Insertion is
  a case analysis of conflict rules, search is greedy and never goes back. `RouteNode.dfy` keeps the
  nodes linked and updated in place, as the program does, and proves every method against the tree as
  a value in `RouteTree.dfy`; the theorems are about every run of registrations and every request.
- **The request parser** (`HttpParser`, `ParserTheorems`, `RequestRender`, `HttpHeader`, `HttpConn`,
  `HttpSession`, `HttpServer`).
  A state machine that is called once per network read and resumes where it stopped. `HttpConn.dfy`
  has the parser methods on a connection with its buffers and its request; they are proved against
  the functions in `HttpParser.dfy`. The theorems say that the cut of the bytes into reads does not
  matter, that a rendered request comes back with exactly its parts from any pieces, and that
  request after request on one connection is handled so, with nothing left over, up to the first
  that does not ask for the connection to be kept. `HttpServer.dfy` has what the server does at a
  read and when the response is sent, proved against the sessions in `HttpSession.dfy`. The message
  format is that of RFC 9112 (section 2.2 for leading empty lines, section 3 for the request line,
  section 5 for fields, section 6.3 for the body length), as far as the code follows it.
- **The containers** (`Buffer`, `CircularQueue`, `InstancePool`). A growing byte buffer with a reader
  and a writer index, a fixed-size ring, and an object pool that hands out slots of blocks.
- **The codecs** (`Url`, `UrlUnits`, `Cookie`, `CookieReader`, with `Multimap`, `Numbers` and
  `Strings` below them). Percent encoding, query and form strings, cookie strings. `UrlUnits` and
  `CookieReader` say what the codecs accept and write in terms of literal alphabets and attribute
  names of their own.

A C++ `char` is a Dafny `char`; where a byte value matters (percent encoding) it is one below 256.
An exception is a failure result, an output parameter is a result, a null callback is `Null`.
`hide` statements in proofs only keep definitions from the solver that a proof does not need.

## Where the code and its comments or a reader's expectation differ

The model follows the code in each case.

- A field line without a colon is commented as a bad request, but the assignment at
  ahrimq/net/http/http_parser.cc:108 is a comparison. The line is dropped, and the two bytes behind
  it decide: an empty line ends the header and the request is accepted, anything else makes it
  invalid, and with fewer than two bytes the call waits (`ParserTheorems.ColonlessLineIsDropped`,
  with an input for each in `ParserTheorems.ColonlessExamples`). `ParserTheorems.HeaderInvalidIff`
  says for every buffer when reading the header ends in 604.
- The codes 400, 501 and 505 of the single steps are overwritten by the next turn of the loop: a call
  returns 600, 602 or 604 only (`ParserTheorems.DatagramSafe`), and a `Content-Length` that is no
  number ends in 600 (`ParserTheorems.UnreadableLengthIsDone`, for the bytes
  `Content-Length: x` and two line ends in `RequestRender.UnreadableLengthExample`).
- Greedy search misses a registered route that matches when an earlier sibling wildcard overlaps.
  `RouteExamples.OverlappingWildcardsShadow` gives a request; `RouteTheorems.RoutingIsExact` says
  exactly when it cannot happen. The rule that would refuse such siblings never fires
  (`RouteSegments.PrefixWildcardsAlwaysPass`).
- Whether a static segment and a wildcard whose prefix it is are accepted together depends on their
  order: `user_` after `user_{x}` is, `user_{x}` after `user_` is not (`RouteExamples.OrderExample`).
  These are the only pairs for which the order matters (`RouteSegments.OrderMattersIff`).
- `StringWithQuery` returns the URL without its query, but only when some pair is known; a query in
  which no piece holds a `=` stays in the string, as in `/a?b` (`Urls.PathOfURL`, `Urls.PathExamples`).
- A connection is kept only when the first `Connection` value of the request is exactly
  `keep-alive` (ahrimq/net/http/http_server.cc:200-236), although connections persist by default in
  HTTP/1.1 and the option is case-insensitive there. Of two requests `GET / HTTP/1.1` without header
  fields only the first is handled (`HttpSessions.SecondPlainRequestIsLost`), and `Keep-Alive` does
  not help (`HttpSessions.OptionIsCaseSensitive`). `HttpSessions.AllServedIff` says exactly when
  all requests of a connection are handled.
- An error response adds `close` behind the `Connection` value that answers the request, and only
  the first value counts: a `POST` without a content type that asks for `keep-alive` is answered
  with status 500 and both values, and the connection stays open
  (`HttpSessions.UntypedFormIsAnError`).
- An invalid request is answered with status 400, and the connection is closed once that is sent
  (`HttpSessions.InvalidSession`). The parser would stay invalid (`ParserTheorems.InvalidIsFinal`),
  but no later read meets it (`HttpSessions.SessionSafe`).
- A registration that fails can leave nodes behind that make a later one fail
  (`RouteExamples.FailureLingersExample`); `RouteTheorems.FailureUnchangedIff` says exactly when it
  leaves the tree alone.
- `StrTrimLeft` of a non-empty, all-blank string is undefined in C++ (ahrimq/base/str_utils.cc:55-61);
  the model gives it the meaning of the empty string. The copies in `Buffer` use `memcpy` on ranges
  that may overlap (ahrimq/buffer/buffer.cc:86); the model copies forward, byte by byte.
- `URL::Escape` encodes letters outside a-f and A-F, which section 2.3 of RFC 3986 does not ask for.

## Model

| member | source | states |
|---|---|---|
| Strings.StrSplit | ahrimq/base/str_utils.cc:24-36 | the `getline` loop yields the non-empty pieces between delimiters, in order |
| Strings.SplitConcat | ahrimq/base/str_utils.cc:24-36 | splitting distributes over a delimiter, for all strings on both sides |
| Strings.StrEqual | ahrimq/base/str_utils.cc:71-85 | true exactly when both strings have the first `end` characters, they agree, and `end` is not 0 |
| Strings.TrimLeftUnique | ahrimq/base/str_utils.cc:55-61 | cutting blanks up to the first non-blank, or all there are, is the only result of trimming |
| Strings.TrimLeftExtend | ahrimq/buffer/buffer.cc:238-251 | what is trimmed off the front does not depend on bytes that arrive later |
| Strings.FindSubIsFirst | ahrimq/buffer/buffer.cc:143-157 | the delimiter search finds an occurrence, and none lies before it |
| Strings.FindSubExtend | ahrimq/buffer/buffer.cc:143-157 | a delimiter that was found stays where it is when bytes are appended |
| Strings.CutAtFirst | ahrimq/buffer/buffer.cc:143-157 | cutting at the first delimiter loses nothing, and the part before holds no delimiter |
| Strings.SameWordIff | ahrimq/base/str_utils.cc:43-46 | two strings have the same lower-case form if and only if they agree but for same-numbered letters of the two alphabets |
| Strings.BlankSet | ahrimq/base/str_utils.cc:59 | the blanks are space, tab, carriage return and line feed |
| Strings.CStrExact | ahrimq/net/http/http_parser.cc:96 | a C string function sees what stands in front of the first NUL |
| Numbers.DecimalRead | ahrimq/base/str_utils.cc:127-137 | `CanConvertToUInt64` reads decimal text back exactly when the number fits into 64 bits |
| Numbers.NumberRead | ahrimq/base/str_utils.cc:127-137 | white space, a sign, digits and anything that is no digit behind them are read as the number of the digits, its 64-bit complement behind a minus, and refused when it does not fit |
| Numbers.NumberFound | ahrimq/base/str_utils.cc:127-137 | nothing else is read as a number |
| Buffers.CopyForward | ahrimq/buffer/buffer.cc:84-91 | a forward copy, also between overlapping ranges of one block, delivers the old source bytes and touches nothing else |
| Buffers.Buffer.constructor | ahrimq/buffer/buffer.cc:8-11 | an empty buffer of the given capacity |
| Buffers.Buffer.Put | ahrimq/buffer/buffer.cc:34-40 | bytes copied to the writer index become the last readable ones |
| Buffers.Buffer.Append | ahrimq/buffer/buffer.cc:30-40 | the readable bytes gain exactly the value at the end, in any layout |
| Buffers.Buffer.AppendBuffer | ahrimq/buffer/buffer.cc:23-28 | the same for the bytes of another buffer, and of the buffer itself, whose content doubles |
| Buffers.Buffer.EnsureBytesForWrite | ahrimq/buffer/buffer.cc:58-82 | readable bytes unchanged, at least `n` writable bytes, and exactly when they stay in place, move to the head, or move to a new block of twice `n` more than the writer index |
| Buffers.Buffer.MoveReadableToHead | ahrimq/buffer/buffer.cc:84-91 | compaction keeps the readable bytes and the capacity and frees everything behind them |
| Buffers.Buffer.Reset | ahrimq/buffer/buffer.cc:42-45 | empties the buffer and keeps its block |
| Buffers.Buffer.ReaderIdxForward | ahrimq/buffer/buffer.cc:93-96 | drops at most `len` bytes from the front |
| Buffers.Buffer.ReaderIdxBackward | ahrimq/buffer/buffer.cc:98-101 | brings back `len` bytes in front of the reader index, or all there are |
| Buffers.Buffer.WriterIdxForward | ahrimq/buffer/buffer.cc:103-106 | makes `len` bytes of the free room readable, or all there is |
| Buffers.Buffer.WriterIdxBackward | ahrimq/buffer/buffer.cc:108-111 | drops at most `len` bytes from the end |
| Buffers.Buffer.ReadableCharacterAt | ahrimq/buffer/buffer.cc:198-202 | the character at the index, the last readable one when the index is too large; when nothing is readable, the byte the block holds there |
| Buffers.Buffer.ReadStringAndForwardTill | ahrimq/buffer/buffer.cc:143-157 | splits the readable bytes at the first delimiter, or changes nothing when there is none; the empty delimiter is found in every non-empty buffer, and nothing is read |
| Buffers.Buffer.ReadAll | ahrimq/buffer/buffer.cc:159-181 | returns all readable bytes and leaves none |
| Buffers.Buffer.TrimLeft | ahrimq/buffer/buffer.cc:238-251 | drops exactly the leading blanks |
| Buffers.Buffer.TrimRight | ahrimq/buffer/buffer.cc:253-266 | drops exactly the trailing blanks |
| Buffers.ReadOnce | ahrimq/net/utils.cc:69-78 | making room, a system call that fills it, and moving the writer index leave the buffer with exactly the bytes read behind its own |
| Buffers.ReadToBuffer | ahrimq/net/utils.cc:62-95 | over all successful reads the buffer gains exactly their bytes, and their number is returned |
| Buffers.CapacityBound | ahrimq/buffer/buffer.cc:58-82 | over every run of operations the capacity never shrinks and stays within the initial capacity or three times the peak of readable plus requested bytes |
| Buffers.NoGrowthBelowCapacity | ahrimq/buffer/buffer.cc:58-82 | a run whose demand never exceeds the capacity never takes a new block |
| CircularQueues.WrapIsModulo | ahrimq/pool/circular_queue.hpp:49-82 | the indices step modulo the block size, and the element count is their distance modulo the block size |
| CircularQueues.StepRefines | ahrimq/pool/circular_queue.hpp:74-122 | one push or pop on the raw fields is one step of a bounded first-in first-out queue, with the same outcome |
| CircularQueues.RingRefinesQueue | ahrimq/pool/circular_queue.hpp:49-122 | the same over every sequence of operations, wrap-around included |
| CircularQueues.CopyElements | ahrimq/pool/circular_queue.hpp:152-166 | the copy loop lays the elements of a ring out from index 0 of another block |
| CircularQueues.CircularQueue.constructor | ahrimq/pool/circular_queue.hpp:203-207 | an empty queue of the given capacity |
| CircularQueues.CircularQueue.FullAndEmpty | ahrimq/pool/circular_queue.hpp:49-57 | the index tests hold exactly when no element is there, and when as many are there as fit |
| CircularQueues.CircularQueue.Push | ahrimq/pool/circular_queue.hpp:74-95 | appends at the end, or refuses exactly when the queue is full and changes nothing |
| CircularQueues.CircularQueue.Pop | ahrimq/pool/circular_queue.hpp:110-122 | removes the first element, or refuses exactly when there is none |
| CircularQueues.CircularQueue.Front | ahrimq/pool/circular_queue.hpp:126-131 | the first element, or a refusal exactly when there is none |
| CircularQueues.CircularQueue.IterateAssignFrom | ahrimq/pool/circular_queue.hpp:152-166 | the contents become those of the other queue, starting at index 0 |
| CircularQueues.CircularQueue.DeepCopy | ahrimq/pool/circular_queue.hpp:168-174 | an own block of the other's capacity with equal contents |
| CircularQueues.CircularQueue.Copy | ahrimq/pool/circular_queue.hpp:214-217 | the copy has equal contents and capacity |
| CircularQueues.CircularQueue.Assign | ahrimq/pool/circular_queue.hpp:219-236 | equal contents and the larger of both capacities, in the reuse and in the reallocate branch, and for self-assignment |
| CircularQueues.CircularQueue.Destroy | ahrimq/pool/circular_queue.hpp:182-191 | pops every element, so none is left, and gives the block up |
| CircularQueues.CircularQueue.Move | ahrimq/pool/circular_queue.hpp:238-252 | takes contents and block over; the other queue is left both empty and full |
| InstancePools.InitialInv | ahrimq/pool/instance_pool.hpp:79-87 | a new pool has every slot free once and none live |
| InstancePools.ConstructInv | ahrimq/pool/instance_pool.hpp:37-70 | handing a slot out, after growing if none is free, keeps conservation and the capacity bound, and the slot was not live |
| InstancePools.ReleaseInv | ahrimq/pool/instance_pool.hpp:89-100 | giving a live slot back keeps both, and the ring has room for it |
| InstancePools.RunKeeps | ahrimq/pool/instance_pool.hpp:37-100 | both hold after every interleaving of constructions and releases, and the recorded peak is the real one |
| InstancePools.EveryRun | ahrimq/pool/instance_pool.hpp:37-100 | from a new pool on: each slot of each block is free once or live once, never both; free plus live is the capacity; the capacity is the start size times a power of two, and the start size or less than twice the peak of live objects |
| InstancePools.DoublingIsPower | ahrimq/pool/instance_pool.hpp:51-70 | doubling as often as there are blocks is multiplying by a power of two |
| InstancePools.Fill | ahrimq/pool/instance_pool.hpp:59-61 | the ring gets the slots of a block in address order |
| InstancePools.Drain | ahrimq/pool/instance_pool.hpp:63-66 | every element moves to the new ring, in order, behind what is there, and the old ring ends empty |
| InstancePools.InstancePool.constructor | ahrimq/pool/instance_pool.hpp:79-87 | builds the initial state for the start size |
| InstancePools.InstancePool.Construct | ahrimq/pool/instance_pool.hpp:37-47 | refines handing out; it fails only in a pool of start size 0; the slot was nobody's |
| InstancePools.InstancePool.Grow | ahrimq/pool/instance_pool.hpp:51-70 | adds a block as large as all earlier ones, its slots in front of the free ones |
| InstancePools.InstancePool.Release | ahrimq/pool/instance_pool.hpp:89-100 | refines giving back, without meeting a full ring; a null pointer is ignored |
| Multimaps.AddedAllGroups | ahrimq/net/http/url.cc:8-10 | adding pairs one by one groups them by key and keeps their order within each key |
| Urls.ToHex | ahrimq/base/str_utils.cc:163-168 | two hexadecimal digits with the value of the byte |
| Urls.Escape | ahrimq/net/http/url.cc:146-160 | the loop computes the percent-encoded form |
| Urls.HexPair | ahrimq/net/http/url.cc:170-185 | the value of two hexadecimal digits, failing exactly when one of them is none |
| Urls.UnEscape | ahrimq/net/http/url.cc:162-232 | the loop decodes up to the end or up to the first unit that does not decode, and tells which |
| UrlUnits.DecodingExact | ahrimq/net/http/url.cc:162-232 | every string splits into units (a letter, digit or mark, `+`, or `%` and two hexadecimal digits of either case) and a rest no unit stands in front of; decoding writes what the units mean, and succeeds exactly when there is no rest |
| UrlUnits.UnitsDecode | ahrimq/net/http/url.cc:162-232 | units in front of a string are decoded one by one to their characters, and then the string |
| UrlUnits.DecodesIff | ahrimq/net/http/url.cc:162-232 | decoding succeeds if and only if the string consists of units |
| UrlUnits.DecodingExample | ahrimq/net/http/url.cc:162-232 | a letter behind `f`, a `+` and a lower-case pair decode; a percent sign on its own does not |
| UrlUnits.EncodingExact | ahrimq/net/http/url.cc:141-160 | digits, the letters a-f and A-F and four marks stay as they are; every other byte becomes `%` and two upper-case digits |
| UrlUnits.EncodingConcat | ahrimq/net/http/url.cc:146-160 | a string is encoded byte by byte |
| Urls.UnescapeInvertsEscape | ahrimq/net/http/url.cc:146-232 | decoding the encoded form succeeds and gives the string back, for every byte string |
| Urls.EscapedLength | ahrimq/net/http/url.cc:146-160 | the encoded form is at least as long and at most three times as long, and as long only when nothing is encoded |
| Urls.EscapedAlphabet | ahrimq/net/http/url.cc:141-160 | the encoded form holds unreserved characters and percent signs only, so no delimiter |
| Urls.Query.Add | ahrimq/net/http/url.cc:8-10 | the key gains the value behind those it has; every other key keeps its values |
| Urls.Query.Set | ahrimq/net/http/url.cc:12-19 | the key has this value only; every other key keeps its values |
| Urls.Query.ParseString | ahrimq/net/http/url.cc:58-95 | adds the decoded pairs of a body, or of what follows the first `?`, to those that are there |
| Urls.Query.AddPieces | ahrimq/net/http/url.cc:82-94 | splits each piece at its first `=` and adds the decoded halves in order |
| Urls.URL.Set | ahrimq/net/http/url.h:80-83 | takes the string and adds its query pairs to the earlier ones |
| Urls.ParseInvertsForm | ahrimq/net/http/url.cc:58-95 | for every list of pairs of byte strings, escaping, joining with `=` and `&` and parsing adds exactly the pairs in order, as a body and behind a `?` |
| UrlUnits.PieceExact | ahrimq/net/http/url.cc:82-94 | a piece adds what decodes of the part before its first `=` as the key and what decodes of the part behind it as the value, each up to where it gets stuck |
| UrlUnits.QueryExample | ahrimq/net/http/url.cc:58-95 | two pairs, as a body and behind a path |
| Urls.PathOfURL | ahrimq/net/http/url.cc:116-134 | for every URL, set over any earlier pairs: `StringWithQuery` drops what follows the first `?` if and only if there is a `?`, and a pair was known before or some `&`-piece behind it holds a `=` |
| Urls.PathOfForm | ahrimq/net/http/url.cc:116-134 | in particular it gives the path back when the query is a rendered form with at least one pair |
| Urls.PathExamples | ahrimq/net/http/url.cc:116-134 | `/a?b` keeps its query and `/a?b=c` loses it |
| Cookies.ReadPair | ahrimq/net/http/cookie.cc:16-33 | one turn of the loop takes the next name and value and moves behind the separator |
| Cookies.ParseCookieString | ahrimq/net/http/cookie.cc:8-35 | appends one cookie per pair and returns their number |
| Cookies.PairsReadable | ahrimq/net/http/cookie.cc:8-35 | names that are read are non-empty and hold no `=`, values hold no separator |
| Cookies.CookieRoundTrip | ahrimq/net/http/cookie.cc:8-35 | reading joined pairs back gives exactly the pairs if and only if names are non-empty and `=`-free and values are free of the separator |
| Cookies.Serialize | ahrimq/net/http/cookie.cc:43-100 | appends the pair and the set attributes, separated, without the last separator; nothing for a cookie without a name |
| Cookies.SerializeToBuffer | ahrimq/net/http/cookie.cc:102-159 | appends the same bytes as the string form, for every combination of attributes |
| Cookies.LastSeparator | ahrimq/net/http/cookie.cc:96-99 | the text written always ends with the separator, so exactly one is taken back |
| Cookies.SerializedReadsBack | ahrimq/net/http/cookie.cc:8-100 | the first pair read from a serialized cookie is its name and value, whatever its attributes |
| CookieReaders.SerializedText | ahrimq/net/http/cookie.cc:43-100 | the text of every cookie, attribute by attribute, spelled out |
| CookieReaders.CookieReadsBack | ahrimq/net/http/cookie.cc:43-100 | a reader with its own names of the attributes gets the whole cookie back if and only if no text holds the separator and the name holds no `=` |
| CookieReaders.FullCookieExample | ahrimq/net/http/cookie.cc:43-100 | a cookie with all attributes, piece by piece |
| CookieReaders.PolicyExample | ahrimq/net/http/cookie.cc:84-95 | a cookie with the policy Lax |
| RouteSegments.LongestCommonPrefix | ahrimq/net/http/http_router.cc:15-22 | the index of the last common character, -1 when there is none |
| RouteSegments.WildcardMade | ahrimq/net/http/http_router.cc:67-92 | `p{name}` with `{`-free `p` and non-empty, `}`-free name is accepted with its position and name |
| RouteSegments.WildcardRead | ahrimq/net/http/http_router.cc:67-92 | nothing else is accepted |
| RouteSegments.JudgeExact | ahrimq/net/http/http_router.cc:216-279 | exactly what the nested conflict tests come to: a child is reused for its own segment only, and lets another pass exactly when both can live side by side and the child is not just the prefix of the new wildcard |
| RouteSegments.PrefixWildcardsAlwaysPass | ahrimq/net/http/http_router.cc:261-275 | two different prefix wildcards are never in conflict |
| RouteSegments.OrderMattersIff | ahrimq/net/http/http_router.cc:216-279 | two segments are accepted in one order but not in the other if and only if one is static and just the prefix of the other |
| RouteSegments.MatchedTwice | ahrimq/net/http/http_router.cc:312-345 | a request segment that two siblings match is matched by two overlapping prefix wildcards |
| RouteTree.InsertKeepsInv | ahrimq/net/http/http_router.cc:195-288 | every insertion, successful or not, keeps the sibling rules, the labels, and that patterns split into their path |
| RouteTree.RunKeepsInv | ahrimq/net/http/http_router.cc:155-171 | so does every run of registrations |
| RouteSearch.EntersIffMatches | ahrimq/net/http/http_router.cc:312-345 | the test search makes at a child is the declarative match, and the parameter bound is the part behind the prefix |
| RouteSearch.SearchSound | ahrimq/net/http/http_router.cc:290-350 | with no hypothesis on the routes, the node found lies at a path that matches the request segment by segment |
| RouteSearch.NoShadowExact | ahrimq/net/http/http_router.cc:290-350 | without shadowed routes, search takes the path of every registered pattern that matches, which is therefore unique |
| RouteSearch.ShadowBreaks | ahrimq/net/http/http_router.cc:290-350 | every tree with a shadowed route has a request that the route matches and search does not lead to it |
| RouteSearch.ExactIffNoShadow | ahrimq/net/http/http_router.cc:290-350 | greedy search without backtracking is exact if and only if no route is shadowed |
| RouteHistory.InsertEntry | ahrimq/net/http/http_router.cc:195-288 | insertion refines a map from paths to pattern and handler: success adds one entry where there was none, failure adds none |
| RouteHistory.ChooseExact | ahrimq/net/http/http_router.cc:216-287 | the loop over the children always finds the child with the segment, and otherwise creates one exactly when the segment goes with all children |
| RouteHistory.InsertSucceedsIff | ahrimq/net/http/http_router.cc:195-288 | an insertion succeeds if and only if the path is free and the first new segment goes with its siblings, the rest being well-formed |
| RouteHistory.RunRegisters | ahrimq/net/http/http_router.cc:155-171 | what is registered after a run is what was before and what the run accepted, with the handlers given |
| RouteHistory.ServesSound | ahrimq/net/http/http_router.cc:173-193 | what a URL resolves to is registered and matches it |
| RouteTheorems.RoutingIsExact | ahrimq/net/http/http_router.cc:155-350 | over every run: requests resolve to exactly the accepted patterns that match them, for all requests, if and only if no accepted route is shadowed |
| RouteTheorems.PrefixFreeIsEnough | ahrimq/net/http/http_router.cc:261-275 | no route is shadowed when sibling prefix wildcards are prefix-free |
| RouteTheorems.PrefixFreeRoutingIsExact | ahrimq/net/http/http_router.cc:155-350 | over every run that leaves sibling prefix wildcards prefix-free, requests resolve to exactly the accepted patterns that match them |
| RouteTheorems.PrefixFreeMatchIsUnique | ahrimq/net/http/http_router.cc:155-350 | and a request matches one accepted route at most |
| RouteTheorems.SiblingRules | ahrimq/net/http/http_router.cc:209-287 | at every node of every reachable tree: `{x}` has no sibling, siblings differ, labels fit, and no request segment is matched by a static child and another one |
| RouteTheorems.PatternIsPath | ahrimq/net/http/http_router.cc:195-207 | the pattern of a node splits into the segments on its path |
| RouteTheorems.RegistrationSucceedsIff | ahrimq/net/http/http_router.cc:155-171 | in every reachable tree, registering a URL succeeds if and only if its path is free and its first new segment goes with its siblings, the rest being well-formed |
| RouteTheorems.InsertExtends | ahrimq/net/http/http_router.cc:195-288 | insertion only appends children and sets patterns that were empty |
| RouteTheorems.SearchStable | ahrimq/net/http/http_router.cc:290-350 | what is found in a tree is found in every extension, with the same parameters |
| RouteTheorems.ResolutionIsStable | ahrimq/net/http/http_router.cc:155-193 | once a request resolves to a non-null handler, every later sequence of registrations leaves handler, pattern and parameters as they are |
| RouteTheorems.StaticRoutesAreReachable | ahrimq/net/http/http_router.cc:155-193 | an accepted wildcard-free URL resolves to its callback and binds nothing, then and after every later sequence of registrations |
| RouteTheorems.SearchBinds | ahrimq/net/http/http_router.cc:318-343 | search binds the wildcards of the path in order over what the parameters held before |
| RouteTheorems.OthersUntouched | ahrimq/net/http/http_router.cc:119-121 | names that are not on the path keep their value |
| RouteTheorems.ParametersInvertPattern | ahrimq/net/http/http_router.cc:318-343 | substituting the parameters into the pattern gives the request back if and only if wildcards of the same name stood for the same text |
| RouteTheorems.CallbackParameters | ahrimq/net/http/http_router.cc:186-193 | in every reachable tree, a request that resolves to a route is handled by its handler, with the text of each wildcard bound to its name over what the parameters held before |
| RouteTheorems.CallbackIsRegistered | ahrimq/net/http/http_router.cc:186-193 | a handler that is found is that of an accepted route that matches the request |
| RouteTheorems.MatchingRouteHandles | ahrimq/net/http/http_router.cc:186-193 | without shadowed routes, every accepted route that matches a request handles it, with its own parameters |
| RouteTheorems.FailureIsInvisible | ahrimq/net/http/http_router.cc:195-288 | a failed registration changes the handler of no request |
| RouteTheorems.CreatedMeansAccepted | ahrimq/net/http/http_router.cc:281-287 | once a node is created for a URL of well-formed segments, its insertion cannot fail |
| RouteTheorems.FailureUnchangedIff | ahrimq/net/http/http_router.cc:195-288 | in every reachable tree: a failed registration leaves the whole tree unchanged if and only if its path could not grow there; one fails and yet leaves nodes behind if and only if the path could grow and some segment is malformed |
| RouteTheorems.UnchangedUnlessCreated | ahrimq/net/http/http_router.cc:195-288 | in any tree, a failed insertion leaves it as it was if and only if it created no node on its way |
| RouteTheorems.WellFormedFailureChangesNothing | ahrimq/net/http/http_router.cc:195-288 | in particular when all segments pass the wildcard check |
| RouteExamples.OverlappingWildcardsShadow | ahrimq/net/http/http_router.cc:261-275 | two accepted routes and a request that matches the second and resolves to nothing |
| RouteExamples.FailureLingersExample | ahrimq/net/http/http_router.cc:211-215 | a failed registration after which another one fails that is accepted without it |
| RouteExamples.SecondAcceptedIff | ahrimq/net/http/http_router.cc:195-288 | behind a route of one segment, another one is accepted if and only if its segment passes the first |
| RouteExamples.OrderExample | ahrimq/net/http/http_router.cc:216-279 | `user_` is accepted behind `user_{x}`, and `user_{x}` refused behind `user_` |
| RouteExamples.OneWildcardRoute | ahrimq/net/http/http_router.cc:186-193 | a route of a static segment and a wildcard, called with any request that matches it, binds exactly the wildcard |
| RouteExamples.ParameterExample | ahrimq/net/http/http_router.cc:186-193 | `/user/{id}` called with `/user/7` gets `id` as `7` |
| RouteNodes.RouteNode.Judge | ahrimq/net/http/http_router.cc:216-279 | the nested conflict tests of one child, with their early returns, come to the verdict on segments |
| RouteNodes.RouteNode.ChooseChild | ahrimq/net/http/http_router.cc:216-279 | the loop over the children stops at the first that does not let the segment pass |
| RouteNodes.RouteNode.Insert | ahrimq/net/http/http_router.cc:195-288 | the linked nodes represent the inserted tree afterwards, in place, with nothing shared |
| RouteNodes.RouteNode.InsertRoute | ahrimq/net/http/http_router.cc:155-171 | registration of a URL, with the special case `/` |
| RouteNodes.RouteNode.Enter | ahrimq/net/http/http_router.cc:312-345 | the test at one child, and the parameter set when it is entered |
| RouteNodes.RouteNode.PickChild | ahrimq/net/http/http_router.cc:312-345 | the first child that is entered |
| RouteNodes.RouteNode.Search | ahrimq/net/http/http_router.cc:290-350 | greedy search on the linked nodes; it always returns when no segment is left, so no segment behind the last is read |
| RouteNodes.RouteNode.SearchRoute | ahrimq/net/http/http_router.cc:173-184 | the node a URL resolves to, and the parameters |
| RouteNodes.RouteNode.SearchHandler | ahrimq/net/http/http_router.cc:186-193 | its handler, null when there is no node |
| RouteNodes.Params.Set | ahrimq/net/http/http_router.cc:119-121 | the key reads as the value, every other key as before |
| HttpHeaders.HTTPHeader.Add | ahrimq/net/http/http_header.cc:14-16 | every name that differs in case only (letter by letter of the two alphabets) gains the value behind those it has; every other name keeps its values |
| HttpHeaders.HTTPHeader.Set | ahrimq/net/http/http_header.cc:41-48 | every name that differs in case only has this value only; every other name keeps its values |
| HttpHeaders.HTTPHeader.Del | ahrimq/net/http/http_header.cc:18-20 | no name that differs in case only is there any more; every other name keeps its values |
| HttpHeaders.HTTPHeader.Get | ahrimq/net/http/http_header.cc:22-31 | the first value, the empty string when there is none |
| HttpParser.MethodOf | ahrimq/net/http/http_method.h:45-50 | exactly the nine method names are supported |
| HttpParser.MethodTable | ahrimq/net/http/http_method.h:45-50 | the nine names and their methods |
| HttpParser.TurnDescends | ahrimq/net/http/http_parser.cc:191-235 | every turn but the last leads to a state of lower rank, and a pending turn stays where it is |
| ParserTheorems.DatagramSafe | ahrimq/net/http/http_parser.cc:184-237 | at most five turns, return codes 600, 602 and 604 only, never at rest in Done; what is left on Pending is too little for its state |
| ParserTheorems.InvalidIsFinal | ahrimq/net/http/http_parser.cc:212-221 | an invalid connection stays invalid over all later calls |
| ParserTheorems.FieldLinesExtend | ahrimq/net/http/http_parser.cc:81-127 | reading field lines goes on where it stopped, and what it took does not depend on later bytes |
| ParserTheorems.TurnExtends | ahrimq/net/http/http_parser.cc:191-235 | a turn that completes leaves later bytes alone |
| ParserTheorems.TurnResumes | ahrimq/net/http/http_parser.cc:34-181 | a pending turn can be repeated with more bytes as if it had not been taken |
| ParserTheorems.DatagramResumes | ahrimq/net/http/http_parser.cc:184-237 | so can a pending call |
| ParserTheorems.ChunkingDoesNotMatter | ahrimq/net/http/http_parser.cc:184-237 | however a byte stream is cut, if every call but the last returns Pending, the last ends in the same code, state, buffers and request as one call on all bytes |
| ParserTheorems.DatagramExtends | ahrimq/net/http/http_parser.cc:184-237 | bytes behind a request that is done stay in the buffer |
| ParserTheorems.RequestLineAcceptedIff | ahrimq/net/http/http_parser.cc:34-79 | a request line leads on if and only if it has three words with a supported method first and a supported version last; else the call ends in Invalid |
| ParserTheorems.RequestLineStores | ahrimq/net/http/http_parser.cc:44-79 | of a good request line the request has the three words; of one with a supported method but another version the first two; of any other none; and the code of the step is 601, 505, 501 or 400 |
| ParserTheorems.ColonlessLineIsDropped | ahrimq/net/http/http_parser.cc:106-156 | behind any field lines, a line without a colon is dropped; then an empty line ends the header, any other two bytes end the call in Invalid, and with fewer it returns Pending |
| ParserTheorems.HeaderInvalidIff | ahrimq/net/http/http_parser.cc:81-156 | for every buffer: a call in the state RequestHeader ends in Invalid if and only if field lines are followed by a line without a colon that two bytes other than a line end stand behind |
| ParserTheorems.ColonlessExamples | ahrimq/net/http/http_parser.cc:106-156 | one input for each of the three outcomes |
| ParserTheorems.UnreadableLengthIsDone | ahrimq/net/http/http_parser.cc:168-173 | a `Content-Length` that is no number ends the request as done |
| RequestRender.FieldRead | ahrimq/net/http/http_parser.cc:88-104 | a rendered field line adds exactly its key and value, or its cookies |
| RequestRender.FieldExact | ahrimq/net/http/http_parser.cc:88-104 | any field line adds its cookies if the name is `cookie` in any spelling, and its value under its name otherwise |
| RequestRender.FieldsRead | ahrimq/net/http/http_parser.cc:81-127 | rendered fields are all read, in order, and the rest is left in the buffer |
| RequestRender.ParseInvertsRender | ahrimq/net/http/http_parser.cc:34-237 | for every supported method and version, space-free URL, list of well-formed fields and body of the announced length, parsing the rendered bytes returns Done with exactly those parts and the body in the buffer |
| RequestRender.ParsedFields | ahrimq/net/http/http_header.cc:14-16 | the values of each key are those rendered for it, in order |
| RequestRender.AnnouncedLength | ahrimq/net/http/http_parser.cc:158-181 | the decimal text of the body length, or no length and no body, is what the parser needs |
| RequestRender.DoneHasBody | ahrimq/net/http/http_parser.cc:158-181 | a call that returns Done has at least the announced number of bytes in the buffer |
| RequestRender.ProperPartPends | ahrimq/net/http/http_parser.cc:184-237 | no proper part of a rendered request is taken for a whole or an invalid one |
| RequestRender.RequestInAnyPieces | ahrimq/net/http/http_parser.cc:184-237 | a rendered request may arrive in any non-empty pieces: all calls but the last return Pending, the last returns Done with exactly its parts |
| RequestRender.UnreadableLengthExample | ahrimq/net/http/http_parser.cc:81-173 | received bytes with a `Content-Length` that is no number, which end in 600 |
| HttpConns.HTTPRequest.SetMethod | ahrimq/net/http/http_request.h:37-41 | the name of the method is the one given if it is that of a method, and else as before |
| HttpConns.ParseSingleLine | ahrimq/net/http/http_parser.cc:12-32 | takes one line off the buffer, or leaves the buffer alone when no line end is there |
| HttpConns.ParseRequestLine | ahrimq/net/http/http_parser.cc:34-43 | refines the turn in the state RequestLine |
| HttpConns.TakeRequestLine | ahrimq/net/http/http_parser.cc:44-79 | checks and stores method, URL and version in this order |
| HttpConns.ParseField | ahrimq/net/http/http_parser.cc:91-105 | stores one field, or the cookies of a cookie field |
| HttpConns.ParseRequestHeader | ahrimq/net/http/http_parser.cc:81-127 | refines the turn in the state RequestHeader |
| HttpConns.ParseRequestEmptyLine | ahrimq/net/http/http_parser.cc:129-156 | refines the turn in the state RequestEmptyLine |
| HttpConns.ParseRequestBody | ahrimq/net/http/http_parser.cc:158-181 | refines the turn in the state RequestBody |
| HttpConns.ParseRequestDatagram | ahrimq/net/http/http_parser.cc:184-237 | the loop refines one call: turns until one is the last |
| HttpConns.Receive | ahrimq/net/reactor.cc:226 | a network read appends its bytes, and the parser is called on what is then in the buffer |
| HttpConns.HTTPConn.ResetRequest | ahrimq/net/http/http_request.cc:11-19 | the connection has no request and no readable bytes any more; its parsing state stays |
| HttpSessions.KeptIff | ahrimq/net/http/http_server.cc:200-236 | whatever the response is, the connection is kept if and only if a whole request was parsed and its first `Connection` value is `keep-alive` |
| HttpSessions.SessionConcat | ahrimq/net/http/http_server.cc:147-222 | a session of reads, which ends when the connection is closed, can be cut anywhere |
| HttpSessions.WaitingSession | ahrimq/net/http/http_server.cc:163-185 | reads of which all but the last leave the parser waiting have the one outcome that one call on all bytes has |
| HttpSessions.RequestAfterRequest | ahrimq/net/http/http_server.cc:147-236 | for any list of rendered requests, each in any non-empty pieces: every one up to and including the first that does not ask for `keep-alive` is handled exactly once, in order, with exactly its own parts, nothing of an earlier one among them; the others are never read; the connection is open and idle at the end if and only if all ask for it |
| HttpSessions.ReachedMeans | ahrimq/net/http/http_server.cc:200-236 | the number of requests that are read is where the first one is that does not ask to stay |
| HttpSessions.AllServedIff | ahrimq/net/http/http_server.cc:147-236 | all requests are handled if and only if all but the last ask for `keep-alive` |
| HttpSessions.SecondPlainRequestIsLost | ahrimq/net/http/http_server.cc:200-236 | of two requests `GET / HTTP/1.1` without header fields the first is handled and the connection closed |
| HttpSessions.OptionIsCaseSensitive | ahrimq/net/http/http_server.cc:232-236 | a request with one `Connection` field stays if and only if its value, up to a NUL, is `keep-alive` in lower case |
| HttpSessions.RoutedIff | ahrimq/net/http/http_server.cc:237-245 | exactly the requests that reach a route: those of a method other than POST, PUT and PATCH, and those with the content type `application/x-www-form-urlencoded` and a body of at most 2147483647 bytes |
| HttpSessions.AnswersExact | ahrimq/net/http/http_server.cc:224-309 | the status of every request (600 for the route, 413, 501 or 500) and the `Connection` values of its response |
| HttpSessions.InvalidAnswer | ahrimq/net/http/http_server.cc:170-176 | an invalid request is answered with status 400 and `Connection: close` |
| HttpSessions.FormReachesRoute | ahrimq/net/http/http_request.cc:25-38 | a rendered form that is the body of such a request reaches the route with exactly its pairs, in order within each key, and with the body taken out of the buffer |
| HttpSessions.UntypedFormIsAnError | ahrimq/net/http/http_server.cc:224-309 | without a content type the answer is status 500 and no route is reached; the connection is kept all the same if the request asks for it |
| HttpSessions.InvalidSession | ahrimq/net/http/http_server.cc:163-185 | an invalid connection is answered once, with status 400, and closed |
| HttpSessions.SessionSafe | ahrimq/net/http/http_server.cc:147-222 | whatever arrives: outcomes are Done with the announced body there or Invalid with empty buffers; all but the last are Done and kept the connection; it is closed if and only if the last did not; and no read meets a connection an earlier read left invalid |
| HttpServers.ParseForm | ahrimq/net/http/http_request.cc:25-45 | fills the form from the body, or returns the error status of the content type or the size, in place |
| HttpServers.HTTPStream.DoRequest | ahrimq/net/http/http_server.cc:224-286 | the request is handled, and the response says in its `Connection` field what the model says |
| HttpServers.HTTPStream.DoRequestError | ahrimq/net/http/http_server.cc:289-309 | adds `close` for the statuses that end the connection |
| HttpServers.HTTPStream.OnStreamWritten | ahrimq/net/http/http_server.cc:200-222 | closes, or forgets request and response, by the first `Connection` value of the response |
| HttpServers.HTTPStream.OnStreamReached | ahrimq/net/http/http_server.cc:147-222 | one read, and the write event behind it unless the parser waits, refine one step of a session |
| HttpServers.HTTPStream.ServeAll | ahrimq/net/http/http_server.cc:147-222 | any sequence of reads refines a session, which ends when the connection is closed |

## Left out

- Sockets, epoll, threads, timers, files and the server glue: system calls. The mutex of the pool makes each operation one step.
- Handlers, responses, status pages, the mime table and JSON: tables and foreign code. A handler is an identifier.
- The method table of `HTTPRouter` and its register wrappers: nine copies of one call on one tree.
- `FindParamBracket`: neither insertion nor search uses it.
- `Buffer::ReadLong`, `ReadString`, `FindCRLFInReadable`, `ToFile` and relatives: C number parsing beyond the written bytes, plain slices, I/O.
- Integer width: indices, sizes and lengths are unbounded here, except `Content-Length`, which is read with its 64 bits.
- Memory: raw allocation and its failure, destructors, `memset`. A pool slot is a block number and an index.
- The null connection of `ParseRequestDatagram` and the log output of the parser.
- Buffers.Buffer.ReadableCharacterAt: does not model an index behind the block while nothing is readable, because the program reads outside its memory then.
- HttpHeaders.HTTPHeader.Add: does not model keys with a NUL character, for which the hash and the comparison of the program disagree, nor the spelling in which a key was first seen.
- Urls.UnEscape: does not model locales other than "C" for `std::isalnum`.
- HttpConns.HTTPRequest.constructor: starts with the method and version of a reset request, because the program leaves them uninitialised until the first reset.
- Cookies.Serialize: does not model time formatting; the formatted text is a parameter.
- HttpServers.HTTPStream.OnStreamReached: does not model the callbacks of routes and of error statuses, which are taken to leave the `Connection` field of the response alone, nor the bytes of the response; it counts as sent before the next read.
- HttpSessions.RequestAfterRequest: does not model reads that hold bytes of two requests, because the program drops those behind the first.
- Bytes behind a finished request: the server clears the buffer when it resets the request, so nothing is claimed about pipelining.
