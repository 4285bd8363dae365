# An incremental HTTP/1.1 request parser, in Dafny

This project models the request parser of a small Go HTTP server. It covers
the header collection of `internal/headers/headers.go`, the request state
machine and read driver of `internal/request/request.go`, and the
`chunkReader` byte source of `internal/request/request_test.go`.

- **HttpHeaders** (`headers.dfy`) models the header collection: a map from
  lower-cased field name to value.
  - `Set` joins a repeated name as `old, new` (section 5.3 of RFC 9110).
  - `parseHeader` splits a field line at its first colon and trims both halves.
  - `isToken` checks the tchar class of section 5.6.2 of RFC 9110.
  - The re-entrant `Headers.Parse` consumes only the complete field lines of
    a buffer and reports whether it met the blank line.
  - The class `Headers` holds the map. Its `Parse` loop is proved equal to
    the recursive specification `ParseFields`.
- **HttpRequest** (`request.dfy`) models the request itself.
  - `parseRequestLine` follows section 3 of RFC 9112 and accepts only the
    version `HTTP/1.1`.
  - The states are Init, Headers, Body, Done and Error.
  - The class `Request` has the fields of the Go struct. Its `parse`
    method runs one switch case per turn of its loop.
  - `Feed` is the pure specification of `parse`. It is built from one
    function per case (`InitStep`, `HeadersStep`, `BodyStep`) and
    `Request.Parse` is proved equal to it.
- **RequestProperties** (`request_properties.dfy`) proves what the parser
  promises:
  - the request line round trip and the exact verdicts on a request line;
  - Error absorbs every later call and Done keeps its request;
  - states only move forward;
  - the body respects Content-Length;
  - re-entrancy: parsing `a + b` is parsing `a`, then parsing its unconsumed
    rest followed by `b`;
  - the result of parsing a whole serialised request.
- **RequestReader** (`reader.dfy`) models the read driver and its byte
  source.
  - The test double `chunkReader` is a class over its string.
  - `copy(buf, buf[readN:bufLen])` is `ShiftLeft` over the 1024-byte array.
  - `RequestFromReader` is proved to end exactly as one call of `parse` on
    everything the reader had, whatever the chunk size, unless the buffer
    fills with bytes parse cannot consume (more than 1024 bytes of stream).
- **BodyFinding** (`findings.dfy`) holds the body step as the Go code
  writes it, and a request that makes it panic (see Findings).

Behaviour kept as the code has it, even where a stricter parser would refuse:
- an empty field name passes `isToken`;
- field lines `Set` before a refused line in the same `Headers.Parse` call
  stay in the map;
- an empty method (`" / HTTP/1.1"`) passes the three-part check;
- `parse` returns 0 bytes consumed on an error, even after earlier progress
  in the same call.

## Model

| member | source | states |
|---|---|---|
| HttpHeaders.IsToken | internal/headers/headers.go:32-49 | isToken: every byte is a tchar (an ASCII letter, a digit or one of the fifteen symbols); the empty name passes |
| HttpHeaders.TokenBytes | internal/headers/headers.go:32-49 | every byte of a token is ASCII, is not white space and is not a colon |
| HttpHeaders.TokenOfChars | internal/headers/headers.go:32-49 | a name whose every byte is an ASCII letter, a digit or one of the fifteen tchar symbols is a token |
| HttpHeaders.NonAsciiIsNotToken | internal/headers/headers.go:32-49 | a name holding any byte of 128 or more is refused by isToken |
| HttpHeaders.Lookup | internal/headers/headers.go:51-54 | Get finds a value exactly when the lower-cased key is in the map, and returns the value stored under it |
| HttpHeaders.SetField | internal/headers/headers.go:56-63 | Set on the map: the value goes under the lower-cased key, or is appended to the value already there after `, ` |
| HttpHeaders.SetFieldEntries | internal/headers/headers.go:56-63 | Set adds only the lower-cased key and leaves every other entry unchanged |
| HttpHeaders.LookupAfterSet | internal/headers/headers.go:51-63 | after Set, Get on any spelling of the name gives the new value, or `old, new` when the name was present; Get on other names is unchanged |
| HttpHeaders.GetIntOf | internal/headers/headers.go:75-86 | GetInt gives the default when the key is absent or its value is not an integer, and the parsed integer otherwise |
| HttpHeaders.DefaultContentLength | internal/headers/headers.go:24-30 | GetInt("content-length") on the default headers gives back the length they were built with |
| HttpHeaders.GetDefaultHeaders | internal/headers/headers.go:24-30 | the new collection holds content-length, connection and content-type, Set in this order |
| HttpHeaders.Headers.constructor | internal/headers/headers.go:18-22 | NewHeaders gives an empty map |
| HttpHeaders.Headers.Set | internal/headers/headers.go:56-63 | the map afterwards is SetField of the map before |
| HttpHeaders.Headers.Replace | internal/headers/headers.go:65-67 | the key is stored exactly as given, without lower-casing; Get finds the value when the key is already lower-case, and otherwise Get still reads what the lower-cased key held before |
| HttpHeaders.ParseFieldLine | internal/headers/headers.go:88-101 | parseHeader: split at the first colon, refuse a line with no colon or with a space directly before the colon, and trim both halves |
| HttpHeaders.FieldLineErrors | internal/headers/headers.go:88-101 | parseHeader reports a malformed line exactly when the line has no colon, and a malformed name exactly when a space stands directly before the first colon |
| HttpHeaders.ParseFieldLineAt | internal/headers/headers.go:88-101 | a line is split at its first colon, and name and value are both trimmed |
| HttpHeaders.FieldLineRoundTrip | internal/headers/headers.go:88-101 | leading white space, a token name, a colon and a padded value (which may hold colons) are read back as that name and value |
| HttpHeaders.NextLine | internal/headers/headers.go:107-128 | one turn of Parse's loop: no CRLF is an incomplete line, a CRLF at offset 0 the blank line, and otherwise parseHeader and isToken refuse the line or give its field and length, which leaves room for its CRLF |
| HttpHeaders.NextLineAppend | internal/headers/headers.go:106-125 | a complete line gets the same verdict whatever bytes follow it |
| HttpHeaders.NextLineComplete | internal/headers/headers.go:106-125 | a line followed by CRLF is judged by parseHeader and isToken alone |
| HttpHeaders.ParseFields | internal/headers/headers.go:103-131 | Parse never reads past its input, and on an error reads 0 bytes and is not done |
| HttpHeaders.ParseFieldsNoProgress | internal/headers/headers.go:104-110 | Parse reads 0 bytes without error exactly when the input holds no CRLF; it then Sets nothing and is not done |
| HttpHeaders.ParseFieldsConsumesLines | internal/headers/headers.go:106-130 | unless Parse fails or is done, no CRLF is left in the bytes it did not read |
| HttpHeaders.ParseFieldsAppend | internal/headers/headers.go:103-131 | re-entrancy: Parse on `a + b` is Parse on `a`, and then, unless that failed or was done, Parse on the unread rest of `a` followed by `b` |
| HttpHeaders.SetAllAppend | internal/headers/headers.go:127 | Setting two runs of lines is Setting the first run, then the second |
| HttpHeaders.ParseFieldBlock | internal/headers/headers.go:103-131 | a serialised block of well-formed fields and its blank line is parsed to exactly those fields, in order, and reads the block and the blank line only (line lengths plus 2 each, plus 2) |
| HttpHeaders.ParseFieldLines | internal/headers/headers.go:103-131 | serialised well-formed field lines followed by bytes holding no CRLF are parsed to exactly those fields, in order, reading the line lengths plus 2 each and nothing of the incomplete rest, and Parse is not done |
| HttpHeaders.Headers.Parse | internal/headers/headers.go:103-131 | the loop returns what ParseFields returns, and the map afterwards is the map before with the parsed lines Set in order, also when a later line is refused |
| HttpRequest.ParseRequestLine | internal/request/request.go:18-43 | a complete request line consumes at least its CRLF and never more than the input |
| RequestProperties.RequestLineNeedsCrlf | internal/request/request.go:19-22 | "need more data" exactly when the input holds no CRLF |
| RequestProperties.VersionIsHttp11 | internal/request/request.go:32-35 | the version part is accepted exactly when it is `HTTP/1.1` |
| RequestProperties.RequestLineRoundTrip | internal/request/request.go:18-43 | method, target and HTTP/1.1 joined by single spaces and ended by CRLF parse back to that method and target with version "1.1", consuming the line and its CRLF only; the method may be empty |
| RequestProperties.RequestLineComplete | internal/request/request.go:18-43 | conversely, a line that parses is a space-free method and target then HTTP/1.1 and the first CRLF of the input, and that is all it consumes |
| RequestProperties.RequestLineVerdicts | internal/request/request.go:24-42 | once the CRLF is in: malformed exactly when the line does not hold exactly two spaces; unsupported version exactly when it does but the third part is not HTTP/1.1; complete otherwise |
| RequestProperties.RequestLineAppend | internal/request/request.go:18-43 | a request line, once complete, is not changed by the bytes that follow it |
| HttpRequest.StepOf | internal/request/request.go:78-126 | one turn of parse's switch: Error fails, Done breaks, and Init, Headers and Body take their own case; a turn that goes on consumes a positive number of bytes no larger than what is left |
| HttpRequest.InitStep | internal/request/request.go:82-93 | the Init case consumes a positive number of bytes no larger than what is left, when it goes on |
| HttpRequest.HeadersStep | internal/request/request.go:94-106 | the Headers case consumes a positive number of bytes no larger than what is left, when it goes on |
| HttpRequest.BodyStep | internal/request/request.go:107-121 | the Body case consumes a positive number of bytes no larger than what is left, when it goes on |
| HttpRequest.FeedFrom | internal/request/request.go:74-129 | parse's loop never reads past its input, and reads 0 bytes on an error |
| HttpRequest.Feed | internal/request/request.go:74-129 | parse never reports more bytes than it was given |
| HttpRequest.FeedFromTurn | internal/request/request.go:76-127 | each turn of the loop either goes on after the bytes it consumed, breaks out with the bytes read so far, or returns 0 and its error |
| HttpRequest.Request.constructor | internal/request/request.go:63-68 | newRequest is in Init with an empty collection, an empty request line and no body |
| HttpRequest.Request.InitTurn | internal/request/request.go:82-93 | the new request and outcome are exactly InitStep of the old request: set Error and fail, break on an incomplete line, or store the request line, move to Headers and go on; the rest of the loop then follows from the new state |
| HttpRequest.Request.HeadersTurn | internal/request/request.go:94-106 | the new request and outcome are exactly HeadersStep of the old request: Headers.Parse, Error on its error, break on no progress, Body once the blank line is read; the rest of the loop then follows from the new state |
| HttpRequest.Request.BodyTurn | internal/request/request.go:107-121 | the new request, body included, and outcome are exactly BodyStep of the old request: Done at once on a Content-Length of 0, and otherwise append what is available up to Content-Length; the rest of the loop then follows from the new state |
| HttpRequest.Request.Turn | internal/request/request.go:78-126 | the new request and outcome are exactly StepOf of the old request: the case of the current state runs, Error fails and Done breaks; the rest of the loop then follows from the new state |
| HttpRequest.Request.Parse | internal/request/request.go:74-129 | parse leaves the request, and returns the byte count and error, that Feed gives on the request before |
| RequestProperties.ErrorIsAbsorbing | internal/request/request.go:80-81 | in Error, parse returns 0 and an error and changes nothing |
| RequestProperties.DoneIsKept | internal/request/request.go:122-123 | in Done, parse consumes nothing, returns no error and changes nothing |
| RequestProperties.StepForward | internal/request/request.go:78-126 | one turn only moves the state forward, and a turn stops with an error exactly when it leaves Error |
| RequestProperties.FeedForward | internal/request/request.go:74-129 | parse only moves the state forward (Init, Headers, Body, Done, or to Error); it sets the request line only in Init and the headers only before the body, only appends to the body, and fails exactly when it leaves the request in Error |
| RequestProperties.FeedBodyInv | internal/request/request.go:107-121 | the body stays empty before the Body state, stays shorter than Content-Length in Body and equals it in Done |
| RequestProperties.BodyTakes | internal/request/request.go:107-121 | in Body with a positive Content-Length, parse appends and consumes exactly min(Content-Length - len(Body), len(data)) bytes, and reaches Done exactly when the body reaches Content-Length |
| RequestProperties.BodyZero | internal/request/request.go:108-112 | a Content-Length of 0 (absent or not a number included) moves to Done at once, consuming nothing and leaving the body empty |
| RequestProperties.BodyNegative | internal/request/request.go:107-121 | in the corrected model a negative Content-Length is refused with an error and moves to Error |
| RequestProperties.FeedAppend | internal/request/request.go:74-129 | re-entrancy: parse on `a + b` fails as parse on `a` fails; otherwise it is parse on `a` followed by parse on the unconsumed rest of `a` and then `b` |
| RequestProperties.FeedAgain | internal/request/request.go:74-129 | parse on what a successful parse left unconsumed consumes nothing and changes nothing |
| RequestProperties.FeedSettled | internal/request/request.go:74-129 | once parse has failed or reached Done, more input changes neither its result nor the request |
| RequestProperties.FeedWholeRequest | internal/request/request.go:74-129 | a serialised request line, field block and body is parsed to that line and those fields; the body is cut at Content-Length, Done exactly when the whole body is there; a negative length is refused |
| RequestReader.ChunkReader.constructor | internal/request/request_test.go:11-15 | the reader starts at position 0 of its data |
| RequestReader.ChunkReader.Read | internal/request/request_test.go:17-29 | io.EOF once everything is handed out; otherwise copies min(numBytesPerRead, bytes left, room in p) bytes and advances by as many, nothing else of p changing |
| RequestReader.ShiftLeft | internal/request/request.go:147 | copy moves `buf[readN:bufLen]` to the front and keeps the rest of the array |
| RequestReader.ReadAll | internal/request/request.go:131-151 | reading a whole stream ends with a Done request, or with parse's error, or with the stream ending early |
| RequestReader.TracksTurn | internal/request/request.go:137-148 | after each turn the buffer holds what parse on everything read so far left unconsumed |
| RequestReader.RefusalTurn | internal/request/request.go:143-146 | an error from parse on the buffer is parse's error on the whole stream |
| RequestReader.TracksSettles | internal/request/request.go:136-150 | a Done request, or the end of the stream, gives what ReadAll gives on the whole stream |
| RequestReader.StallTurn | internal/request/request.go:134-148 | a full buffer that parse cannot consume is a fixpoint of the loop, with at least 1024 bytes read (RequestFromReader's ensures gives the strict bound: a stall needs more than 1024 bytes of stream) |
| RequestReader.ReadWholeRequest | internal/request/request.go:131-151 | a serialised request is read as that request once Content-Length bytes of body have arrived, ends in an error when fewer have, and is refused for a negative Content-Length |
| RequestReader.RequestFromReader | internal/request/request.go:131-151 | whatever the chunk size, the request returned, or the error, is what ReadAll gives on everything the reader had; a stall is reported only on a full buffer parse cannot consume, and never on a stream of at most 1024 bytes |
| BodyFinding.BodyStepAsWritten | internal/request/request.go:107-121 | the Body case as written panics exactly when Content-Length is not 0 and min(Content-Length - len(Body), len(data)) is negative |
| BodyFinding.AsWrittenAgrees | internal/request/request.go:107-121 | for a non-negative Content-Length the Body case as written is the modelled BodyStep |
| BodyFinding.NegativeLengthCounterexample | internal/request/request.go:107-117 | `GET / HTTP/1.1` with `content-length: -1` and the blank line reaches the Body state with Content-Length -1, where the Body case as written panics and the corrected parser refuses the request |

## Left out

- internal/server/server.go, internal/response/response.go and the two programs under cmd are not part of this model: they are networking, goroutines, signals and fixed response text.
- `Headers.ForEach` is not modelled: it visits the map in Go's unspecified iteration order.
- Unicode: `strings.ToLower`, `isToken`'s rune loop and `bytes.TrimSpace` are modelled on bytes, with ASCII lower-casing and ASCII white space only. A name that keeps a non-ASCII byte after trimming is refused by isToken in both (NonAsciiIsNotToken).
- HttpHeaders.ParseFieldLine: Go's `bytes.TrimSpace` also strips non-ASCII Unicode white space such as U+00A0 and U+0085 around names and values. The model does not: it keeps those bytes, so it refuses a name padded with them (the request goes to Error) where Go Sets the trimmed name, and it keeps them in values where Go strips them.
- HttpHeaders.GetIntOf: `strconv.Atoi` is modelled as an optional sign followed by decimal digits in the 64-bit range. Its syntax error and its range error both give the default.
- HttpHeaders.Headers.Get and HttpHeaders.Headers.GetInt read the map through Lookup and GetIntOf, which carry their contracts.
- RequestReader.RequestFromReader: the driver loops forever in Go when the buffer fills with bytes parse cannot consume. The model returns `Stalled` there instead, and proves that this state is a fixpoint of the loop (StallsAt).
- RequestReader.RequestFromReader: reads are only from `chunkReader`. A reader that returns data together with an error, or a non-EOF error, is not modelled.
- RequestReader.ChunkReader.constructor: it requires `numBytesPerRead >= 1`. With 0 the Go test double hands out nothing and the driver spins; with a negative value its slice bound panics.
- HttpRequest.BodyStep: a body already longer than Content-Length takes nothing. No run from a new request reaches that case (FeedBodyInv).
- HttpRequest.Request.Done: `done` is a plain read of the state and needs no contract.

## Findings

| source | as written | input that shows it | evidently intended | confidence | as-written member | corrected member |
|---|---|---|---|---|---|---|
| internal/request/request.go:113-117 | with a negative Content-Length, `remainingBody` is negative, so `currentData[:remainingBody]` panics and the connection's goroutine crashes the process | `GET / HTTP/1.1\r\ncontent-length: -1\r\n\r\n` | a negative Content-Length is refused with an error and the request moves to Error | high, not executed | BodyFinding.BodyStepAsWritten, BodyFinding.NegativeLengthCounterexample | HttpRequest.BodyStep, RequestProperties.BodyNegative |
