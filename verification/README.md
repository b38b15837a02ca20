# HTTP/1.1 request parsing, routing and response writing, in Dafny

A model of the protocol core of a small Go HTTP/1.1 server:

- the request parser `ParseRequest` and `Request.Encodings` of `app/http/request.go`;
- the router of `app/http/mux.go`: `validatePattern`, `HandleFunc`, `extractParams`,
  `findHandler`, `notFoundHandler` and `HandleReqeust`;
- the three response serialisers `Response.Bytes` of `http/response.go`,
  `app/http/response.go` and `app/response.go`, as one function `Response.Bytes` with a
  `Flavour` parameter that selects where they differ: the reason phrase after the status
  code, and whether a caller's `Content-Length` replaces the computed one.

Byte slices are `string` (one `char` per byte). Go's errors are `Result`/`Option` values.
A Go map's unspecified iteration order is an explicit parameter `order` that lists every
key once (`Text.Enumerates`). The properties hold for every such order. A route handler is
a function from the request and the response so far to the new response. URL parsing is
the parameter `urlError`. Each runtime panic becomes a precondition naming what the source
relies on.

Modules, one per file:

- `Results`: `Option` and `Result`.
- `Text`: the parts of Go's `bytes` and `strings` packages that the core uses
  (`Index`, `Split`, `SplitN`, `Join`, `Trim`, `TrimSpace`, `EqualFold`).
- `Numbers`: `fmt`'s `%d` and `strconv.Atoi`.
- `Request`, `Mux` and `Response`: the three source areas above.
- `Framing`: relates writing to parsing. A response's output read back with the parser's
  header and body stages gives its headers and body. A request written out and parsed
  gives the same request.
- `Scenarios`: the concrete cases of the repository's tests.

## Model

| member | source | states |
|---|---|---|
| Text.IndexOfSpec | app/http/request.go:60-63 | `bytes.Index` reports an occurrence of the pattern with no occurrence before it, and -1 (`None`) only when the pattern occurs nowhere |
| Text.IndexOfIsFirst | app/http/request.go:60 | conversely, an occurrence with none before it is the index reported |
| Text.IndexOfNone | app/http/request.go:61-63 | the search fails exactly when the text does not contain the pattern |
| Text.SplitSpec | app/http/request.go:31 | the pieces of `bytes.Split` joined with the separator give the input back, and no piece contains the separator |
| Text.SplitCharCount | app/http/mux.go:73-74 | splitting on a character gives one piece more than the number of times it occurs |
| Text.SplitNSpec | app/http/request.go:38 | the pieces of `SplitN` join back to the input, and every piece but the last is separator-free; fewer than `n` pieces only when the whole text was split |
| Text.SplitNCharCount | app/http/request.go:38-39 | `SplitN` on a character stops short of `n` pieces exactly when the character occurs fewer than `n - 1` times |
| Text.Trim | app/http/mux.go:105-106 | `strings.Trim` keeps a contiguous slice of the input with no stripped character at either end, and removes only stripped characters |
| Text.TrimPadding | app/http/request.go:93 | the input is the trimmed text with a run of stripped characters on each side |
| Text.TrimUnique | app/http/request.go:93 | the trimmed text is the only text, with no stripped character at either end, that the input pads; so the padding property determines the result |
| Text.TrimTrimmed | app/http/request.go:54-55 | trimming text that is already trimmed changes nothing |
| Text.TrimSpace | app/http/request.go:54-55 | the result has no ASCII whitespace at either end and is no longer than the input |
| Text.EnumerationLength | app/http/mux.go:61 | a visit order of a map's keys has exactly one entry per key |
| Numbers.IntToDecimal | http/response.go:51 | `%d` writes a minus sign for negative numbers, then decimal digits only |
| Numbers.Atoi | app/http/request.go:69-72 | a successful `strconv.Atoi` reads a non-empty text into the 64-bit range, with the sign the text shows |
| Numbers.AtoiOfDecimal | app/http/request.go:69 | `strconv.Atoi` reads back exactly what `%d` writes, for every 64-bit integer |
| Request.FieldSplit | app/http/request.go:50-55 | the two-way split on `:` has two parts exactly when the line has a colon, and the trimmed parts are the name before and the value after the first colon |
| Request.ScanHeaders | app/http/request.go:44-57 | the header loop fails only with "invalid header format" |
| Request.ScanHeadersSucceeds | app/http/request.go:45-53 | the header loop succeeds exactly when every line before the first empty line has a colon |
| Request.ScanHeadersRecords | app/http/request.go:44-57 | on success every name set by a header line has the value of its last such line, and no other name is present |
| Request.ScanHeadersReportsFirst | app/http/request.go:50-52 | on failure the error carries the first line, before the first empty line, that has no colon |
| Request.LastValueSpec | app/http/request.go:56 | a later header line with the same name overrides every earlier one |
| Request.ReadBodySpec | app/http/request.go:59-75 | the body stage fails exactly without `\r\n\r\n` or with a non-integer `Content-Length`, naming which; otherwise the body is empty without `Content-Length` and is that many bytes right after the first terminator with it |
| Request.ReadBodyAt | app/http/request.go:60-75 | when the first terminator ends at `start` and `Content-Length` reads as `n`, the body is the `n` bytes at `start` |
| Request.ParseRequest | app/http/request.go:23-84 | "invalid request format" never happens, because splitting gives at least one line; a parsed request's method, path and protocol joined by spaces are the first line, method and path hold no space, and parameters are empty |
| Request.RequestLineParts | app/http/request.go:38 | a request line that splits three ways is its three parts joined by single spaces, and only the protocol may hold spaces |
| Request.RequestLineIsFirstLine | app/http/request.go:31 | the request line is the text before the first CRLF, or all of it when there is none |
| Request.ParseRequestLineError | app/http/request.go:38-41 | "invalid request line format" is returned exactly when the first line has fewer than two spaces |
| Request.ParseRequestHeaderError | app/http/request.go:45-53 | after a good request line, the first header line without a colon is reported |
| Request.ParseRequestTerminatorError | app/http/request.go:60-63 | after good request and header lines, a buffer without `\r\n\r\n` gives "invalid end of headers" |
| Request.ParseRequestLengthError | app/http/request.go:66-72 | with a terminator, parsing then fails exactly on a `Content-Length` that is not an integer, reporting its value |
| Request.ParseRequestStages | app/http/request.go:23-84 | once the request and header lines pass, the parse succeeds or fails with the body stage, and returns the scanned headers and the body read |
| Request.ParseRequestBody | app/http/request.go:59-75 | a parsed request's body is empty without `Content-Length` and otherwise is exactly that many bytes right after the first terminator |
| Request.ParseRequestRecords | app/http/request.go:44-57 | a parsed request's header map holds, for each name in the header block, the value of the last line with that name |
| Request.ParseRequestOfStages | app/http/request.go:23-84 | a three-part request line, header lines that scan to a map and a body after the first terminator give exactly that request |
| Request.Encodings | app/http/request.go:86-98 | no entries without `Accept-Encoding`; otherwise one entry per comma-separated piece, in order, each being that piece with surrounding whitespace removed, so trimmed and comma-free |
| Request.EncodingsJoin | app/http/request.go:91-94 | for a whitespace-free header value, the entries joined with commas give the value back |
| Response.Protocol | http/response.go:59-65 | the written protocol is the stored one, or `HTTP/1.1` when it is empty, and is never empty |
| Response.FieldTextsCover | http/response.go:44-46 | when the visit order covers every key once, the header loop writes exactly one `name: value` line per entry: as many lines as entries, every entry's line among them, and no line that is not some entry's |
| Response.BytesShape | http/response.go:37-57 | the output starts with the status line and CRLF, and ends with the length lines and the body, verbatim |
| Response.StatusTexts | http/response.go:12-18 | codes 200, 201 and 404 get "OK", "Created" and "Not Found" where reason phrases are looked up; 200 and 404 are bare in `app/response.go`; 202 and 204 are bare in every serialiser |
| Response.BareStatus | http/response.go:67-74 | without a reason phrase the status is the decimal code alone |
| Response.EmptyProtocolIsDefault | http/response.go:59-65 | a response with an empty protocol is written exactly like one with `HTTP/1.1` set, and starts with it |
| Response.FewHeadersDeterministic | http/response.go:44-46 | with at most one header the output does not depend on the map's visit order |
| Framing.BytesAsLines | http/response.go:37-57 | the output is the head lines, each ended by CRLF, then a blank line and the body |
| Framing.OutputLines | app/http/response.go:23-38 | splitting the output on CRLF gives the head lines, an empty line, then the pieces of the body |
| Framing.TerminatorBeforeBody | http/response.go:47-54 | the first `\r\n\r\n` of the output ends right where the body starts |
| Framing.ScanFieldLine | app/http/request.go:50-56 | the parser reads a written header line back as the same name and value |
| Framing.ScanFieldTexts | app/http/request.go:44-57 | the parser reads the written header lines back as the same map entries, in any visit order |
| Framing.ReadBackHeaders | http/response.go:43-52 | the parser's header scan of the output gives the caller's headers plus the computed `Content-Length` where one is written, in every visit order |
| Framing.ReadBackBody | http/response.go:47-54 | the parser's body stage on the output returns the body: always where the length is computed, and where the caller's is kept, when it reads as the body's length |
| Framing.RequestLineSplits | app/http/request.go:38 | a written request line splits back into method, path and protocol; the protocol may hold spaces |
| Framing.RequestStages | app/http/request.go:31-64 | on a written request the parser finds the request line, recovers the header map, and finds the terminator just before the body |
| Framing.ParseRequestRoundTrip | app/http/request.go:23-84 | writing a request and parsing it gives the same method, path, protocol and headers, no parameters, and the body when `Content-Length` gives its length, for any header order and any bytes after the body |
| Mux.MethodsHaveNoSpace | app/http/mux.go:12 | no allowed method contains a space |
| Mux.WrongShapeCount | app/http/mux.go:73-76 | a pattern is rejected for its shape exactly when it has other than one space |
| Mux.AcceptedPattern | app/http/mux.go:72-95 | an accepted pattern is a listed method, one space and a space-free path starting with `/` that URL parsing accepts |
| Mux.BuiltPattern | app/http/mux.go:72-95 | conversely, such a method and path make an accepted pattern |
| Mux.HandleFunc | app/http/mux.go:46-58 | registration succeeds exactly for a valid, unregistered pattern; otherwise it panics with the pattern when it is invalid and with the duplicate message when it is registered; on success only that entry is added and every registered pattern stays well shaped |
| Mux.RegisterOnce | app/http/mux.go:52-55 | registering the same pattern again panics with the duplicate message, whatever the handler |
| Mux.BindSucceeds | app/http/mux.go:111-119 | the segment loop succeeds exactly when every non-placeholder segment equals the request's |
| Mux.BindKeys | app/http/mux.go:111-115 | a successful binding defines exactly the placeholder names |
| Mux.BindValues | app/http/mux.go:112-115 | each placeholder name is bound to the request segment at its last occurrence |
| Mux.ExtractParams | app/http/mux.go:97-122 | the result is the pattern or the empty string, with no bindings on a mismatch |
| Mux.ExtractParamsSpec | app/http/mux.go:97-122 | `extractParams` matches exactly when the methods agree up to case and the trimmed paths agree segment by segment; the bindings are then exactly the placeholder names, each bound to the request segment at its last occurrence |
| Mux.FindInSpec | app/http/mux.go:60-70 | the lookup loop returns the first pattern in visit order that matches (every earlier one fails to match), with its handler and the request carrying that match's bindings, or the 404 handler with the request unchanged when none matches |
| Mux.FindInFirst | app/http/mux.go:60-70 | the pattern the loop returns is the first entry of the visit order that matches: every entry before it fails to match |
| Mux.FindHandlerSpec | app/http/mux.go:60-70 | `findHandler` returns a registered matching pattern and its handler, and falls back to the 404 handler exactly when no registered pattern matches |
| Mux.FindHandlerUnambiguous | app/http/mux.go:61 | when at most one registered pattern matches, the visit order does not change the result |
| Mux.AnyMatchCanWin | app/http/mux.go:61-66 | any registered pattern that matches is the one found for some visit order, so no precedence is promised |
| Mux.NotFoundHandler | app/http/mux.go:124-128 | status 404, body "Not found", `Content-Type: text/plain`, and every other header and the protocol kept |
| Mux.HandleRequest | app/http/mux.go:28-44 | the response is the handler's, with a zero status replaced by 200 and `Connection: close` added when the request asks for it; nothing else changes |
| Mux.ClosesConnection | app/http/mux.go:40-43 | the written response says `Connection: close` exactly when the request or the handler said so |
| Mux.UnroutedIsNotFound | app/http/mux.go:29-34 | a request that no registered pattern matches gets the 404 response, in every visit order |
| Scenarios.FooBarIsBadRequestLine | app/http/request_test.go:17-21 | `"foo bar"` is rejected with "invalid request line format" |
| Scenarios.PostWithBody | app/http/request_test.go:47-60 | the POST request with `Host`, `Content-Length: 6` and body `foobar` parses back to those parts, whatever the header order and the bytes after it |
| Scenarios.NoEncodings | app/http/request_test.go:113-117 | without `Accept-Encoding` there are no encodings |
| Scenarios.ThreeEncodings | app/http/request_test.go:118-122 | `foo, gzip , bar` gives `foo`, `gzip`, `bar` |
| Scenarios.Created | http/response_test.go:16-22 | a bare 201 is written as `HTTP/1.1 201 Created` with `Content-Length: 0` |
| Scenarios.NoContent | http/response_test.go:23-29 | 204 is written without a reason phrase |
| Scenarios.OkWithBody | http/response_test.go:30-37 | a 200 with a 13-byte body gets `Content-Length: 13` and the body |
| Scenarios.AcceptedJson | http/response_test.go:38-46 | a 202 with one header and a JSON body is written byte for byte as expected |
| Scenarios.FreshResponse | http/response.go:28-35 | a new response is written as status 0 with an empty body |
| Scenarios.CallerLengthKept | http/response.go:47-52 | a caller's `Content-Length` is written as given and no second one is added |
| Scenarios.CallerLengthDoubled | app/response.go:22-25 | `app/response.go` writes the computed length after the caller's own |
| Scenarios.FilesRouteValid | app/http/mux.go:72-95 | `GET /files/{filename}` is a valid pattern |
| Scenarios.RegisterFiles | app/http/mux.go:46-58 | registering that pattern on a new router succeeds |
| Scenarios.RegisterFilesTwice | app/http/mux.go:52-55 | registering it again panics with the duplicate message |
| Scenarios.ExtractFile | app/http/mux.go:97-122 | `GET /files/test.txt` matches it with `filename` bound to `test.txt` |
| Scenarios.FileParameter | http/mux_test.go:85-109 | the handler sees `filename = test.txt` and the response is 200 with body `File: test.txt` |
| Scenarios.EmptyMuxNotFound | http/mux_test.go:134-150 | with no routes every request gets 404 "Not found" |
| Scenarios.DefaultsAfterHandler | http/mux_test.go:152-185 | a handler that sets nothing yields 200, and `Connection: close` on the request reaches the response |

## Left out

- TrimSpace: trims only the six ASCII whitespace bytes. Go's `bytes.TrimSpace` and `strings.TrimSpace` (app/http/request.go:54-55, :93) also trim Unicode spaces such as U+0085, U+00A0 and U+2000 to U+200A; text is not decoded as UTF-8 here.
- EqualFold: folds only `A`-`Z`. Go's `strings.EqualFold` (app/http/mux.go:101) uses Unicode simple folding, so a method such as `POſT` (U+017F) matches `POST` in Go but not in the model.
- ParseRequest: header names and values are trimmed of ASCII whitespace only (see TrimSpace).
- ParseRequest: the slice at app/http/request.go:74 panics when `Content-Length` is negative or reaches past the buffer. The model makes that a precondition (`ParseSafe`, `BodyFits`) instead of a panic.
- ParseSafe: Go can slice up to a buffer's capacity, not just its length. The bound by the length matches because app/http/server.go:45-54 reads into a buffer whose length equals its capacity.
- BodyFits: states the same length bound for the body stage.
- ExtractParams: the method comparison folds ASCII only (see EqualFold).
- ExtractParams: indexing `comps[1]` (app/http/mux.go:105) panics on a pattern without a space. The model makes that the precondition `|Parts(pattern)| >= 2`, which every registered pattern meets.
- Encodings: entries are trimmed of ASCII whitespace only (see TrimSpace).
- Encodings: a present but empty `Accept-Encoding` gives one empty entry `[""]`, as `strings.Split` does at app/http/request.go:91. RFC 9110 section 12.5.3 reads an empty `Accept-Encoding` value as "no content coding"; the model keeps the one empty entry.
- HandleRequest: reads `Connection` from the request as it was before the handler ran. In Go, `*Request` is shared: the handler runs first (app/http/mux.go:34), then `req.Headers["Connection"]` is read (:40). A handler that itself sets `Connection: close` on the request closes the connection in Go but not in the model, where a handler returns only a response.
- HandleRequest: the `fmt.Println("cannot find handler")` at app/http/mux.go:31 is output only and is dropped.
- HandleRequest: the response and request header maps are never nil here. Go panics when a handler writes to a nil map; `NewResponse` of the app/http package, which allocates the map there, is not part of this model.
- ValidateSafe: `path[0]` at app/http/mux.go:85 panics on an empty path, as in the pattern `"GET "`. The model makes that a precondition of `ValidatePattern` and `HandleFunc`.
- ValidatePattern: `url.Parse` (app/http/mux.go:89) is the parameter `urlError`, the error text it reports or `None`. Which paths Go's URL parser rejects is not modelled.
- FindHandler: Go's map iteration order is unspecified and varies between runs. It is the parameter `order`; `FindHandlerUnambiguous` and `AnyMatchCanWin` state what follows from that.
- Bytes: header lines follow the parameter `order` for the same reason. Writes to `bytes.Buffer` cannot fail and are plain concatenation.
- Bytes: the status code is an unbounded `int`; Go's `int` is 64 bits, which changes nothing for `%d` on any value Go can hold.
- ReadBackBody: requires a body of at most 2^63 - 1 bytes, the largest length `strconv.Atoi` can read back; no Go slice is longer.
- Atoi: Go's syntax and range errors are both `None`, since the parser only checks that there is an error.
- Placeholders: `^{(.+)}$` is matched character by character with `.` excluding newline; Go's `regexp` works on UTF-8 runes, which matters only for invalid UTF-8.
- The router tests in http/mux_test.go exercise the root package's router, which is not part of this model. They expect the validation message and a quoted pattern as panic values, where app/http/mux.go:49 and :54 panic with the pattern itself and an unquoted message. The model follows app/http/mux.go.
- The TCP servers (`http/server.go`, `app/http/server.go`), the application (`app/app.go`, `app/main.go`, `main.go`), gzip encoding (`app/encoder.go`, `app/http/encoder.go`) and the `Handler` interface of `app/http/handler.go` are outside the modelled core: sockets, goroutines, files and compression.
