/** The request parser of `app/http/request.go`: a byte buffer becomes a `Request`
    (RFC 9112 sections 3, 5 and 6.2) or one of the parser's errors. */
module Request {
  import opened Results
  import opened Text
  import opened Numbers

  /** A parsed request; `verb` is the request method (`Method` in Go). `params` is filled in later by the router; the parser leaves it
      empty (a nil map in Go, which reads like an empty one). */
  datatype Request = Request(
    verb: string,
    path: string,
    protocol: string,
    headers: map<string, string>,
    body: string,
    params: map<string, string>)

  /** The errors `ParseRequest` returns, one per `fmt.Errorf` in the source. */
  datatype ParseError =
    | InvalidRequestFormat
    | InvalidRequestLine
    | InvalidHeaderFormat(line: string)
    | InvalidEndOfHeaders
    | InvalidContentLength(value: string)

  /** The text of each error. */
  function ErrorMessage(e: ParseError): string {
    match e
    case InvalidRequestFormat => "invalid request format"
    case InvalidRequestLine => "invalid request line format"
    case InvalidHeaderFormat(line) => "invalid header format: " + line
    case InvalidEndOfHeaders => "invalid end of headers"
    case InvalidContentLength(value) => "invalid Content-Length header: " + value
  }

  /** The blank line that ends the header section. */
  const HeaderTerminator: string := "\r\n\r\n"

  // ----- header lines -----

  /** A header line can be split into a name and a value. */
  predicate IsField(line: string) {
    ':' in line
  }

  /** The name of a header line: the text before its first `:`, whitespace-trimmed. */
  function FieldName(line: string): string
    requires IsField(line)
  {
    ContainsChar(line, ':');
    IndexOfNone(line, ":");
    TrimSpace(line[..IndexOf(line, ":").value])
  }

  /** The value of a header line: the text after its first `:`, whitespace-trimmed; it may
      itself contain `:`. */
  function FieldValue(line: string): string
    requires IsField(line)
  {
    ContainsChar(line, ':');
    IndexOfNone(line, ":");
    TrimSpace(line[IndexOf(line, ":").value + 1..])
  }

  /** The two-way split on `:` that the parser performs has two parts exactly when the line
      has a `:`, and then they are the text before and after the first one. */
  lemma FieldSplit(line: string)
    ensures |SplitN(line, ":", 2)| == 2 <==> IsField(line)
    ensures IsField(line) ==> TrimSpace(SplitN(line, ":", 2)[0]) == FieldName(line)
    ensures IsField(line) ==> TrimSpace(SplitN(line, ":", 2)[1]) == FieldValue(line)
  {
    ContainsChar(line, ':');
    IndexOfNone(line, ":");
  }

  /** The index of the first empty line: where header scanning stops. */
  function BlockEnd(lines: seq<string>): (n: nat)
    ensures n <= |lines|
    ensures forall k :: 0 <= k < n ==> |lines[k]| > 0
    ensures n < |lines| ==> lines[n] == ""
  {
    if |lines| == 0 || lines[0] == "" then 0 else 1 + BlockEnd(lines[1..])
  }

  /** The header loop of `ParseRequest`, over the lines after the request line: stop at
      the first empty line, fail on a line without `:`, otherwise record the trimmed name
      and value, a later line overwriting an earlier one with the same name. */
  function ScanHeaders(lines: seq<string>, acc: map<string, string>): (r: Result<map<string, string>, ParseError>)
    ensures r.Failure? ==> r.error.InvalidHeaderFormat?
  {
    if |lines| == 0 || |lines[0]| == 0 then Success(acc)
    else
      var parts := SplitN(lines[0], ":", 2);
      if |parts| != 2 then Failure(InvalidHeaderFormat(lines[0]))
      else ScanHeaders(lines[1..], acc[TrimSpace(parts[0]) := TrimSpace(parts[1])])
  }

  /** Every line of `block` is a header line. */
  predicate AllFields(block: seq<string>) {
    forall k :: 0 <= k < |block| ==> IsField(block[k])
  }

  /** The value that the last line of `block` named `name` gives it, if any line does:
      a later line takes precedence over every earlier one. */
  function LastValue(block: seq<string>, name: string): Option<string>
    requires AllFields(block)
  {
    if |block| == 0 then None
    else
      match LastValue(block[1..], name)
      case Some(v) => Some(v)
      case None => if FieldName(block[0]) == name then Some(FieldValue(block[0])) else None
  }

  /** `LastValue` finds the value of the last line with the name and only that. */
  lemma {:induction false} LastValueSpec(block: seq<string>, name: string, k: nat)
    requires AllFields(block) && k < |block| && FieldName(block[k]) == name
    requires forall j :: k < j < |block| ==> FieldName(block[j]) != name
    ensures LastValue(block, name) == Some(FieldValue(block[k]))
    decreases |block|
  {
    if k == 0 {
      LastValueAbsent(block[1..], name);
    } else {
      LastValueSpec(block[1..], name, k - 1);
    }
  }

  /** No line named `name` means no value for it. */
  lemma {:induction false} LastValueAbsent(block: seq<string>, name: string)
    requires AllFields(block)
    requires forall j :: 0 <= j < |block| ==> FieldName(block[j]) != name
    ensures LastValue(block, name) == None
    decreases |block|
  {
    if |block| > 0 {
      LastValueAbsent(block[1..], name);
    }
  }

  /** `h` is what recording the lines of `block` on top of `acc` yields: a name set by some
      line has the value of the last such line, any other name keeps its entry in `acc`. */
  ghost predicate Records(acc: map<string, string>, block: seq<string>, h: map<string, string>)
    requires AllFields(block)
  {
    forall name ::
      && (name in h <==> name in acc || LastValue(block, name).Some?)
      && (name in h && LastValue(block, name).Some? ==> h[name] == LastValue(block, name).value)
      && (name in h && LastValue(block, name).None? ==> h[name] == acc[name])
  }

  /** The header lines scanned: those after the request line, up to the first empty line. */
  function HeaderBlock(lines: seq<string>): (block: seq<string>)
    requires |lines| >= 1
    ensures forall k :: 0 <= k < |block| ==> |block[k]| > 0
  {
    lines[1..][..BlockEnd(lines[1..])]
  }

  lemma BlockStep(lines: seq<string>)
    requires |lines| > 0 && |lines[0]| > 0
    ensures lines[..BlockEnd(lines)] == [lines[0]] + lines[1..][..BlockEnd(lines[1..])]
  {
  }

  /** The header loop fails exactly when a line before the first empty one has no `:`. */
  lemma {:induction false} ScanHeadersSucceeds(lines: seq<string>, acc: map<string, string>)
    ensures ScanHeaders(lines, acc).Success? <==> AllFields(lines[..BlockEnd(lines)])
    decreases |lines|
  {
    if |lines| > 0 && |lines[0]| > 0 {
      FieldSplit(lines[0]);
      BlockStep(lines);
      var block := lines[..BlockEnd(lines)];
      if IsField(lines[0]) {
        ScanHeadersSucceeds(lines[1..], acc[FieldName(lines[0]) := FieldValue(lines[0])]);
        assert block[1..] == lines[1..][..BlockEnd(lines[1..])];
      } else {
        assert !IsField(block[0]);
      }
    }
  }

  /** On success the header loop records every header line: the last line with a name
      gives its value, names no line sets keep their earlier value. */
  lemma {:induction false} ScanHeadersRecords(lines: seq<string>, acc: map<string, string>)
    requires ScanHeaders(lines, acc).Success?
    ensures AllFields(lines[..BlockEnd(lines)])
    ensures Records(acc, lines[..BlockEnd(lines)], ScanHeaders(lines, acc).value)
    decreases |lines|
  {
    ScanHeadersSucceeds(lines, acc);
    var block := lines[..BlockEnd(lines)];
    if |lines| == 0 || |lines[0]| == 0 {
      assert block == [];
    } else {
      FieldSplit(lines[0]);
      BlockStep(lines);
      var acc' := acc[FieldName(lines[0]) := FieldValue(lines[0])];
      ScanHeadersRecords(lines[1..], acc');
      assert block[1..] == lines[1..][..BlockEnd(lines[1..])];
      RecordsStep(acc, block, ScanHeaders(lines, acc).value);
    }
  }

  /** Recording the first line into `acc` and then the rest is recording the whole block. */
  lemma RecordsStep(acc: map<string, string>, block: seq<string>, h: map<string, string>)
    requires |block| > 0 && AllFields(block)
    requires Records(acc[FieldName(block[0]) := FieldValue(block[0])], block[1..], h)
    ensures Records(acc, block, h)
  {
    var acc' := acc[FieldName(block[0]) := FieldValue(block[0])];
    forall name
      ensures && (name in h <==> name in acc || LastValue(block, name).Some?)
              && (name in h && LastValue(block, name).Some? ==> h[name] == LastValue(block, name).value)
              && (name in h && LastValue(block, name).None? ==> h[name] == acc[name])
    {
      assert LastValue(block, name) ==
        (match LastValue(block[1..], name)
         case Some(v) => Some(v)
         case None => if FieldName(block[0]) == name then Some(FieldValue(block[0])) else None);
    }
  }

  /** The index of the first line of `block` that has no `:`, or `|block|`. */
  function FirstNonField(block: seq<string>): (k: nat)
    ensures k <= |block|
    ensures AllFields(block[..k])
    ensures k < |block| ==> !IsField(block[k])
  {
    if |block| == 0 then 0
    else if !IsField(block[0]) then 0
    else
      var k := FirstNonField(block[1..]);
      assert block[..k + 1] == [block[0]] + block[1..][..k];
      k + 1
  }

  /** On failure the header loop reports the first line, before the first empty one, that
      has no `:`. */
  lemma {:induction false} ScanHeadersReportsFirst(lines: seq<string>, acc: map<string, string>)
    requires ScanHeaders(lines, acc).Failure?
    ensures var block := lines[..BlockEnd(lines)];
      && FirstNonField(block) < |block|
      && ScanHeaders(lines, acc).error == InvalidHeaderFormat(block[FirstNonField(block)])
    decreases |lines|
  {
    var block := lines[..BlockEnd(lines)];
    FieldSplit(lines[0]);
    BlockStep(lines);
    if IsField(lines[0]) {
      var acc' := acc[FieldName(lines[0]) := FieldValue(lines[0])];
      ScanHeadersReportsFirst(lines[1..], acc');
      assert block[1..] == lines[1..][..BlockEnd(lines[1..])];
    }
  }

  // ----- the request -----

  /** The slice `data[start : start+n]` taken for the body cannot panic: if the headers
      hold a `Content-Length` that reads as `n` and the buffer holds the header terminator,
      then `0 <= n` and the `n` bytes after the terminator are inside the buffer. (The
      64-bit sum `start + n` cannot wrap without also leaving the buffer.) */
  predicate BodyFits(data: string, headers: map<string, string>) {
    (&& "Content-Length" in headers
     && Atoi(headers["Content-Length"]).Some?
     && IndexOf(data, HeaderTerminator).Some?)
    ==>
    var n := Atoi(headers["Content-Length"]).value;
    0 <= n && IndexOf(data, HeaderTerminator).value + 4 + n <= |data|
  }

  /** The body stage of `ParseRequest`: find the first header terminator, then take exactly
      `Content-Length` bytes after it, or none when the header is absent. */
  function ReadBody(data: string, headers: map<string, string>): (r: Result<string, ParseError>)
    requires BodyFits(data, headers)
  {
    match IndexOf(data, HeaderTerminator)
    case None => Failure(InvalidEndOfHeaders)
    case Some(i) =>
      var start := i + 4;
      if "Content-Length" !in headers then Success("")
      else
        match Atoi(headers["Content-Length"])
        case None => Failure(InvalidContentLength(headers["Content-Length"]))
        case Some(n) => Success(data[start..start + n])
  }

  /** The body stage fails exactly without a terminator or on a `Content-Length` that
      does not read as an integer, reporting which; otherwise the body is empty without
      `Content-Length` and is the `Content-Length` bytes after the terminator with it. */
  lemma ReadBodySpec(data: string, headers: map<string, string>)
    requires BodyFits(data, headers)
    ensures var r := ReadBody(data, headers);
      && (r.Failure? <==>
            IndexOf(data, HeaderTerminator).None?
            || ("Content-Length" in headers && Atoi(headers["Content-Length"]).None?))
      && (r.Failure? && IndexOf(data, HeaderTerminator).None? ==> r.error == InvalidEndOfHeaders)
      && (r.Failure? && IndexOf(data, HeaderTerminator).Some? ==>
            r.error == InvalidContentLength(headers["Content-Length"]))
      && (r.Success? && "Content-Length" !in headers ==> r.value == "")
      && (r.Success? && "Content-Length" in headers ==>
            var start := IndexOf(data, HeaderTerminator).value + 4;
            && Atoi(headers["Content-Length"]) == Some(|r.value|)
            && start + |r.value| <= |data|
            && r.value == data[start..start + |r.value|])
  {
  }

  /** When the first terminator ends just before `start`, at least `n` bytes follow it and
      `Content-Length` reads as `n`, the body stage returns the `n` bytes at `start`; with
      no `Content-Length` it returns none. */
  lemma ReadBodyAt(data: string, headers: map<string, string>, start: nat, n: nat)
    requires 4 <= start && start + n <= |data| && IndexOf(data, HeaderTerminator) == Some(start - 4)
    requires "Content-Length" in headers ==> Atoi(headers["Content-Length"]) == Some(n)
    ensures BodyFits(data, headers)
    ensures ReadBody(data, headers)
         == Success(if "Content-Length" in headers then data[start..start + n] else "")
  {
  }

  /** No step of `ParseRequest` panics on `data`: whenever it reaches the body slice with
      the headers it scanned, the slice is in bounds. */
  predicate ParseSafe(data: string) {
    var lines := Split(data, CRLF);
    var scanned := ScanHeaders(lines[1..], map[]);
    |SplitN(lines[0], " ", 3)| == 3 && scanned.Success? ==> BodyFits(data, scanned.value)
  }

  /** `ParseRequest` of `app/http/request.go`. */
  function ParseRequest(data: string): (r: Result<Request, ParseError>)
    requires ParseSafe(data)
    ensures r != Failure(InvalidRequestFormat)
    ensures r.Success? ==>
      && r.value.verb + " " + r.value.path + " " + r.value.protocol == Split(data, CRLF)[0]
      && ' ' !in r.value.verb && ' ' !in r.value.path
    ensures r.Success? ==> r.value.params == map[]
  {
    var lines := Split(data, CRLF);
    if |lines| < 1 then Failure(InvalidRequestFormat)
    else
      var parts := SplitN(lines[0], " ", 3);
      if |parts| < 3 then Failure(InvalidRequestLine)
      else
        match ScanHeaders(lines[1..], map[])
        case Failure(e) => Failure(e)
        case Success(headers) =>
          match ReadBody(data, headers)
          case Failure(e) => Failure(e)
          case Success(body) =>
            RequestLineParts(lines[0]);
            Success(Request(parts[0], parts[1], parts[2], headers, body, map[]))
  }

  /** A parsed request has its body right after the first terminator: `Content-Length`
      bytes of it, or none without that header. */
  lemma ParseRequestBody(data: string)
    requires ParseSafe(data) && ParseRequest(data).Success?
    ensures IndexOf(data, HeaderTerminator).Some?
    ensures var req := ParseRequest(data).value;
      && ("Content-Length" !in req.headers ==> req.body == "")
      && ("Content-Length" in req.headers ==>
            var start := IndexOf(data, HeaderTerminator).value + 4;
            && Atoi(req.headers["Content-Length"]) == Some(|req.body|)
            && start + |req.body| <= |data|
            && req.body == data[start..start + |req.body|])
  {
    var lines := Split(data, CRLF);
    assert |SplitN(lines[0], " ", 3)| == 3 && ScanHeaders(lines[1..], map[]).Success?;
    var headers := ScanHeaders(lines[1..], map[]).value;
    ParseRequestStages(data);
    ReadBodyOk(data, headers, ParseRequest(data).value.body);
  }

  /** A successful body stage found a terminator and, with `Content-Length`, read exactly
      that many bytes after it. */
  lemma ReadBodyOk(data: string, headers: map<string, string>, body: string)
    requires BodyFits(data, headers) && ReadBody(data, headers) == Success(body)
    ensures IndexOf(data, HeaderTerminator).Some?
    ensures "Content-Length" !in headers ==> body == ""
    ensures "Content-Length" in headers ==>
      && Atoi(headers["Content-Length"]) == Some(|body|)
      && IndexOf(data, HeaderTerminator).value + 4 + |body| <= |data|
      && body == data[IndexOf(data, HeaderTerminator).value + 4..IndexOf(data, HeaderTerminator).value + 4 + |body|]
  {
    assert IndexOf(data, HeaderTerminator).Some?;
    if "Content-Length" in headers {
      ReadBodyLength(data, headers, body, IndexOf(data, HeaderTerminator).value);
    }
  }

  /** With `Content-Length` and the terminator at `i`, the body read is as long as the
      header says and lies right after the terminator. */
  lemma ReadBodyLength(data: string, headers: map<string, string>, body: string, i: nat)
    requires BodyFits(data, headers) && ReadBody(data, headers) == Success(body)
    requires IndexOf(data, HeaderTerminator) == Some(i)
    requires "Content-Length" in headers
    ensures Atoi(headers["Content-Length"]) == Some(|body|)
    ensures i + 4 + |body| <= |data| && body == data[i + 4..i + 4 + |body|]
  {
    assert Atoi(headers["Content-Length"]).Some?;
    var n := Atoi(headers["Content-Length"]).value;
    ReadBodySlice(data, headers, body, i, n);
  }

  /** `BodyFits` bounds the `Content-Length` bytes after the terminator by the buffer. */
  lemma BodyBound(data: string, headers: map<string, string>, i: nat, n: int)
    requires BodyFits(data, headers)
    requires "Content-Length" in headers && IndexOf(data, HeaderTerminator) == Some(i)
    requires Atoi(headers["Content-Length"]) == Some(n)
    ensures 0 <= n && i + 4 + n <= |data|
  {
  }

  /** With the terminator at `i` and `Content-Length` reading as `n`, the body read is the
      `n` bytes after the terminator. */
  lemma ReadBodySlice(data: string, headers: map<string, string>, body: string, i: nat, n: int)
    requires BodyFits(data, headers) && ReadBody(data, headers) == Success(body)
    requires "Content-Length" in headers && IndexOf(data, HeaderTerminator) == Some(i)
    requires Atoi(headers["Content-Length"]) == Some(n)
    ensures |body| == n && body == data[i + 4..i + 4 + n]
  {
    BodyBound(data, headers, i, n);
  }

  /** When the request line splits three ways, its first two parts have no space and the
      three parts joined by single spaces give the line back. */
  lemma RequestLineParts(line: string)
    requires |SplitN(line, " ", 3)| == 3
    ensures var parts := SplitN(line, " ", 3);
      && parts[0] + " " + parts[1] + " " + parts[2] == line
      && ' ' !in parts[0] && ' ' !in parts[1]
  {
    var parts := SplitN(line, " ", 3);
    SplitNSpec(line, " ", 3);
    assert parts[1..][1..] == [parts[2]];
    assert Join(parts[1..][1..], " ") == parts[2];
    assert Join(parts[1..], " ") == parts[1] + " " + parts[2];
    ContainsChar(parts[0], ' ');
    ContainsChar(parts[1], ' ');
  }

  /** The request line is the text before the first CRLF of the buffer (all of it when
      there is none). */
  lemma RequestLineIsFirstLine(data: string)
    ensures var line := Split(data, CRLF)[0];
      && !Contains(line, CRLF)
      && |line| <= |data| && data[..|line|] == line
      && (|line| == |data| || OccursAt(data, CRLF, |line|))
  {
    var parts := Split(data, CRLF);
    SplitSpec(data, CRLF);
    if |parts| > 1 {
      assert data == parts[0] + CRLF + Join(parts[1..], CRLF);
      assert data[|parts[0]|..|parts[0]| + 2] == CRLF;
    }
  }

  /** A request line with fewer than two spaces (fewer than three space-separated parts)
      is rejected with "invalid request line format", and nothing else is. */
  lemma ParseRequestLineError(data: string)
    requires ParseSafe(data)
    ensures ParseRequest(data) == Failure(InvalidRequestLine) <==> Count(Split(data, CRLF)[0], ' ') < 2
  {
    SplitNCharCount(Split(data, CRLF)[0], ' ', 3);
  }

  /** With a three-part request line, the first header line without `:` (before the
      first empty line) is reported with "invalid header format". */
  lemma ParseRequestHeaderError(data: string)
    requires ParseSafe(data)
    requires Count(Split(data, CRLF)[0], ' ') >= 2
    requires !AllFields(HeaderBlock(Split(data, CRLF)))
    ensures var block := HeaderBlock(Split(data, CRLF));
      ParseRequest(data) == Failure(InvalidHeaderFormat(block[FirstNonField(block)]))
  {
    var lines := Split(data, CRLF);
    SplitNCharCount(lines[0], ' ', 3);
    ScanHeadersSucceeds(lines[1..], map[]);
    ScanHeadersReportsFirst(lines[1..], map[]);
  }

  /** With a three-part request line and well-formed header lines, a buffer without the
      blank line `\r\n\r\n` is rejected with "invalid end of headers"; the terminator is
      looked for only after the header lines have passed. */
  lemma ParseRequestTerminatorError(data: string)
    requires ParseSafe(data)
    requires Count(Split(data, CRLF)[0], ' ') >= 2
    requires AllFields(HeaderBlock(Split(data, CRLF)))
    requires IndexOf(data, HeaderTerminator).None?
    ensures ParseRequest(data) == Failure(InvalidEndOfHeaders)
  {
    var lines := Split(data, CRLF);
    SplitNCharCount(lines[0], ' ', 3);
    ScanHeadersSucceeds(lines[1..], map[]);
  }

  /** `ParseRequest` in terms of its stages, once the request line has passed. */
  lemma ParseRequestStages(data: string)
    requires ParseSafe(data)
    requires |SplitN(Split(data, CRLF)[0], " ", 3)| == 3
    requires ScanHeaders(Split(data, CRLF)[1..], map[]).Success?
    ensures var headers := ScanHeaders(Split(data, CRLF)[1..], map[]).value;
      && BodyFits(data, headers)
      && (ParseRequest(data).Success? <==> ReadBody(data, headers).Success?)
      && (ParseRequest(data).Success? ==>
            ParseRequest(data).value.headers == headers && ParseRequest(data).value.body == ReadBody(data, headers).value)
      && (ParseRequest(data).Failure? ==> ParseRequest(data).error == ReadBody(data, headers).error)
  {
  }

  /** A buffer whose request line splits into three parts, whose header lines scan to
      `headers` and whose first terminator ends just before `start` parses to that request
      line, those headers and the `Content-Length` bytes at `start`. */
  lemma ParseRequestOfStages(data: string, verb: string, path: string, protocol: string,
                             headers: map<string, string>, start: nat, body: string)
    requires SplitN(Split(data, CRLF)[0], " ", 3) == [verb, path, protocol]
    requires ScanHeaders(Split(data, CRLF)[1..], map[]) == Success(headers)
    requires 4 <= start && start + |body| <= |data| && IndexOf(data, HeaderTerminator) == Some(start - 4)
    requires data[start..start + |body|] == body
    requires "Content-Length" in headers ==> Atoi(headers["Content-Length"]) == Some(|body|)
    ensures ParseSafe(data)
    ensures ParseRequest(data)
         == Success(Request(verb, path, protocol, headers, if "Content-Length" in headers then body else "", map[]))
  {
    BodyStage(data, headers, start, body);
    ParseRequestFrom(data, verb, path, protocol, headers, if "Content-Length" in headers then body else "");
  }

  lemma ParseRequestFrom(data: string, verb: string, path: string, protocol: string,
                         headers: map<string, string>, body: string)
    requires SplitN(Split(data, CRLF)[0], " ", 3) == [verb, path, protocol]
    requires ScanHeaders(Split(data, CRLF)[1..], map[]) == Success(headers)
    requires BodyFits(data, headers) && ReadBody(data, headers) == Success(body)
    ensures ParseSafe(data)
    ensures ParseRequest(data) == Success(Request(verb, path, protocol, headers, body, map[]))
  {
    SafeOfStages(data, headers);
    ParseRequestSucceeds(data, headers, body);
  }

  lemma ParseRequestSucceeds(data: string, headers: map<string, string>, body: string)
    requires ParseSafe(data)
    requires |SplitN(Split(data, CRLF)[0], " ", 3)| == 3
    requires ScanHeaders(Split(data, CRLF)[1..], map[]) == Success(headers)
    requires BodyFits(data, headers) && ReadBody(data, headers) == Success(body)
    ensures var parts := SplitN(Split(data, CRLF)[0], " ", 3);
      ParseRequest(data) == Success(Request(parts[0], parts[1], parts[2], headers, body, map[]))
  {
  }

  /** The body stage on a buffer whose first terminator ends just before `body`. */
  lemma BodyStage(data: string, headers: map<string, string>, start: nat, body: string)
    requires 4 <= start && start + |body| <= |data| && IndexOf(data, HeaderTerminator) == Some(start - 4)
    requires data[start..start + |body|] == body
    requires "Content-Length" in headers ==> Atoi(headers["Content-Length"]) == Some(|body|)
    ensures BodyFits(data, headers)
    ensures ReadBody(data, headers) == Success(if "Content-Length" in headers then body else "")
  {
    ReadBodyAt(data, headers, start, |body|);
  }

  lemma SafeOfStages(data: string, headers: map<string, string>)
    requires ScanHeaders(Split(data, CRLF)[1..], map[]) == Success(headers)
    requires BodyFits(data, headers)
    ensures ParseSafe(data)
  {
  }

  /** With a three-part request line, well-formed header lines and a terminator, parsing
      fails only on a `Content-Length` that is not an integer, reporting its value. */
  lemma ParseRequestLengthError(data: string)
    requires ParseSafe(data)
    requires Count(Split(data, CRLF)[0], ' ') >= 2
    requires AllFields(HeaderBlock(Split(data, CRLF)))
    requires IndexOf(data, HeaderTerminator).Some?
    ensures ScanHeaders(Split(data, CRLF)[1..], map[]).Success?
    ensures var headers := ScanHeaders(Split(data, CRLF)[1..], map[]).value;
      && (ParseRequest(data).Failure? <==>
            "Content-Length" in headers && Atoi(headers["Content-Length"]).None?)
      && (ParseRequest(data).Failure? ==>
            ParseRequest(data).error == InvalidContentLength(headers["Content-Length"]))
  {
    var lines := Split(data, CRLF);
    SplitNCharCount(lines[0], ' ', 3);
    ScanHeadersSucceeds(lines[1..], map[]);
    ParseRequestStages(data);
  }

  /** A parsed request carries every header line before the first empty line: the last
      line with a name gives its value, both trimmed. */
  lemma ParseRequestRecords(data: string)
    requires ParseSafe(data) && ParseRequest(data).Success?
    ensures var block := HeaderBlock(Split(data, CRLF));
      AllFields(block) && Records(map[], block, ParseRequest(data).value.headers)
  {
    ScanHeadersRecords(Split(data, CRLF)[1..], map[]);
  }

  // ----- content codings -----

  /** `Request.Encodings`: the comma-separated pieces of `Accept-Encoding`
      (RFC 9110 section 12.5.3), each whitespace-trimmed, in order; empty when the header is
      absent. A present but empty header gives one empty piece, as `strings.Split` does. */
  function Encodings(req: Request): (r: seq<string>)
    ensures "Accept-Encoding" !in req.headers ==> r == []
    ensures "Accept-Encoding" in req.headers ==>
      && |r| == Count(req.headers["Accept-Encoding"], ',') + 1
      && forall i :: 0 <= i < |r| ==> Trimmed(r[i], IsSpace) && ',' !in r[i]
    ensures "Accept-Encoding" in req.headers ==>
      && |r| == |Split(req.headers["Accept-Encoding"], ",")|
      && forall i :: 0 <= i < |r| ==> PaddedBy(Split(req.headers["Accept-Encoding"], ",")[i], r[i], IsSpace)
  {
    if "Accept-Encoding" in req.headers then
      var pieces := Split(req.headers["Accept-Encoding"], ",");
      SplitCharCount(req.headers["Accept-Encoding"], ',');
      SplitSpec(req.headers["Accept-Encoding"], ",");
      NoCommaAfterTrimAll(pieces);
      TrimPaddingAll(pieces);
      seq(|pieces|, i requires 0 <= i < |pieces| => TrimSpace(pieces[i]))
    else []
  }

  lemma NoCommaAfterTrim(piece: string)
    requires !Contains(piece, ",")
    ensures ',' !in TrimSpace(piece)
  {
    ContainsChar(piece, ',');
    var i := LeadingRun(piece, IsSpace);
    var r := TrimSpace(piece);
    assert r == piece[i..i + |r|];
  }

  lemma NoCommaAfterTrimAll(pieces: seq<string>)
    requires forall i :: 0 <= i < |pieces| ==> !Contains(pieces[i], ",")
    ensures forall i :: 0 <= i < |pieces| ==> ',' !in TrimSpace(pieces[i])
  {
    forall i | 0 <= i < |pieces| ensures ',' !in TrimSpace(pieces[i]) {
      NoCommaAfterTrim(pieces[i]);
    }
  }

  lemma TrimPaddingAll(pieces: seq<string>)
    ensures forall i :: 0 <= i < |pieces| ==> PaddedBy(pieces[i], TrimSpace(pieces[i]), IsSpace)
  {
    forall i | 0 <= i < |pieces| ensures PaddedBy(pieces[i], TrimSpace(pieces[i]), IsSpace) {
      TrimPadding(pieces[i], IsSpace);
    }
  }

  /** Without whitespace in the header, joining the codings with commas gives the header
      value back. */
  lemma EncodingsJoin(req: Request)
    requires "Accept-Encoding" in req.headers
    requires forall i :: 0 <= i < |req.headers["Accept-Encoding"]| ==> !IsSpace(req.headers["Accept-Encoding"][i])
    ensures Join(Encodings(req), ",") == req.headers["Accept-Encoding"]
  {
    var v := req.headers["Accept-Encoding"];
    var pieces := Split(v, ",");
    SplitSpec(v, ",");
    forall i | 0 <= i < |pieces|
      ensures TrimSpace(pieces[i]) == pieces[i]
    {
      JoinedPieceNoSpace(pieces, ",", i, v);
      TrimTrimmed(pieces[i], IsSpace);
    }
    assert Encodings(req) == pieces;
  }

  /** Each piece of a split is part of the text that was split. */
  lemma {:induction false} JoinedPieceNoSpace(parts: seq<string>, sep: string, i: nat, whole: string)
    requires i < |parts| && Join(parts, sep) == whole
    requires forall k :: 0 <= k < |whole| ==> !IsSpace(whole[k])
    ensures forall k :: 0 <= k < |parts[i]| ==> !IsSpace(parts[i][k])
    decreases |parts|
  {
    if |parts| > 1 {
      var rest := Join(parts[1..], sep);
      assert whole == parts[0] + sep + rest;
      if i == 0 {
        forall k | 0 <= k < |parts[0]| ensures !IsSpace(parts[0][k]) {
          assert whole[k] == parts[0][k];
        }
      } else {
        forall k | 0 <= k < |rest| ensures !IsSpace(rest[k]) {
          assert whole[|parts[0]| + |sep| + k] == rest[k];
        }
        JoinedPieceNoSpace(parts[1..], sep, i - 1, rest);
      }
    }
  }
}
