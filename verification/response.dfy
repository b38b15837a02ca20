/** The response serialisers of `http/response.go`, `app/http/response.go` and
    `app/response.go` (RFC 9112 sections 4 and 6.2), as one serialiser with a `Flavour`
    parameter that selects where the three differ. */
module Response {
  import opened Results
  import opened Text
  import opened Numbers

  /** A response as the handlers build it. `http/response.go` keeps the protocol in an
      unexported field; the other two files export it as `Protocol`. */
  datatype Response = Response(
    protocol: string,
    statusCode: int,
    headers: map<string, string>,
    body: string)

  /** Where the three serialisers differ: whether the status code is followed by a reason
      phrase from the status table, and whether a caller-set `Content-Length` replaces the
      computed one. */
  datatype Flavour = Flavour(reasonPhrases: bool, callerLength: bool)

  /** `http/response.go`. */
  const RootHttp: Flavour := Flavour(true, true)
  /** `app/http/response.go`. */
  const AppHttp: Flavour := Flavour(true, false)
  /** `app/response.go`. */
  const AppMain: Flavour := Flavour(false, false)

  const DefaultProtocol: string := "HTTP/1.1"

  /** `NewResponse` of `http/response.go`. */
  function NewResponse(): Response {
    Response(DefaultProtocol, 0, map[], "")
  }

  /** `strProtocol` / `HTTPProtocol`: the stored protocol, `HTTP/1.1` when it is empty. */
  function Protocol(r: Response): (p: string)
    ensures |p| > 0
    ensures r.protocol != "" ==> p == r.protocol
    ensures r.protocol == "" ==> p == DefaultProtocol
  {
    if r.protocol == "" then DefaultProtocol else r.protocol
  }

  /** The `statusMap` table of reason phrases (RFC 9110 section 15). */
  function ReasonPhrase(code: int): Option<string> {
    if code == 200 then Some("OK")
    else if code == 201 then Some("Created")
    else if code == 404 then Some("Not Found")
    else None
  }

  /** `strStatus` / `Status`: the decimal code, followed by a space and the reason phrase
      when the flavour looks one up and the table has it. `app/response.go` prints the
      bare code. */
  function StatusText(f: Flavour, code: int): string {
    if f.reasonPhrases && ReasonPhrase(code).Some? then IntToDecimal(code) + " " + ReasonPhrase(code).value
    else IntToDecimal(code)
  }

  /** The status line without its CRLF. */
  function StatusLineText(f: Flavour, r: Response): string {
    Protocol(r) + " " + StatusText(f, r.statusCode)
  }

  /** One header line without its CRLF, as `"%s: %s"` prints it. */
  function FieldText(name: string, value: string): string {
    name + ": " + value
  }

  /** Each text followed by CRLF, in order. */
  function Lines(texts: seq<string>): string
    decreases |texts|
  {
    if |texts| == 0 then "" else texts[0] + CRLF + Lines(texts[1..])
  }

  /** The header lines in the order that the `range` loop visits the keys. */
  function FieldTexts(headers: map<string, string>, order: seq<string>): (texts: seq<string>)
    requires forall i :: 0 <= i < |order| ==> order[i] in headers
    ensures |texts| == |order|
    ensures forall i :: 0 <= i < |order| ==> texts[i] == FieldText(order[i], headers[order[i]])
  {
    seq(|order|, i requires 0 <= i < |order| => FieldText(order[i], headers[order[i]]))
  }

  /** When `order` visits every key once, the header lines are one per entry of the map:
      as many lines as entries, every entry's line among them, and every line some
      entry's. */
  lemma FieldTextsCover(headers: map<string, string>, order: seq<string>)
    requires Enumerates(order, headers.Keys)
    ensures |FieldTexts(headers, order)| == |headers|
    ensures forall k :: k in headers ==>
      exists i :: 0 <= i < |FieldTexts(headers, order)| && FieldTexts(headers, order)[i] == FieldText(k, headers[k])
    ensures forall i :: 0 <= i < |FieldTexts(headers, order)| ==>
      exists k :: k in headers && FieldTexts(headers, order)[i] == FieldText(k, headers[k])
  {
    EnumerationLength(order, headers.Keys);
    forall k | k in headers
      ensures exists i :: 0 <= i < |FieldTexts(headers, order)| && FieldTexts(headers, order)[i] == FieldText(k, headers[k])
    {
      FieldTextOf(headers, order, k);
    }
  }

  /** An entry whose key `order` visits has its line among the header lines. */
  lemma FieldTextOf(headers: map<string, string>, order: seq<string>, k: string)
    requires forall i :: 0 <= i < |order| ==> order[i] in headers
    requires k in headers && k in order
    ensures exists i :: 0 <= i < |FieldTexts(headers, order)| && FieldTexts(headers, order)[i] == FieldText(k, headers[k])
  {
    var i :| 0 <= i < |order| && order[i] == k;
    assert FieldTexts(headers, order)[i] == FieldText(k, headers[k]);
  }

  /** The serialiser adds its own `Content-Length` line: always in `app/http/response.go`
      and `app/response.go`, only when the caller set none in `http/response.go`. */
  predicate LengthAdded(f: Flavour, r: Response) {
    !(f.callerLength && "Content-Length" in r.headers)
  }

  /** The computed `Content-Length` value (RFC 9110 section 8.6): the body length in
      decimal. */
  function LengthValue(r: Response): string {
    IntToDecimal(|r.body|)
  }

  /** What follows the user headers: the computed `Content-Length` line and the blank line,
      or the blank line alone. */
  function LengthLines(f: Flavour, r: Response): string {
    if LengthAdded(f, r) then FieldText("Content-Length", LengthValue(r)) + CRLF + CRLF else CRLF
  }

  /** `Response.Bytes`: the status line, one line per header entry in `order`, the length
      line and blank line, then the body verbatim. */
  function Bytes(f: Flavour, r: Response, order: seq<string>): string
    requires Enumerates(order, r.headers.Keys)
  {
    StatusLineText(f, r) + CRLF + Lines(FieldTexts(r.headers, order)) + LengthLines(f, r) + r.body
  }

  /** The output starts with the status line and its CRLF, and ends with the length
      lines (the computed `Content-Length` line when one is added, then the blank line)
      followed by the body. */
  lemma BytesShape(f: Flavour, r: Response, order: seq<string>)
    requires Enumerates(order, r.headers.Keys)
    ensures var out := Bytes(f, r, order);
      && |StatusLineText(f, r) + CRLF| <= |out|
      && out[..|StatusLineText(f, r) + CRLF|] == StatusLineText(f, r) + CRLF
      && |r.body| + |LengthLines(f, r)| <= |out|
      && out[|out| - |r.body|..] == r.body
      && out[|out| - |r.body| - |LengthLines(f, r)|..|out| - |r.body|] == LengthLines(f, r)
  {
    var status := StatusLineText(f, r) + CRLF;
    var out := Bytes(f, r, order);
    assert out == status + Lines(FieldTexts(r.headers, order)) + LengthLines(f, r) + r.body;
    assert out[..|status|] == status;
    assert out[|out| - |r.body|..] == r.body;
    assert out[|out| - |r.body| - |LengthLines(f, r)|..|out| - |r.body|] == LengthLines(f, r);
  }

  // ----- properties -----

  /** The table's three codes get their reason phrase when the flavour looks one up; a
      code outside the table, or any code in `app/response.go`, is the bare decimal. */
  lemma StatusTexts(f: Flavour)
    ensures f.reasonPhrases ==>
      && StatusText(f, 200) == "200 OK"
      && StatusText(f, 201) == "201 Created"
      && StatusText(f, 404) == "404 Not Found"
    ensures !f.reasonPhrases ==> StatusText(f, 200) == "200" && StatusText(f, 404) == "404"
    ensures StatusText(f, 204) == "204" && StatusText(f, 202) == "202"
  {
    CodeDecimals();
    if f.reasonPhrases {
      PhraseTexts(f);
    }
  }

  /** The decimal spellings of the codes the examples use. */
  lemma CodeDecimals()
    ensures IntToDecimal(200) == "200" && IntToDecimal(201) == "201" && IntToDecimal(202) == "202"
    ensures IntToDecimal(204) == "204" && IntToDecimal(404) == "404"
  {
  }

  lemma PhraseTexts(f: Flavour)
    requires f.reasonPhrases
    ensures StatusText(f, 200) == "200 OK"
    ensures StatusText(f, 201) == "201 Created"
    ensures StatusText(f, 404) == "404 Not Found"
  {
    CodeDecimals();
  }

  /** Without a reason phrase the status text is the code in decimal. */
  lemma BareStatus(f: Flavour, code: int)
    requires !f.reasonPhrases || (code != 200 && code != 201 && code != 404)
    ensures StatusText(f, code) == IntToDecimal(code)
  {
  }

  /** An empty protocol is written as `HTTP/1.1`: the output is the one the response
      would give with that protocol set. */
  lemma EmptyProtocolIsDefault(f: Flavour, r: Response, order: seq<string>)
    requires Enumerates(order, r.headers.Keys) && r.protocol == ""
    ensures Bytes(f, r, order) == Bytes(f, r.(protocol := DefaultProtocol), order)
    ensures Bytes(f, r, order)[..|DefaultProtocol| + 1] == DefaultProtocol + " "
  {
    DefaultSameParts(f, r);
    StartsWith(DefaultProtocol + " ", StatusText(f, r.statusCode) + CRLF
      + Lines(FieldTexts(r.headers, order)) + LengthLines(f, r) + r.body);
  }

  /** Only the protocol differs, and it is written the same way. */
  lemma DefaultSameParts(f: Flavour, r: Response)
    requires r.protocol == ""
    ensures StatusLineText(f, r) == StatusLineText(f, r.(protocol := DefaultProtocol))
    ensures StatusLineText(f, r) == DefaultProtocol + " " + StatusText(f, r.statusCode)
    ensures LengthLines(f, r) == LengthLines(f, r.(protocol := DefaultProtocol))
  {
  }

  lemma StartsWith(a: string, b: string)
    ensures (a + b)[..|a|] == a
  {
  }

  /** With at most one header entry there is only one visit order, so the output is fixed. */
  lemma FewHeadersDeterministic(f: Flavour, r: Response, o1: seq<string>, o2: seq<string>)
    requires Enumerates(o1, r.headers.Keys) && Enumerates(o2, r.headers.Keys)
    requires |r.headers| <= 1
    ensures Bytes(f, r, o1) == Bytes(f, r, o2)
  {
    EnumerationLength(o1, r.headers.Keys);
    EnumerationLength(o2, r.headers.Keys);
    if |o1| == 1 {
      assert o1[0] in o2;
      assert o1 == [o1[0]] && o2 == [o2[0]];
    } else {
      assert o1 == [] && o2 == [];
    }
  }
}

