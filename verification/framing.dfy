/** Reading a serialised response back with the request parser's header and body stages:
    whatever order the header map is visited in, the parser recovers every header entry,
    the `Content-Length` framing and the body. */
module Framing {
  import opened Results
  import opened Text
  import opened Numbers
  import opened Request
  import opened Response

  predicate CrFree(s: string) {
    '\r' !in s
  }

  /** A field name or value the wire format can carry unchanged: no CR, no surrounding
      whitespace (the parser trims it), and for a name no `:`. */
  predicate FieldSafe(name: string, value: string) {
    && CrFree(name) && ':' !in name && Trimmed(name, IsSpace)
    && CrFree(value) && Trimmed(value, IsSpace)
  }

  /** A response whose protocol and header entries survive serialisation and parsing. */
  predicate WellFormed(r: Response) {
    && CrFree(r.protocol)
    && forall name :: name in r.headers ==> FieldSafe(name, r.headers[name])
  }

  /** The header map a reader of the output sees: the caller's entries plus the computed
      `Content-Length` when the serialiser adds one (the later line wins). */
  function Framed(f: Flavour, r: Response): map<string, string> {
    if LengthAdded(f, r) then r.headers["Content-Length" := LengthValue(r)] else r.headers
  }

  /** The lines of the head of the output, without their CRLFs. */
  function HeadTexts(f: Flavour, r: Response, order: seq<string>): seq<string>
    requires Enumerates(order, r.headers.Keys)
  {
    [StatusLineText(f, r)] + FieldTexts(r.headers, order)
      + (if LengthAdded(f, r) then [FieldText("Content-Length", LengthValue(r))] else [])
  }

  // ----- the output as lines -----

  lemma {:induction false} LinesAppend(a: seq<string>, b: seq<string>)
    ensures Lines(a + b) == Lines(a) + Lines(b)
    decreases |a|
  {
    if |a| > 0 {
      LinesAppend(a[1..], b);
      assert (a + b)[1..] == a[1..] + b;
    } else {
      assert a + b == b;
    }
  }

  /** The output is its head lines, each ended by CRLF, then a blank line and the body. */
  lemma BytesAsLines(f: Flavour, r: Response, order: seq<string>)
    requires Enumerates(order, r.headers.Keys)
    ensures Bytes(f, r, order) == Lines(HeadTexts(f, r, order)) + CRLF + r.body
  {
    var status := [StatusLineText(f, r)];
    var fields := FieldTexts(r.headers, order);
    var length := if LengthAdded(f, r) then [FieldText("Content-Length", LengthValue(r))] else [];
    assert HeadTexts(f, r, order) == status + fields + length;
    LinesAppend(status, fields);
    LinesAppend(status + fields, length);
    assert Lines(status) == StatusLineText(f, r) + CRLF by {
      assert status[1..] == [];
    }
    assert Lines(length) + CRLF == LengthLines(f, r) by {
      if LengthAdded(f, r) {
        assert length[1..] == [];
      }
    }
    BytesParts(f, r, order);
    Regroup(Lines(status), Lines(fields), Lines(length), LengthLines(f, r), r.body);
  }

  lemma BytesParts(f: Flavour, r: Response, order: seq<string>)
    requires Enumerates(order, r.headers.Keys)
    ensures Bytes(f, r, order) == StatusLineText(f, r) + CRLF + Lines(FieldTexts(r.headers, order)) + LengthLines(f, r) + r.body
  {
  }

  lemma Regroup(a: string, b: string, c: string, ll: string, body: string)
    requires c + CRLF == ll
    ensures a + b + ll + body == (a + b + c) + CRLF + body
  {
  }

  /** Splitting CR-free lines followed by a blank line gives the lines back. */
  lemma {:induction false} SplitLines(texts: seq<string>, rest: string)
    requires forall i :: 0 <= i < |texts| ==> CrFree(texts[i])
    ensures Split(Lines(texts) + CRLF + rest, CRLF) == texts + [""] + Split(rest, CRLF)
    decreases |texts|
  {
    if |texts| == 0 {
      assert Lines(texts) + CRLF + rest == "" + CRLF + rest;
      SplitAfterLine("", rest);
    } else {
      var t := texts[0];
      SplitLines(texts[1..], rest);
      CrFreeHasNoCrlf(t);
      assert Lines(texts) + CRLF + rest == t + CRLF + (Lines(texts[1..]) + CRLF + rest);
      SplitAfterLine(t, Lines(texts[1..]) + CRLF + rest);
      assert texts == [t] + texts[1..];
    }
  }

  lemma CrFreeHasNoCrlf(s: string)
    requires CrFree(s)
    ensures !Contains(s, CRLF)
  {
    forall i | 0 <= i <= |s| - 2 ensures !OccursAt(s, CRLF, i) {
      assert s[i..i + 2][0] == s[i];
    }
  }

  /** Header scanning over non-empty lines followed by an empty one stops at the empty one. */
  lemma {:induction false} BlockEndOfLines(texts: seq<string>, rest: seq<string>)
    requires forall i :: 0 <= i < |texts| ==> |texts[i]| > 0
    ensures BlockEnd(texts + [""] + rest) == |texts|
    decreases |texts|
  {
    if |texts| > 0 {
      BlockEndOfLines(texts[1..], rest);
      assert (texts + [""] + rest)[1..] == texts[1..] + [""] + rest;
    }
  }

  lemma DropFirst<T>(a: seq<T>, b: seq<T>)
    requires |a| > 0
    ensures (a + b)[1..] == a[1..] + b
  {
  }

  // ----- header scanning -----

  /** Scanning one well-formed header line records its name and value unchanged. */
  lemma ScanFieldLine(name: string, value: string, tail: seq<string>, acc: map<string, string>)
    requires FieldSafe(name, value)
    ensures ScanHeaders([FieldText(name, value)] + tail, acc) == ScanHeaders(tail, acc[name := value])
  {
    var line := FieldText(name, value);
    FieldLineParts(name, value);
    TrimTrimmed(name, IsSpace);
    assert " " + value == [' '] + value;
    TrimAfterStripped(' ', value, IsSpace);
    assert ([line] + tail)[0] == line;
    assert ([line] + tail)[1..] == tail;
  }

  lemma FieldLineParts(name: string, value: string)
    requires ':' !in name
    ensures SplitN(FieldText(name, value), ":", 2) == [name, " " + value]
  {
    assert FieldText(name, value) == name + [':'] + (" " + value);
    SplitNAfterChar(name, ':', " " + value, 2);
  }

  /** Scanning the header lines of `order` records every entry of `order` on top of `acc`. */
  lemma {:induction false} ScanFieldTexts(h: map<string, string>, order: seq<string>, tail: seq<string>, acc: map<string, string>)
    requires forall i :: 0 <= i < |order| ==> order[i] in h && FieldSafe(order[i], h[order[i]])
    ensures ScanHeaders(FieldTexts(h, order) + tail, acc) == ScanHeaders(tail, acc + map k | k in order && k in h :: h[k])
    decreases |order|
  {
    var m := map k | k in order && k in h :: h[k];
    if |order| == 0 {
      assert FieldTexts(h, order) + tail == tail;
      assert acc + m == acc;
    } else {
      var k0 := order[0];
      var rest := order[1..];
      var m' := map k | k in rest && k in h :: h[k];
      assert FieldTexts(h, order) + tail == [FieldText(k0, h[k0])] + (FieldTexts(h, rest) + tail);
      ScanFieldLine(k0, h[k0], FieldTexts(h, rest) + tail, acc);
      ScanFieldTexts(h, rest, tail, acc[k0 := h[k0]]);
      MergeStep(h, order, acc);
    }
  }

  lemma MergeStep(h: map<string, string>, order: seq<string>, acc: map<string, string>)
    requires |order| > 0 && order[0] in h
    ensures acc[order[0] := h[order[0]]] + (map k | k in order[1..] && k in h :: h[k])
         == acc + (map k | k in order && k in h :: h[k])
  {
    var m := map k | k in order && k in h :: h[k];
    var m' := map k | k in order[1..] && k in h :: h[k];
    forall k | k in order ensures k == order[0] || k in order[1..] {
      var i :| 0 <= i < |order| && order[i] == k;
      if i > 0 { assert order[1..][i - 1] == k; }
    }
    assert m.Keys == m'.Keys + {order[0]};
  }

  /** Scanning stops, successfully, at an empty line. */
  lemma ScanBlank(rest: seq<string>, acc: map<string, string>)
    ensures ScanHeaders([""] + rest, acc) == Success(acc)
  {
  }

  // ----- the header terminator -----

  lemma OccursShifted(a: string, b: string, pat: string, q: int)
    requires 0 <= q
    ensures OccursAt(a + b, pat, |a| + q) <==> OccursAt(b, pat, q)
  {
    if OccursAt(b, pat, q) {
      assert (a + b)[|a| + q..|a| + q + |pat|] == b[q..q + |pat|];
    }
    if OccursAt(a + b, pat, |a| + q) {
      assert (a + b)[|a| + q..|a| + q + |pat|] == b[q..q + |pat|];
    }
  }

  /** A CR-free line followed by CRLF CRLF: the terminator sits right after the line. */
  lemma TerminatorAfterLastLine(t: string, rest: string)
    requires CrFree(t)
    ensures OccursAt(t + CRLF + CRLF + rest, HeaderTerminator, |t|)
    ensures forall p :: 0 <= p < |t| ==> !OccursAt(t + CRLF + CRLF + rest, HeaderTerminator, p)
  {
    var s := t + CRLF + CRLF + rest;
    assert s[|t|..|t| + 4] == HeaderTerminator;
    forall p | 0 <= p < |t| ensures !OccursAt(s, HeaderTerminator, p) {
      assert s[p..p + 4][0] == t[p];
    }
  }

  /** Putting a CR-free line and CRLF in front of text that does not start with CR moves its
      first terminator along and adds none in front. */
  lemma TerminatorAfterLine(t: string, tail: string, q: int)
    requires CrFree(t) && |tail| > 0 && tail[0] != '\r' && 0 <= q
    requires OccursAt(tail, HeaderTerminator, q)
    requires forall p :: 0 <= p < q ==> !OccursAt(tail, HeaderTerminator, p)
    ensures OccursAt(t + CRLF + tail, HeaderTerminator, |t| + 2 + q)
    ensures forall p :: 0 <= p < |t| + 2 + q ==> !OccursAt(t + CRLF + tail, HeaderTerminator, p)
  {
    var head := t + CRLF;
    var s := head + tail;
    assert s == t + CRLF + tail;
    OccursShifted(head, tail, HeaderTerminator, q);
    forall p | 0 <= p < |t| + 2 + q ensures !OccursAt(s, HeaderTerminator, p) {
      if p < |t| {
        assert s[p..p + 4][0] == t[p];
      } else if p == |t| {
        assert s[p..p + 4][2] == tail[0];
      } else if p == |t| + 1 {
        assert s[p..p + 4][0] == '\n';
      } else {
        OccursShifted(head, tail, HeaderTerminator, p - |head|);
      }
    }
  }

  /** After non-empty CR-free lines, the first CRLF CRLF is the one that ends the last line
      and opens the blank line. */
  lemma {:induction false} TerminatorAfterLines(texts: seq<string>, rest: string)
    requires |texts| >= 1
    requires forall i :: 0 <= i < |texts| ==> |texts[i]| > 0 && CrFree(texts[i])
    ensures |Lines(texts)| >= 2
    ensures OccursAt(Lines(texts) + CRLF + rest, HeaderTerminator, |Lines(texts)| - 2)
    ensures forall p :: 0 <= p < |Lines(texts)| - 2 ==> !OccursAt(Lines(texts) + CRLF + rest, HeaderTerminator, p)
    decreases |texts|
  {
    var t := texts[0];
    var tail := Lines(texts[1..]) + CRLF + rest;
    assert Lines(texts) + CRLF + rest == t + CRLF + tail;
    if |texts| == 1 {
      assert Lines(texts[1..]) == "";
      assert Lines(texts) == t + CRLF;
      assert Lines(texts) + CRLF + rest == t + CRLF + CRLF + rest;
      TerminatorAfterLastLine(t, rest);
    } else {
      TerminatorAfterLines(texts[1..], rest);
      assert Lines(texts[1..]) == texts[1] + CRLF + Lines(texts[2..]);
      assert tail[0] == texts[1][0];
      TerminatorAfterLine(t, tail, |Lines(texts[1..])| - 2);
    }
  }

  /** The first header terminator of the output ends the head, just before the body. */
  lemma TerminatorBeforeBody(f: Flavour, r: Response, order: seq<string>)
    requires WellFormed(r) && Enumerates(order, r.headers.Keys)
    ensures |r.body| + 4 <= |Bytes(f, r, order)|
    ensures IndexOf(Bytes(f, r, order), HeaderTerminator) == Some(|Bytes(f, r, order)| - |r.body| - 4)
  {
    var texts := HeadTexts(f, r, order);
    HeadTextsSafe(f, r, order);
    BytesAsLines(f, r, order);
    TerminatorAfterLines(texts, r.body);
    TerminatorFound(Bytes(f, r, order), Lines(texts), r.body);
  }

  lemma TerminatorFound(out: string, head: string, body: string)
    requires |head| >= 2 && out == head + CRLF + body
    requires OccursAt(out, HeaderTerminator, |head| - 2)
    requires forall p :: 0 <= p < |head| - 2 ==> !OccursAt(out, HeaderTerminator, p)
    ensures |body| + 4 <= |out|
    ensures IndexOf(out, HeaderTerminator) == Some(|out| - |body| - 4)
  {
    assert |out| - |body| - 4 == |head| - 2;
    IndexOfIsFirst(out, HeaderTerminator, |head| - 2);
  }

  // ----- facts about the head lines -----

  lemma DecimalSafe(n: nat)
    ensures FieldSafe("Content-Length", IntToDecimal(n))
  {
    var d := IntToDecimal(n);
    assert forall i :: 0 <= i < |d| ==> d[i] != '\r' by {
      forall i | 0 <= i < |d| ensures d[i] != '\r' { assert IsDigit(d[i]); }
    }
    assert IsDigit(d[0]) && IsDigit(d[|d| - 1]);
  }

  lemma DecimalCrFree(n: int)
    ensures CrFree(IntToDecimal(n))
  {
    var d := IntToDecimal(n);
    forall i | 0 <= i < |d| ensures d[i] != '\r' {
      if n < 0 && i > 0 { assert d[1..][i - 1] == d[i]; assert IsDigit(d[1..][i - 1]); }
    }
  }

  /** Every head line is non-empty and CR-free. */
  lemma HeadTextsSafe(f: Flavour, r: Response, order: seq<string>)
    requires WellFormed(r) && Enumerates(order, r.headers.Keys)
    ensures var texts := HeadTexts(f, r, order);
      |texts| >= 1 && forall i :: 0 <= i < |texts| ==> |texts[i]| > 0 && CrFree(texts[i])
  {
    var status, fields, length := [StatusLineText(f, r)], FieldTexts(r.headers, order), LengthTexts(f, r);
    StatusLineSafe(f, r);
    FieldTextsSafe(r, order);
    LengthTextsSafe(f, r);
    assert HeadTexts(f, r, order) == status + fields + length;
    LinesSafeAppend(status, fields, length);
  }

  /** A non-empty, CR-free line. */
  predicate LineSafe(text: string) {
    |text| > 0 && CrFree(text)
  }

  lemma LinesSafeAppend(a: seq<string>, b: seq<string>, c: seq<string>)
    requires forall i :: 0 <= i < |a| ==> LineSafe(a[i])
    requires forall i :: 0 <= i < |b| ==> LineSafe(b[i])
    requires forall i :: 0 <= i < |c| ==> LineSafe(c[i])
    ensures forall i :: 0 <= i < |a + b + c| ==> |(a + b + c)[i]| > 0 && CrFree((a + b + c)[i])
  {
    forall i | 0 <= i < |a + b + c| ensures LineSafe((a + b + c)[i]) {
      if i < |a| {
        assert (a + b + c)[i] == a[i];
      } else if i < |a| + |b| {
        assert (a + b + c)[i] == b[i - |a|];
      } else {
        assert (a + b + c)[i] == c[i - |a| - |b|];
      }
    }
  }

  lemma StatusLineSafe(f: Flavour, r: Response)
    requires WellFormed(r)
    ensures forall i :: 0 <= i < |[StatusLineText(f, r)]| ==> LineSafe([StatusLineText(f, r)][i])
  {
    DecimalCrFree(r.statusCode);
    assert CrFree(StatusText(f, r.statusCode));
    assert LineSafe(StatusLineText(f, r));
  }

  lemma FieldTextsSafe(r: Response, order: seq<string>)
    requires WellFormed(r) && Enumerates(order, r.headers.Keys)
    ensures forall i :: 0 <= i < |FieldTexts(r.headers, order)| ==> LineSafe(FieldTexts(r.headers, order)[i])
  {
    var fields := FieldTexts(r.headers, order);
    forall i | 0 <= i < |fields| ensures LineSafe(fields[i]) {
      assert FieldSafe(order[i], r.headers[order[i]]);
    }
  }

  lemma LengthTextsSafe(f: Flavour, r: Response)
    ensures forall i :: 0 <= i < |LengthTexts(f, r)| ==> LineSafe(LengthTexts(f, r)[i])
  {
    DecimalSafe(|r.body|);
  }

  // ----- the round trip -----

  /** The output splits into its head lines, an empty line, and the pieces of the body. */
  lemma OutputLines(f: Flavour, r: Response, order: seq<string>)
    requires WellFormed(r) && Enumerates(order, r.headers.Keys)
    ensures Split(Bytes(f, r, order), CRLF) == HeadTexts(f, r, order) + [""] + Split(r.body, CRLF)
  {
    HeadTextsSafe(f, r, order);
    BytesAsLines(f, r, order);
    SplitLines(HeadTexts(f, r, order), r.body);
  }

  /** Scanning the header lines and the blank line after them yields the framed map. */
  lemma ScanHead(f: Flavour, r: Response, order: seq<string>, rest: seq<string>)
    requires WellFormed(r) && Enumerates(order, r.headers.Keys)
    ensures ScanHeaders(HeadTexts(f, r, order)[1..] + [""] + rest, map[]) == Success(Framed(f, r))
  {
    var tail := LengthTexts(f, r) + ([""] + rest);
    HeadTail(f, r, order, rest);
    ScanFields(r, order, tail);
    ScanLength(f, r, rest);
  }

  /** The computed `Content-Length` line, when the serialiser adds one. */
  function LengthTexts(f: Flavour, r: Response): seq<string> {
    if LengthAdded(f, r) then [FieldText("Content-Length", LengthValue(r))] else []
  }

  lemma HeadTail(f: Flavour, r: Response, order: seq<string>, rest: seq<string>)
    requires Enumerates(order, r.headers.Keys)
    ensures HeadTexts(f, r, order)[1..] + [""] + rest
         == FieldTexts(r.headers, order) + (LengthTexts(f, r) + ([""] + rest))
  {
    assert HeadTexts(f, r, order)[1..] == FieldTexts(r.headers, order) + LengthTexts(f, r);
  }

  /** Scanning the user header lines adds exactly the user headers. */
  lemma ScanFields(r: Response, order: seq<string>, tail: seq<string>)
    requires WellFormed(r) && Enumerates(order, r.headers.Keys)
    ensures ScanHeaders(FieldTexts(r.headers, order) + tail, map[]) == ScanHeaders(tail, r.headers)
  {
    var h := r.headers;
    forall i | 0 <= i < |order| ensures order[i] in h && FieldSafe(order[i], h[order[i]]) { }
    ScanFieldTexts(h, order, tail, map[]);
    MapOfEnumeration(h, order);
  }

  /** Scanning the computed length line, if any, and the blank line gives the framed map. */
  lemma ScanLength(f: Flavour, r: Response, rest: seq<string>)
    requires WellFormed(r)
    ensures ScanHeaders(LengthTexts(f, r) + ([""] + rest), r.headers) == Success(Framed(f, r))
  {
    var after := [""] + rest;
    if LengthAdded(f, r) {
      DecimalSafe(|r.body|);
      ScanFieldLine("Content-Length", LengthValue(r), after, r.headers);
    } else {
      assert LengthTexts(f, r) + after == after;
    }
    ScanBlank(rest, Framed(f, r));
  }

  lemma MapOfEnumeration(h: map<string, string>, order: seq<string>)
    requires Enumerates(order, h.Keys)
    ensures map[] + (map k | k in order && k in h :: h[k]) == h
  {
    var m := map k | k in order && k in h :: h[k];
    assert m.Keys == h.Keys;
  }

  /** Splitting the output into lines gives the status line first, one header line per
      header entry (plus the computed `Content-Length` line when one is added), and the
      parser's header scan recovers exactly the framed header map, in every visit order. */
  lemma ReadBackHeaders(f: Flavour, r: Response, order: seq<string>)
    requires WellFormed(r) && Enumerates(order, r.headers.Keys)
    ensures var lines := Split(Bytes(f, r, order), CRLF);
      && |lines| >= 1 && lines[0] == StatusLineText(f, r)
      && |HeaderBlock(lines)| == |r.headers| + (if LengthAdded(f, r) then 1 else 0)
      && ScanHeaders(lines[1..], map[]) == Success(Framed(f, r))
  {
    var texts := HeadTexts(f, r, order);
    var rest := Split(r.body, CRLF);
    OutputLines(f, r, order);
    HeaderLinesOfOutput(f, r, order);
    BlockOfOutput(f, r, order);
    ScanHead(f, r, order, rest);
  }

  lemma HeaderLinesOfOutput(f: Flavour, r: Response, order: seq<string>)
    requires WellFormed(r) && Enumerates(order, r.headers.Keys)
    requires Split(Bytes(f, r, order), CRLF) == HeadTexts(f, r, order) + [""] + Split(r.body, CRLF)
    ensures Split(Bytes(f, r, order), CRLF)[1..] == HeadTexts(f, r, order)[1..] + [""] + Split(r.body, CRLF)
  {
    DropFirstLine(Split(Bytes(f, r, order), CRLF), HeadTexts(f, r, order), Split(r.body, CRLF));
  }

  lemma DropFirstLine(lines: seq<string>, head: seq<string>, rest: seq<string>)
    requires |head| >= 1 && lines == head + [""] + rest
    ensures lines[1..] == head[1..] + [""] + rest
  {
  }

  lemma BlockOfOutput(f: Flavour, r: Response, order: seq<string>)
    requires WellFormed(r) && Enumerates(order, r.headers.Keys)
    requires Split(Bytes(f, r, order), CRLF)[1..] == HeadTexts(f, r, order)[1..] + [""] + Split(r.body, CRLF)
    ensures |HeaderBlock(Split(Bytes(f, r, order), CRLF))| == |r.headers| + (if LengthAdded(f, r) then 1 else 0)
  {
    var texts := HeadTexts(f, r, order);
    HeadTextsSafe(f, r, order);
    forall i | 0 <= i < |texts[1..]| ensures |texts[1..][i]| > 0 {
      assert texts[1..][i] == texts[i + 1];
    }
    BlockEndOfLines(texts[1..], Split(r.body, CRLF));
    EnumerationLength(order, r.headers.Keys);
  }

  lemma BodyAt(out: string, headers: map<string, string>, start: nat, body: string)
    requires 4 <= start && start + |body| <= |out| && IndexOf(out, HeaderTerminator) == Some(start - 4)
    requires out[start..start + |body|] == body
    requires "Content-Length" in headers && Atoi(headers["Content-Length"]) == Some(|body|)
    ensures BodyFits(out, headers)
    ensures ReadBody(out, headers) == Success(body)
  {
    ReadBodyAt(out, headers, start, |body|);
  }

  lemma TailSlice(out: string, body: string, start: nat)
    requires start + |body| == |out| && out[start..] == body
    ensures out[start..start + |body|] == body
  {
  }

  lemma FramedLength(f: Flavour, r: Response)
    requires |r.body| <= MaxInt64
    requires !LengthAdded(f, r) ==> Atoi(r.headers["Content-Length"]) == Some(|r.body|)
    ensures "Content-Length" in Framed(f, r) && Atoi(Framed(f, r)["Content-Length"]) == Some(|r.body|)
  {
    AtoiOfDecimal(|r.body|);
  }

  /** The parser's body stage, given the framed headers, reads back exactly the body:
      always when the serialiser computed the length, and when the caller set it, exactly
      when that value reads as the body's length. */
  lemma ReadBackBody(f: Flavour, r: Response, order: seq<string>)
    requires WellFormed(r) && Enumerates(order, r.headers.Keys)
    requires |r.body| <= MaxInt64
    requires !LengthAdded(f, r) ==> Atoi(r.headers["Content-Length"]) == Some(|r.body|)
    ensures BodyFits(Bytes(f, r, order), Framed(f, r))
    ensures ReadBody(Bytes(f, r, order), Framed(f, r)) == Success(r.body)
  {
    var out := Bytes(f, r, order);
    TerminatorBeforeBody(f, r, order);
    BytesShape(f, r, order);
    FramedLength(f, r);
    var start := |out| - |r.body|;
    TailSlice(out, r.body, start);
    BodyAt(out, Framed(f, r), start, r.body);
  }

  // ----- requests -----

  /** The request line without its CRLF. */
  function RequestLine(verb: string, path: string, protocol: string): string {
    verb + " " + path + " " + protocol
  }

  /** A request written the way the parser reads it: the request line, one header line per
      entry in `order`, a blank line, the body, then any further bytes (the server hands the
      parser a zero-padded read buffer). */
  function RequestText(verb: string, path: string, protocol: string, headers: map<string, string>,
                       order: seq<string>, body: string, padding: string): string
    requires Enumerates(order, headers.Keys)
  {
    Lines([RequestLine(verb, path, protocol)] + FieldTexts(headers, order)) + CRLF + (body + padding)
  }

  /** Request parts the wire format can carry: a method and a path without spaces, no CR
      in the request line, and header entries that survive trimming. */
  predicate RequestWritable(verb: string, path: string, protocol: string, headers: map<string, string>) {
    && ' ' !in verb && ' ' !in path
    && CrFree(verb) && CrFree(path) && CrFree(protocol)
    && forall name :: name in headers ==> FieldSafe(name, headers[name])
  }

  /** The request line splits back into its three parts; the protocol may hold spaces. */
  lemma RequestLineSplits(verb: string, path: string, protocol: string)
    requires ' ' !in verb && ' ' !in path
    ensures SplitN(RequestLine(verb, path, protocol), " ", 3) == [verb, path, protocol]
  {
    assert RequestLine(verb, path, protocol) == verb + [' '] + (path + [' '] + protocol);
    SplitNAfterChar(verb, ' ', path + [' '] + protocol, 3);
    SplitNAfterChar(path, ' ', protocol, 2);
  }

  lemma RequestLinesSafe(verb: string, path: string, protocol: string, headers: map<string, string>, order: seq<string>)
    requires RequestWritable(verb, path, protocol, headers) && Enumerates(order, headers.Keys)
    ensures var texts := [RequestLine(verb, path, protocol)] + FieldTexts(headers, order);
      forall i :: 0 <= i < |texts| ==> |texts[i]| > 0 && CrFree(texts[i])
  {
    var line := [RequestLine(verb, path, protocol)];
    FieldTextsSafe(Response("", 200, headers, ""), order);
    assert LineSafe(line[0]);
    LinesSafeAppend(line, FieldTexts(headers, order), []);
    assert line + FieldTexts(headers, order) + [] == line + FieldTexts(headers, order);
  }

  /** The stages of the parser on a written request: the request line first, the header
      scan recovering the map, and the first terminator just before the body. */
  lemma RequestStages(verb: string, path: string, protocol: string, headers: map<string, string>,
                      order: seq<string>, body: string, padding: string)
    requires RequestWritable(verb, path, protocol, headers) && Enumerates(order, headers.Keys)
    ensures var data := RequestText(verb, path, protocol, headers, order, body, padding);
      var lines := Split(data, CRLF);
      && SplitN(lines[0], " ", 3) == [verb, path, protocol]
      && ScanHeaders(lines[1..], map[]) == Success(headers)
      && |body + padding| + 4 <= |data|
      && IndexOf(data, HeaderTerminator) == Some(|data| - |body + padding| - 4)
  {
    RequestLines(verb, path, protocol, headers, order, body, padding);
    RequestLineSplits(verb, path, protocol);
    RequestScan(headers, order, Split(body + padding, CRLF));
    RequestTerminator(verb, path, protocol, headers, order, body, padding);
  }

  lemma RequestLines(verb: string, path: string, protocol: string, headers: map<string, string>,
                     order: seq<string>, body: string, padding: string)
    requires RequestWritable(verb, path, protocol, headers) && Enumerates(order, headers.Keys)
    ensures var lines := Split(RequestText(verb, path, protocol, headers, order, body, padding), CRLF);
      && lines[0] == RequestLine(verb, path, protocol)
      && lines[1..] == FieldTexts(headers, order) + [""] + Split(body + padding, CRLF)
  {
    var texts := [RequestLine(verb, path, protocol)] + FieldTexts(headers, order);
    RequestLinesSafe(verb, path, protocol, headers, order);
    SplitLinesTail(texts, body + padding);
    DropFirst([RequestLine(verb, path, protocol)], FieldTexts(headers, order));
  }

  /** The first piece and the remaining pieces of split lines. */
  lemma SplitLinesTail(texts: seq<string>, rest: string)
    requires |texts| > 0
    requires forall i :: 0 <= i < |texts| ==> CrFree(texts[i])
    ensures Split(Lines(texts) + CRLF + rest, CRLF)[0] == texts[0]
    ensures Split(Lines(texts) + CRLF + rest, CRLF)[1..] == texts[1..] + [""] + Split(rest, CRLF)
  {
    SplitLines(texts, rest);
    HeadAndTail(Split(Lines(texts) + CRLF + rest, CRLF), texts, Split(rest, CRLF));
  }

  lemma HeadAndTail(pieces: seq<string>, texts: seq<string>, more: seq<string>)
    requires |texts| > 0 && pieces == texts + [""] + more
    ensures pieces[0] == texts[0] && pieces[1..] == texts[1..] + [""] + more
  {
    DropFirst(texts, [""] + more);
    assert texts + [""] + more == texts + ([""] + more);
    assert texts[1..] + [""] + more == texts[1..] + ([""] + more);
  }

  lemma RequestScan(headers: map<string, string>, order: seq<string>, rest: seq<string>)
    requires Enumerates(order, headers.Keys)
    requires forall name :: name in headers ==> FieldSafe(name, headers[name])
    ensures ScanHeaders(FieldTexts(headers, order) + [""] + rest, map[]) == Success(headers)
  {
    forall i | 0 <= i < |order| ensures order[i] in headers && FieldSafe(order[i], headers[order[i]]) { }
    assert FieldTexts(headers, order) + [""] + rest == FieldTexts(headers, order) + ([""] + rest);
    ScanFieldTexts(headers, order, [""] + rest, map[]);
    MapOfEnumeration(headers, order);
    ScanBlank(rest, headers);
  }

  lemma RequestTerminator(verb: string, path: string, protocol: string, headers: map<string, string>,
                          order: seq<string>, body: string, padding: string)
    requires RequestWritable(verb, path, protocol, headers) && Enumerates(order, headers.Keys)
    ensures var data := RequestText(verb, path, protocol, headers, order, body, padding);
      && |body + padding| + 4 <= |data|
      && IndexOf(data, HeaderTerminator) == Some(|data| - |body + padding| - 4)
  {
    var texts := [RequestLine(verb, path, protocol)] + FieldTexts(headers, order);
    var rest := body + padding;
    var data := RequestText(verb, path, protocol, headers, order, body, padding);
    assert data == Lines(texts) + CRLF + rest;
    RequestLinesSafe(verb, path, protocol, headers, order);
    TerminatorAfterLines(texts, rest);
    IndexOfIsFirst(data, HeaderTerminator, |Lines(texts)| - 2);
  }

  /** Writing a request and parsing it back gives the same method, path, protocol and
      headers, no parameters, and the body when `Content-Length` gives its length (none
      when the header is absent), whatever order the headers were written in and whatever
      bytes follow. */
  lemma ParseRequestRoundTrip(verb: string, path: string, protocol: string, headers: map<string, string>,
                              order: seq<string>, body: string, padding: string)
    requires RequestWritable(verb, path, protocol, headers) && Enumerates(order, headers.Keys)
    requires "Content-Length" in headers ==> Atoi(headers["Content-Length"]) == Some(|body|)
    ensures ParseSafe(RequestText(verb, path, protocol, headers, order, body, padding))
    ensures ParseRequest(RequestText(verb, path, protocol, headers, order, body, padding))
         == Success(Request(verb, path, protocol, headers, if "Content-Length" in headers then body else "", map[]))
  {
    var data := RequestText(verb, path, protocol, headers, order, body, padding);
    RequestStages(verb, path, protocol, headers, order, body, padding);
    RequestTextEnds(verb, path, protocol, headers, order, body, padding);
    BodyOfSuffix(data, headers, body, padding);
    ParseRequestFrom(data, verb, path, protocol, headers, if "Content-Length" in headers then body else "");
  }

  /** The written request ends with the body and the bytes after it. */
  lemma RequestTextEnds(verb: string, path: string, protocol: string, headers: map<string, string>,
                        order: seq<string>, body: string, padding: string)
    requires Enumerates(order, headers.Keys)
    ensures var data := RequestText(verb, path, protocol, headers, order, body, padding);
      |body + padding| <= |data| && data[|data| - |body + padding|..] == body + padding
  {
    var head := Lines([RequestLine(verb, path, protocol)] + FieldTexts(headers, order)) + CRLF;
    EndsWith(head, body + padding);
  }

  lemma EndsWith(a: string, b: string)
    ensures (a + b)[|a + b| - |b|..] == b
  {
  }

  /** The body stage on a buffer that ends with the body and the bytes after it, its first
      terminator right before them, reads the body. */
  lemma BodyOfSuffix(data: string, headers: map<string, string>, body: string, padding: string)
    requires |body + padding| + 4 <= |data|
    requires IndexOf(data, HeaderTerminator) == Some(|data| - |body + padding| - 4)
    requires data[|data| - |body + padding|..] == body + padding
    requires "Content-Length" in headers ==> Atoi(headers["Content-Length"]) == Some(|body|)
    ensures BodyFits(data, headers)
    ensures ReadBody(data, headers) == Success(if "Content-Length" in headers then body else "")
  {
    var start := |data| - |body + padding|;
    BodyBeforePadding(data, start, body, padding);
    BodyStage(data, headers, start, body);
  }

  lemma BodyBeforePadding(data: string, start: nat, body: string, padding: string)
    requires start <= |data| && data[start..] == body + padding
    ensures start + |body| <= |data|
    ensures data[start..start + |body|] == body
  {
    assert data[start..][..|body|] == body;
  }
}
