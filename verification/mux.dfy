/** The router of `app/http/mux.go`: route patterns `"<METHOD> /path"` with `{name}`
    placeholders, registered once each, matched against a request's method and path
    segments, with a 404 fallback and post-processing of the handler's response. */
module Mux {
  import opened Results
  import opened Text
  import opened Request
  import opened Response

  /** A route handler: given the request, with its path parameters bound, and the response
      built so far, the response it leaves behind. */
  type Handler = (Request, Response) -> Response

  datatype Mux = Mux(handlers: map<string, Handler>)

  function NewMux(): Mux {
    Mux(map[])
  }

  /** The allow-list of request methods. */
  const Methods: seq<string> := ["GET", "POST", "PUT", "PATCH", "DELETE", "HEAD", "OPTIONS"]

  // ----- pattern validation -----

  /** The errors `validatePattern` returns. `UnparsablePath` carries the text of the
      error that URL parsing reported. */
  datatype PatternError =
    | WrongShape
    | UnknownMethod(verb: string)
    | RelativePath(path: string)
    | UnparsablePath(path: string, cause: string)

  function PatternMessage(e: PatternError): string {
    match e
    case WrongShape => "pattern is invalid. pattern should have HTTP method and path. i.e. GET /index"
    case UnknownMethod(verb) =>
      "\"" + verb + "\" method is invalid. method must be one of " + Join(Methods, ", ")
    case RelativePath(path) => "\"" + path + "\" is invalid. path must start with /"
    case UnparsablePath(_, cause) => "path is invalid: " + cause
  }

  /** The pattern's pieces between single spaces. */
  function Parts(pattern: string): (parts: seq<string>)
    ensures |parts| >= 1
  {
    Split(pattern, " ")
  }

  /** Validation reads the first byte of the path only when it is there: a pattern such as
      `"GET "` would make the source index an empty string. */
  predicate ValidateSafe(pattern: string) {
    |Parts(pattern)| == 2 && Parts(pattern)[0] in Methods ==> |Parts(pattern)[1]| > 0
  }

  /** `validatePattern`. `urlError(path)` is the error URL parsing reports for `path`,
      `None` when it parses. */
  function ValidatePattern(pattern: string, urlError: string -> Option<string>): (r: Option<PatternError>)
    requires ValidateSafe(pattern)
  {
    var parts := Parts(pattern);
    if |parts| != 2 then Some(WrongShape)
    else if parts[0] !in Methods then Some(UnknownMethod(parts[0]))
    else if parts[1][0] != '/' then Some(RelativePath(parts[1]))
    else
      match urlError(parts[1])
      case Some(cause) => Some(UnparsablePath(parts[1], cause))
      case None => None
  }

  /** What every registered pattern looks like: a listed method, one space, and a path
      starting with `/`. */
  predicate WellShaped(pattern: string) {
    var parts := Parts(pattern);
    |parts| == 2 && parts[0] in Methods && |parts[1]| > 0 && parts[1][0] == '/'
  }

  lemma MethodsHaveNoSpace()
    ensures forall m :: m in Methods ==> ' ' !in m
  {
  }

  /** A pattern is rejected for its shape exactly when it has other than one space. */
  lemma WrongShapeCount(pattern: string, urlError: string -> Option<string>)
    requires ValidateSafe(pattern)
    ensures ValidatePattern(pattern, urlError) == Some(WrongShape) <==> Count(pattern, ' ') != 1
  {
    SplitCharCount(pattern, ' ');
  }

  /** An accepted pattern is a listed method, a space, and a space-free path starting with
      `/` that URL parsing accepts. */
  lemma {:induction false} AcceptedPattern(pattern: string, urlError: string -> Option<string>)
    requires ValidateSafe(pattern) && ValidatePattern(pattern, urlError).None?
    ensures WellShaped(pattern)
    ensures pattern == Parts(pattern)[0] + " " + Parts(pattern)[1]
    ensures ' ' !in Parts(pattern)[1]
    ensures urlError(Parts(pattern)[1]).None?
  {
    var parts := Parts(pattern);
    SplitSpec(pattern, " ");
    JoinCons(parts[0], parts[1..], " ");
    assert parts[1..] == [parts[1]];
    ContainsChar(parts[1], ' ');
  }

  /** Conversely, a listed method, a space and a space-free path starting with `/` that URL
      parsing accepts make a valid pattern. */
  lemma BuiltPattern(verb: string, path: string, urlError: string -> Option<string>)
    requires verb in Methods && |path| > 0 && path[0] == '/' && ' ' !in path
    requires urlError(path).None?
    ensures Parts(verb + " " + path) == [verb, path]
    ensures ValidateSafe(verb + " " + path)
    ensures ValidatePattern(verb + " " + path, urlError).None?
  {
    MethodsHaveNoSpace();
    SplitAfterChar(verb, ' ', path);
    SplitWithout(path, ' ');
  }

  // ----- registration -----

  /** `HandleFunc` panics with the pattern when it is invalid, or with the duplicate
      message when it is already registered. */
  datatype RegistrationPanic = InvalidPattern(pattern: string) | DuplicatePattern(message: string)

  /** Every registered pattern is well shaped. */
  predicate Routable(mux: Mux) {
    forall pattern :: pattern in mux.handlers ==> WellShaped(pattern)
  }

  /** `HandleFunc`: register `handler` under `pattern`. */
  function HandleFunc(mux: Mux, pattern: string, handler: Handler, urlError: string -> Option<string>): (r: Result<Mux, RegistrationPanic>)
    requires ValidateSafe(pattern)
    ensures r.Success? <==> ValidatePattern(pattern, urlError).None? && pattern !in mux.handlers
    ensures r.Failure? && ValidatePattern(pattern, urlError).Some? ==> r.error == InvalidPattern(pattern)
    ensures r.Failure? && ValidatePattern(pattern, urlError).None? ==>
      r.error == DuplicatePattern("route pattern " + pattern + " already exists")
    ensures r.Success? ==> r.value.handlers.Keys == mux.handlers.Keys + {pattern}
    ensures r.Success? ==> r.value.handlers[pattern] == handler
    ensures r.Success? ==> forall p :: p in mux.handlers ==> r.value.handlers[p] == mux.handlers[p]
    ensures r.Success? && Routable(mux) ==> Routable(r.value)
  {
    if ValidatePattern(pattern, urlError).Some? then Failure(InvalidPattern(pattern))
    else if pattern in mux.handlers then Failure(DuplicatePattern("route pattern " + pattern + " already exists"))
    else
      AcceptedPattern(pattern, urlError);
      Success(Mux(mux.handlers[pattern := handler]))
  }

  /** A pattern can be registered once: registering it again panics with the duplicate
      message, whatever the handler. */
  lemma RegisterOnce(mux: Mux, pattern: string, h1: Handler, h2: Handler, urlError: string -> Option<string>)
    requires ValidateSafe(pattern) && HandleFunc(mux, pattern, h1, urlError).Success?
    ensures HandleFunc(HandleFunc(mux, pattern, h1, urlError).value, pattern, h2, urlError)
         == Failure(DuplicatePattern("route pattern " + pattern + " already exists"))
  {
  }

  // ----- matching -----

  predicate IsSlash(c: char) {
    c == '/'
  }

  /** A path's segments: every leading and trailing `/` trimmed off, then split on `/`. */
  function Segments(path: string): (segs: seq<string>)
    ensures |segs| >= 1
  {
    Split(Trim(path, IsSlash), "/")
  }

  /** A segment the placeholder expression `^{(.+)}$` matches: braces around at least one
      character, none of them a newline (`.` does not match one). */
  predicate IsPlaceholder(seg: string) {
    |seg| >= 3 && seg[0] == '{' && seg[|seg| - 1] == '}' && '\n' !in seg[1..|seg| - 1]
  }

  /** The expression's capture group: the text between the braces. */
  function PlaceholderName(seg: string): string
    requires IsPlaceholder(seg)
  {
    seg[1..|seg| - 1]
  }

  /** The segment loop of `extractParams`: a placeholder binds its name to the request's
      segment, a later binding replacing an earlier one; any other segment must equal the
      request's segment. */
  function BindSegments(ps: seq<string>, rs: seq<string>, acc: map<string, string>): Option<map<string, string>>
    requires |ps| == |rs|
    decreases |ps|
  {
    if |ps| == 0 then Some(acc)
    else if IsPlaceholder(ps[0]) then BindSegments(ps[1..], rs[1..], acc[PlaceholderName(ps[0]) := rs[0]])
    else if ps[0] != rs[0] then None
    else BindSegments(ps[1..], rs[1..], acc)
  }

  /** Segment-by-segment agreement: same count, and every non-placeholder segment equal. */
  predicate SegmentsMatch(ps: seq<string>, rs: seq<string>) {
    |ps| == |rs| && forall i :: 0 <= i < |ps| && !IsPlaceholder(ps[i]) ==> ps[i] == rs[i]
  }

  /** The placeholder names of a pattern's segments. */
  function PlaceholderNames(ps: seq<string>): set<string> {
    set i | 0 <= i < |ps| && IsPlaceholder(ps[i]) :: PlaceholderName(ps[i])
  }

  /** No placeholder after position `i` has the same name as the one at `i`. */
  predicate LastOfName(ps: seq<string>, i: int)
    requires 0 <= i < |ps| && IsPlaceholder(ps[i])
  {
    forall j :: i < j < |ps| && IsPlaceholder(ps[j]) ==> PlaceholderName(ps[j]) != PlaceholderName(ps[i])
  }

  lemma PlaceholderNamesStep(ps: seq<string>)
    requires |ps| > 0
    ensures PlaceholderNames(ps)
         == (if IsPlaceholder(ps[0]) then {PlaceholderName(ps[0])} else {}) + PlaceholderNames(ps[1..])
  {
    var tail := ps[1..];
    forall n | n in PlaceholderNames(ps)
      ensures n in (if IsPlaceholder(ps[0]) then {PlaceholderName(ps[0])} else {}) + PlaceholderNames(tail)
    {
      var i :| 0 <= i < |ps| && IsPlaceholder(ps[i]) && PlaceholderName(ps[i]) == n;
      if i > 0 {
        assert tail[i - 1] == ps[i];
      }
    }
    forall n | n in PlaceholderNames(tail) ensures n in PlaceholderNames(ps) {
      var i :| 0 <= i < |tail| && IsPlaceholder(tail[i]) && PlaceholderName(tail[i]) == n;
      assert ps[i + 1] == tail[i];
    }
  }

  /** Binding succeeds exactly when the segments agree. */
  lemma {:induction false} BindSucceeds(ps: seq<string>, rs: seq<string>, acc: map<string, string>)
    requires |ps| == |rs|
    ensures BindSegments(ps, rs, acc).Some? <==> SegmentsMatch(ps, rs)
    decreases |ps|
  {
    if |ps| > 0 {
      var acc' := if IsPlaceholder(ps[0]) then acc[PlaceholderName(ps[0]) := rs[0]] else acc;
      BindSucceeds(ps[1..], rs[1..], acc');
      if SegmentsMatch(ps[1..], rs[1..]) && (IsPlaceholder(ps[0]) || ps[0] == rs[0]) {
        forall i | 0 <= i < |ps| && !IsPlaceholder(ps[i]) ensures ps[i] == rs[i] {
          if i > 0 {
            assert ps[1..][i - 1] == ps[i] && rs[1..][i - 1] == rs[i];
          }
        }
      }
      if SegmentsMatch(ps, rs) {
        forall i | 0 <= i < |ps[1..]| && !IsPlaceholder(ps[1..][i]) ensures ps[1..][i] == rs[1..][i] {
          assert ps[1..][i] == ps[i + 1] && rs[1..][i] == rs[i + 1];
        }
      }
    }
  }

  /** A successful binding defines exactly the earlier names and the placeholder names. */
  lemma {:induction false} BindKeys(ps: seq<string>, rs: seq<string>, acc: map<string, string>)
    requires |ps| == |rs| && BindSegments(ps, rs, acc).Some?
    ensures BindSegments(ps, rs, acc).value.Keys == acc.Keys + PlaceholderNames(ps)
    decreases |ps|
  {
    if |ps| == 0 {
      assert PlaceholderNames(ps) == {};
    } else {
      PlaceholderNamesStep(ps);
      if IsPlaceholder(ps[0]) {
        BindKeys(ps[1..], rs[1..], acc[PlaceholderName(ps[0]) := rs[0]]);
      } else {
        BindKeys(ps[1..], rs[1..], acc);
      }
    }
  }

  /** A successful binding gives each placeholder name the request segment at its last
      occurrence, and leaves every other earlier name alone. */
  lemma {:induction false} BindValues(ps: seq<string>, rs: seq<string>, acc: map<string, string>)
    requires |ps| == |rs| && BindSegments(ps, rs, acc).Some?
    ensures forall i :: 0 <= i < |ps| && IsPlaceholder(ps[i]) && LastOfName(ps, i) ==>
      PlaceholderName(ps[i]) in BindSegments(ps, rs, acc).value
      && BindSegments(ps, rs, acc).value[PlaceholderName(ps[i])] == rs[i]
    ensures forall name :: name in acc && name !in PlaceholderNames(ps) ==>
      name in BindSegments(ps, rs, acc).value && BindSegments(ps, rs, acc).value[name] == acc[name]
    decreases |ps|
  {
    if |ps| > 0 {
      var r := BindSegments(ps, rs, acc).value;
      var tail := ps[1..];
      var acc' := if IsPlaceholder(ps[0]) then acc[PlaceholderName(ps[0]) := rs[0]] else acc;
      assert BindSegments(ps, rs, acc) == BindSegments(tail, rs[1..], acc');
      BindValues(tail, rs[1..], acc');
      PlaceholderNamesStep(ps);
      forall i | 0 <= i < |ps| && IsPlaceholder(ps[i]) && LastOfName(ps, i)
        ensures PlaceholderName(ps[i]) in r && r[PlaceholderName(ps[i])] == rs[i]
      {
        if i > 0 {
          assert tail[i - 1] == ps[i] && rs[1..][i - 1] == rs[i];
          assert LastOfName(tail, i - 1) by {
            forall j | i - 1 < j < |tail| && IsPlaceholder(tail[j])
              ensures PlaceholderName(tail[j]) != PlaceholderName(tail[i - 1])
            {
              assert tail[j] == ps[j + 1];
            }
          }
        } else {
          var n := PlaceholderName(ps[0]);
          forall j | 0 <= j < |tail| && IsPlaceholder(tail[j]) ensures PlaceholderName(tail[j]) != n {
            assert tail[j] == ps[j + 1];
          }
          assert n !in PlaceholderNames(tail);
        }
      }
    }
  }

  /** What `extractParams` returns: the pattern and its bindings on a match, the empty
      string and no bindings otherwise. */
  datatype Extracted = Extracted(pattern: string, params: map<string, string>)

  /** `extractParams`. */
  function ExtractParams(req: Request, pattern: string): (r: Extracted)
    requires |Parts(pattern)| >= 2
    ensures r.pattern == "" || r.pattern == pattern
    ensures r.pattern == "" ==> r.params == map[]
  {
    var parts := Parts(pattern);
    if !EqualFold(parts[0], req.verb) then Extracted("", map[])
    else
      var ps := Segments(parts[1]);
      var rs := Segments(req.path);
      if |ps| != |rs| then Extracted("", map[])
      else
        match BindSegments(ps, rs, map[])
        case None => Extracted("", map[])
        case Some(params) => Extracted(pattern, params)
  }

  /** The reference notion of a route matching a request: the methods agree up to ASCII
      case and the trimmed paths agree segment by segment. */
  predicate Matches(req: Request, pattern: string)
    requires |Parts(pattern)| >= 2
  {
    EqualFold(Parts(pattern)[0], req.verb) && SegmentsMatch(Segments(Parts(pattern)[1]), Segments(req.path))
  }

  /** A pattern with two parts has a space, so it is never empty. */
  lemma PatternNotEmpty(pattern: string)
    requires |Parts(pattern)| >= 2
    ensures pattern != ""
  {
    SplitCharCount(pattern, ' ');
  }

  /** `extractParams` reports a match, with the pattern itself, exactly when the route matches. */
  lemma ExtractParamsMatch(req: Request, pattern: string)
    requires |Parts(pattern)| >= 2
    ensures ExtractParams(req, pattern).pattern != "" <==> Matches(req, pattern)
    ensures Matches(req, pattern) ==> ExtractParams(req, pattern).pattern == pattern
  {
    PatternNotEmpty(pattern);
    var ps := Segments(Parts(pattern)[1]);
    var rs := Segments(req.path);
    if |ps| == |rs| {
      BindSucceeds(ps, rs, map[]);
    }
  }

  /** `extractParams` reports a match, with a non-empty pattern, exactly when the route
      matches; the bound names are then exactly the placeholder names, each bound to the
      request segment at its last occurrence. */
  lemma ExtractParamsSpec(req: Request, pattern: string)
    requires |Parts(pattern)| >= 2
    ensures ExtractParams(req, pattern).pattern != "" <==> Matches(req, pattern)
    ensures Matches(req, pattern) ==> ExtractParams(req, pattern).pattern == pattern
    ensures Matches(req, pattern) ==>
      var ps := Segments(Parts(pattern)[1]);
      var rs := Segments(req.path);
      var params := ExtractParams(req, pattern).params;
      && params.Keys == PlaceholderNames(ps)
      && forall i :: 0 <= i < |ps| && IsPlaceholder(ps[i]) && LastOfName(ps, i) ==> params[PlaceholderName(ps[i])] == rs[i]
  {
    PatternNotEmpty(pattern);
    var ps := Segments(Parts(pattern)[1]);
    var rs := Segments(req.path);
    if |ps| == |rs| {
      BindSucceeds(ps, rs, map[]);
      if SegmentsMatch(ps, rs) {
        BindKeys(ps, rs, map[]);
        BindValues(ps, rs, map[]);
      }
    }
  }

  // ----- handler lookup -----

  /** What `findHandler` returns, with the request as it leaves it (`Params` set on a
      match). */
  datatype Found = Found(pattern: string, handler: Handler, request: Request)

  /** The patterns of `order` are registered and well shaped. */
  predicate Covers(mux: Mux, order: seq<string>) {
    forall i :: 0 <= i < |order| ==> order[i] in mux.handlers && WellShaped(order[i])
  }

  /** The lookup loop over the patterns in visit order. */
  function FindIn(mux: Mux, order: seq<string>, req: Request): Found
    requires Covers(mux, order)
    decreases |order|
  {
    if |order| == 0 then Found("", NotFoundHandler, req)
    else
      var x := ExtractParams(req, order[0]);
      if x.pattern != "" then Found(x.pattern, mux.handlers[order[0]], req.(params := x.params))
      else FindIn(mux, order[1..], req)
  }

  lemma RoutableCovers(mux: Mux, order: seq<string>)
    requires Routable(mux) && Enumerates(order, mux.handlers.Keys)
    ensures Covers(mux, order)
  {
  }

  /** `findHandler`, with the map's keys visited in `order`. */
  function FindHandler(mux: Mux, order: seq<string>, req: Request): Found
    requires Routable(mux) && Enumerates(order, mux.handlers.Keys)
  {
    RoutableCovers(mux, order);
    FindIn(mux, order, req)
  }

  /** The loop returns the first pattern of `order` that matches, or the fallback when
      none does. */
  lemma {:induction false} FindInSpec(mux: Mux, order: seq<string>, req: Request)
    requires Covers(mux, order)
    ensures var r := FindIn(mux, order, req);
      && (r.pattern != "" ==>
            && r.pattern in order && r.pattern in mux.handlers && Matches(req, r.pattern)
            && r.handler == mux.handlers[r.pattern]
            && r.request == req.(params := ExtractParams(req, r.pattern).params))
      && (r.pattern == "" <==> forall i :: 0 <= i < |order| ==> !Matches(req, order[i]))
      && (r.pattern == "" ==> r.handler == NotFoundHandler && r.request == req)
    ensures var r := FindIn(mux, order, req);
      r.pattern != "" ==>
        exists i :: 0 <= i < |order| && order[i] == r.pattern && forall j :: 0 <= j < i ==> !Matches(req, order[j])
    decreases |order|
  {
    FindInFirst(mux, order, req);
    if |order| > 0 {
      ExtractParamsSpec(req, order[0]);
      FindInSpec(mux, order[1..], req);
      var r := FindIn(mux, order, req);
      if !Matches(req, order[0]) {
        assert r == FindIn(mux, order[1..], req);
        if r.pattern != "" {
          var i :| 0 <= i < |order[1..]| && order[1..][i] == r.pattern;
          assert order[i + 1] == r.pattern;
        }
        forall i | 0 <= i < |order[1..]| ensures order[1..][i] == order[i + 1] { }
      }
    }
  }

  /** The pattern found is the first entry of `order` that matches: none before it does. */
  lemma {:induction false} FindInFirst(mux: Mux, order: seq<string>, req: Request)
    requires Covers(mux, order)
    ensures var r := FindIn(mux, order, req);
      r.pattern != "" ==>
        exists i :: 0 <= i < |order| && order[i] == r.pattern && forall j :: 0 <= j < i ==> !Matches(req, order[j])
    decreases |order|
  {
    if |order| > 0 {
      ExtractParamsMatch(req, order[0]);
      var r := FindIn(mux, order, req);
      if Matches(req, order[0]) {
        assert order[0] == r.pattern;
      } else {
        FindInFirst(mux, order[1..], req);
        assert r == FindIn(mux, order[1..], req);
        if r.pattern != "" {
          FirstShift(mux, order, req, r.pattern);
        }
      }
    }
  }

  /** A first match in the tail, after a head that does not match, is a first match of the
      whole sequence. */
  lemma FirstShift(mux: Mux, order: seq<string>, req: Request, p: string)
    requires Covers(mux, order) && |order| > 0 && !Matches(req, order[0])
    requires exists i :: 0 <= i < |order[1..]| && order[1..][i] == p && forall j :: 0 <= j < i ==> !Matches(req, order[1..][j])
    ensures exists i :: 0 <= i < |order| && order[i] == p && forall j :: 0 <= j < i ==> !Matches(req, order[j])
  {
    var i :| 0 <= i < |order[1..]| && order[1..][i] == p && forall j :: 0 <= j < i ==> !Matches(req, order[1..][j]);
    assert order[i + 1] == p;
    forall j | 0 <= j < i + 1 ensures !Matches(req, order[j]) {
      if j > 0 { assert order[j] == order[1..][j - 1]; }
    }
  }

  /** `findHandler` returns a registered pattern that matches, its handler, and the request
      with that match's bindings; it falls back to the 404 handler, leaving the request
      alone, exactly when no registered pattern matches. */
  lemma FindHandlerSpec(mux: Mux, order: seq<string>, req: Request)
    requires Routable(mux) && Enumerates(order, mux.handlers.Keys)
    ensures var r := FindHandler(mux, order, req);
      && (r.pattern != "" ==>
            && r.pattern in mux.handlers && Matches(req, r.pattern)
            && r.handler == mux.handlers[r.pattern]
            && r.request == req.(params := ExtractParams(req, r.pattern).params))
      && (r.pattern == "" <==> forall p :: p in mux.handlers ==> !Matches(req, p))
      && (r.pattern == "" ==> r.handler == NotFoundHandler && r.request == req)
  {
    RoutableCovers(mux, order);
    FindInSpec(mux, order, req);
    if FindHandler(mux, order, req).pattern == "" {
      forall p | p in mux.handlers ensures !Matches(req, p) {
        var i :| 0 <= i < |order| && order[i] == p;
      }
    }
  }

  /** When at most one registered pattern matches, the visit order does not matter. */
  lemma FindHandlerUnambiguous(mux: Mux, o1: seq<string>, o2: seq<string>, req: Request)
    requires Routable(mux) && Enumerates(o1, mux.handlers.Keys) && Enumerates(o2, mux.handlers.Keys)
    requires forall p, q :: p in mux.handlers && q in mux.handlers && Matches(req, p) && Matches(req, q) ==> p == q
    ensures FindHandler(mux, o1, req) == FindHandler(mux, o2, req)
  {
    FindHandlerSpec(mux, o1, req);
    FindHandlerSpec(mux, o2, req);
  }

  /** `s` without the entries equal to `x`. */
  function Without(s: seq<string>, x: string): (r: seq<string>)
    ensures forall i :: 0 <= i < |r| ==> r[i] in s && r[i] != x
    ensures forall y :: y in s && y != x ==> y in r
    decreases |s|
  {
    if |s| == 0 then []
    else if s[0] == x then Without(s[1..], x)
    else [s[0]] + Without(s[1..], x)
  }

  lemma {:induction false} WithoutDistinct(s: seq<string>, x: string)
    requires Distinct(s)
    ensures Distinct(Without(s, x))
    decreases |s|
  {
    if |s| > 0 {
      var tail := s[1..];
      forall i, j | 0 <= i < j < |tail| ensures tail[i] != tail[j] {
        assert tail[i] == s[i + 1] && tail[j] == s[j + 1];
      }
      WithoutDistinct(tail, x);
      var rest := Without(tail, x);
      if s[0] != x {
        forall k | 0 <= k < |rest| ensures rest[k] != s[0] {
          var j :| 0 <= j < |tail| && tail[j] == rest[k];
          assert s[j + 1] == rest[k];
        }
        var r := [s[0]] + rest;
        assert r == Without(s, x);
        forall i, j | 0 <= i < j < |r| ensures r[i] != r[j] {
          assert r[j] == rest[j - 1];
          if i > 0 { assert r[i] == rest[i - 1]; }
        }
      } else {
        assert Without(s, x) == rest;
      }
    }
  }

  /** No precedence among overlapping routes is promised: every registered pattern that
      matches is the one found for some visit order, `pattern` visited first. */
  lemma AnyMatchCanWin(mux: Mux, order: seq<string>, req: Request, pattern: string)
    requires Routable(mux) && Enumerates(order, mux.handlers.Keys)
    requires pattern in mux.handlers && Matches(req, pattern)
    ensures Enumerates([pattern] + Without(order, pattern), mux.handlers.Keys)
    ensures FindHandler(mux, [pattern] + Without(order, pattern), req).pattern == pattern
  {
    var o := [pattern] + Without(order, pattern);
    MoveToFront(order, mux.handlers.Keys, pattern);
    RoutableCovers(mux, o);
    ExtractParamsSpec(req, pattern);
    assert o[0] == pattern;
    assert FindIn(mux, o, req).pattern == pattern;
  }

  /** Moving a key to the front of an enumeration gives an enumeration. */
  lemma MoveToFront(order: seq<string>, keys: set<string>, k: string)
    requires Enumerates(order, keys) && k in keys
    ensures Enumerates([k] + Without(order, k), keys)
  {
    var rest := Without(order, k);
    var o := [k] + rest;
    WithoutDistinct(order, k);
    forall i, j | 0 <= i < j < |o| ensures o[i] != o[j] {
      assert o[j] == rest[j - 1];
      if i > 0 { assert o[i] == rest[i - 1]; }
    }
    forall i | 0 <= i < |o| ensures o[i] in keys {
      if i > 0 { assert o[i] == rest[i - 1]; }
    }
  }

  // ----- dispatch -----

  /** `notFoundHandler`. */
  function NotFoundHandler(req: Request, resp: Response): (r: Response)
    ensures r.statusCode == 404 && r.body == "Not found"
    ensures "Content-Type" in r.headers && r.headers["Content-Type"] == "text/plain"
    ensures forall name :: name in resp.headers && name != "Content-Type" ==> name in r.headers && r.headers[name] == resp.headers[name]
    ensures r.headers.Keys == resp.headers.Keys + {"Content-Type"}
    ensures r.protocol == resp.protocol
  {
    resp.(statusCode := 404, headers := resp.headers["Content-Type" := "text/plain"], body := "Not found")
  }

  /** Go's map index: the entry, or the empty string for a missing key. */
  function HeaderOf(headers: map<string, string>, name: string): string {
    if name in headers then headers[name] else ""
  }

  /** The request asks for the connection to be closed. */
  predicate AsksToClose(req: Request) {
    HeaderOf(req.headers, "Connection") == "close"
  }

  /** The response as the found handler leaves it. */
  function Dispatch(mux: Mux, order: seq<string>, req: Request, resp: Response): Response
    requires Routable(mux) && Enumerates(order, mux.handlers.Keys)
  {
    var found := FindHandler(mux, order, req);
    found.handler(found.request, resp)
  }

  /** `HandleReqeust` (so spelled in the source): run the found handler, then default a
      zero status to 200 and copy `Connection: close` from the request. */
  function HandleRequest(mux: Mux, order: seq<string>, req: Request, resp: Response): (r: Response)
    requires Routable(mux) && Enumerates(order, mux.handlers.Keys)
    ensures r.statusCode != 0
    ensures var after := Dispatch(mux, order, req, resp);
      && (after.statusCode != 0 ==> r.statusCode == after.statusCode)
      && (after.statusCode == 0 ==> r.statusCode == 200)
      && r.protocol == after.protocol && r.body == after.body
      && (AsksToClose(req) ==>
            && r.headers.Keys == after.headers.Keys + {"Connection"}
            && r.headers["Connection"] == "close"
            && forall name :: name in after.headers && name != "Connection" ==> r.headers[name] == after.headers[name])
      && (!AsksToClose(req) ==> r.headers == after.headers)
  {
    var after := Dispatch(mux, order, req, resp);
    var status := if after.statusCode == 0 then 200 else after.statusCode;
    var headers := if AsksToClose(req) then after.headers["Connection" := "close"] else after.headers;
    after.(statusCode := status, headers := headers)
  }

  /** The server keeps the connection open unless the response it writes says
      `Connection: close`; after dispatch that happens exactly when the request asked for
      it or the handler set it. */
  lemma ClosesConnection(mux: Mux, order: seq<string>, req: Request, resp: Response)
    requires Routable(mux) && Enumerates(order, mux.handlers.Keys)
    ensures HeaderOf(HandleRequest(mux, order, req, resp).headers, "Connection") == "close"
        <==> AsksToClose(req) || HeaderOf(Dispatch(mux, order, req, resp).headers, "Connection") == "close"
  {
  }

  /** A request no route matches gets the 404 response, whatever the visit order. */
  lemma UnroutedIsNotFound(mux: Mux, order: seq<string>, req: Request, resp: Response)
    requires Routable(mux) && Enumerates(order, mux.handlers.Keys)
    requires forall p :: p in mux.handlers ==> !Matches(req, p)
    ensures var r := HandleRequest(mux, order, req, resp);
      && r.statusCode == 404 && r.body == "Not found"
      && HeaderOf(r.headers, "Content-Type") == "text/plain"
  {
    FindHandlerSpec(mux, order, req);
    if AsksToClose(req) {
      assert "Content-Type" != "Connection";
    }
  }
}
