/** The slice of Go's `bytes` and `strings` packages that the protocol layer relies on.
    A byte buffer and a Go string are both modelled as a `string`, one char per byte. */
module Text {
  import opened Results

  /** The line delimiter of HTTP/1.1 messages (RFC 9112 section 2.1). */
  const CRLF: string := "\r\n"

  /** `pat` occurs in `s` starting at index `i`. */
  predicate OccursAt(s: string, pat: string, i: int) {
    0 <= i && i + |pat| <= |s| && s[i..i + |pat|] == pat
  }

  /** `pat` occurs somewhere in `s`. */
  predicate Contains(s: string, pat: string) {
    exists i | 0 <= i <= |s| - |pat| :: OccursAt(s, pat, i)
  }

  /** Go's `bytes.Index` / `strings.Index`: the first occurrence of `pat`, `None` for -1.
      `IndexOfSpec` states that it is the first. */
  function IndexOf(s: string, pat: string): (r: Option<nat>)
    ensures r.Some? ==> r.value + |pat| <= |s|
  {
    IndexFrom(s, pat, 0)
  }

  /** The first occurrence of `pat` in `s` at or after index `i`. */
  function IndexFrom(s: string, pat: string, i: nat): (r: Option<nat>)
    ensures r.Some? ==> i <= r.value && r.value + |pat| <= |s|
    decreases |s| - i
  {
    if i + |pat| > |s| then None
    else if MatchesAt(s, pat, i) then Some(i)
    else IndexFrom(s, pat, i + 1)
  }

  /** `pat` matches `s` character by character from index `i` on. */
  predicate MatchesAt(s: string, pat: string, i: nat)
    decreases |pat|
  {
    |pat| == 0 || (i < |s| && s[i] == pat[0] && MatchesAt(s, pat[1..], i + 1))
  }

  /** Matching character by character is an occurrence. */
  lemma {:induction false} MatchesAtOccurs(s: string, pat: string, i: nat)
    requires i + |pat| <= |s|
    ensures MatchesAt(s, pat, i) <==> OccursAt(s, pat, i)
    decreases |pat|
  {
    if |pat| > 0 {
      MatchesAtOccurs(s, pat[1..], i + 1);
      if s[i..i + |pat|] == pat {
        assert s[i + 1..i + 1 + |pat[1..]|] == pat[1..];
      }
    }
  }

  /** `IndexFrom` reports the first occurrence at or after `i`, or `None` when there is
      none there. */
  lemma {:induction false} IndexFromSpec(s: string, pat: string, i: nat)
    ensures IndexFrom(s, pat, i).Some? ==> OccursAt(s, pat, IndexFrom(s, pat, i).value)
    ensures IndexFrom(s, pat, i).Some? ==>
      forall j :: i <= j < IndexFrom(s, pat, i).value ==> !OccursAt(s, pat, j)
    ensures IndexFrom(s, pat, i).None? ==> forall j :: i <= j ==> !OccursAt(s, pat, j)
    decreases |s| - i
  {
    if i + |pat| <= |s| {
      MatchesAtOccurs(s, pat, i);
      if !MatchesAt(s, pat, i) {
        IndexFromSpec(s, pat, i + 1);
      }
    }
  }

  /** `IndexOf` reports an occurrence with none before it, or `None` when there is none. */
  lemma IndexOfSpec(s: string, pat: string)
    ensures IndexOf(s, pat).Some? ==> OccursAt(s, pat, IndexOf(s, pat).value)
    ensures IndexOf(s, pat).Some? ==> forall j :: 0 <= j < IndexOf(s, pat).value ==> !OccursAt(s, pat, j)
    ensures IndexOf(s, pat).None? ==> forall j :: 0 <= j ==> !OccursAt(s, pat, j)
  {
    IndexFromSpec(s, pat, 0);
  }

  /** `IndexOf` finds nothing exactly when the pattern does not occur. */
  lemma IndexOfNone(s: string, pat: string)
    ensures IndexOf(s, pat).None? <==> !Contains(s, pat)
  {
    IndexOfSpec(s, pat);
  }

  /** An occurrence with none before it is the one `IndexOf` reports. */
  lemma IndexOfIsFirst(s: string, pat: string, p: nat)
    requires OccursAt(s, pat, p)
    requires forall j :: 0 <= j < p ==> !OccursAt(s, pat, j)
    ensures IndexOf(s, pat) == Some(p)
  {
    IndexOfSpec(s, pat);
  }

  /** Go's `strings.Join`. */
  function Join(parts: seq<string>, sep: string): string
    decreases |parts|
  {
    if |parts| == 0 then ""
    else if |parts| == 1 then parts[0]
    else parts[0] + sep + Join(parts[1..], sep)
  }

  lemma JoinCons(head: string, rest: seq<string>, sep: string)
    requires |rest| >= 1
    ensures Join([head] + rest, sep) == head + sep + Join(rest, sep)
  {
    assert ([head] + rest)[1..] == rest;
  }

  /** A prefix that ends before the first occurrence contains no occurrence. */
  lemma NoOccurrenceBeforeFirst(s: string, pat: string, m: nat)
    requires |pat| > 0 && m <= |s|
    requires forall j :: 0 <= j < m ==> !OccursAt(s, pat, j)
    ensures !Contains(s[..m], pat)
  {
    forall i | 0 <= i <= m - |pat|
      ensures !OccursAt(s[..m], pat, i)
    {
      assert !OccursAt(s, pat, i);
      assert s[..m][i..i + |pat|] == s[i..i + |pat|];
    }
  }

  /** Putting a piece free of `sep` in front of a split of the remainder gives a split of
      the whole. */
  lemma SplitStep(s: string, sep: string, m: nat, rest: seq<string>)
    requires |sep| > 0 && m + |sep| <= |s| && OccursAt(s, sep, m)
    requires forall j :: 0 <= j < m ==> !OccursAt(s, sep, j)
    requires |rest| >= 1 && Join(rest, sep) == s[m + |sep|..]
    ensures Join([s[..m]] + rest, sep) == s
    ensures !Contains(s[..m], sep)
  {
    NoOccurrenceBeforeFirst(s, sep, m);
    JoinCons(s[..m], rest, sep);
    assert s == s[..m] + sep + s[m + |sep|..];
  }

  /** Go's `bytes.Split` / `strings.Split` with a non-empty separator: the pieces between
      the successive leftmost occurrences of `sep`. What the pieces are is stated by
      `SplitSpec`. */
  function Split(s: string, sep: string): (parts: seq<string>)
    requires |sep| > 0
    ensures |parts| >= 1
    decreases |s|
  {
    match IndexOf(s, sep)
    case None => [s]
    case Some(m) => [s[..m]] + Split(s[m + |sep|..], sep)
  }

  /** The pieces of a split join back to the text, and none contains the separator. */
  lemma {:induction false} SplitSpec(s: string, sep: string)
    requires |sep| > 0
    ensures Join(Split(s, sep), sep) == s
    ensures forall i :: 0 <= i < |Split(s, sep)| ==> !Contains(Split(s, sep)[i], sep)
    decreases |s|
  {
    match IndexOf(s, sep)
    case None =>
      IndexOfNone(s, sep);
    case Some(m) =>
      IndexOfSpec(s, sep);
      var rest := Split(s[m + |sep|..], sep);
      SplitSpec(s[m + |sep|..], sep);
      SplitStep(s, sep, m, rest);
      assert Split(s, sep) == [s[..m]] + rest;
      assert forall i :: 1 <= i < |rest| + 1 ==> ([s[..m]] + rest)[i] == rest[i - 1];
  }

  /** Go's `bytes.SplitN` / `strings.SplitN` for `n >= 1`: at most `n` pieces, the last one
      keeping the unsplit remainder; `SplitNSpec` states what they are. */
  function SplitN(s: string, sep: string, n: nat): (parts: seq<string>)
    requires |sep| > 0 && n >= 1
    ensures 1 <= |parts| <= n
    decreases n
  {
    if n == 1 then [s]
    else
      match IndexOf(s, sep)
      case None => [s]
      case Some(m) => [s[..m]] + SplitN(s[m + |sep|..], sep, n - 1)
  }

  /** The pieces of a bounded split join back to the text, every piece but the last is free
      of the separator, and with fewer than `n` pieces it is the unbounded split. */
  lemma SplitNSpec(s: string, sep: string, n: nat)
    requires |sep| > 0 && n >= 1
    ensures Join(SplitN(s, sep, n), sep) == s
    ensures forall i :: 0 <= i < |SplitN(s, sep, n)| - 1 ==> !Contains(SplitN(s, sep, n)[i], sep)
    ensures |SplitN(s, sep, n)| < n ==> SplitN(s, sep, n) == Split(s, sep)
  {
    SplitNJoin(s, sep, n);
    SplitNShort(s, sep, n);
  }

  /** One step of a bounded split: the piece before the first separator, then the split of
      the rest with one piece fewer allowed. */
  lemma SplitNUnfold(s: string, sep: string, n: nat, m: nat)
    requires |sep| > 0 && n > 1 && IndexOf(s, sep) == Some(m)
    ensures m + |sep| <= |s|
    ensures SplitN(s, sep, n) == [s[..m]] + SplitN(s[m + |sep|..], sep, n - 1)
  {
    assert m + |sep| <= |s|;
  }

  lemma {:induction false} SplitNJoin(s: string, sep: string, n: nat)
    requires |sep| > 0 && n >= 1
    ensures Join(SplitN(s, sep, n), sep) == s
    ensures forall i :: 0 <= i < |SplitN(s, sep, n)| - 1 ==> !Contains(SplitN(s, sep, n)[i], sep)
    decreases n
  {
    if n > 1 {
      match IndexOf(s, sep)
      case None =>
      case Some(m) =>
        IndexOfSpec(s, sep);
        SplitNUnfold(s, sep, n, m);
        var rest := SplitN(s[m + |sep|..], sep, n - 1);
        SplitNJoin(s[m + |sep|..], sep, n - 1);
        SplitStep(s, sep, m, rest);
        assert forall i :: 1 <= i < |rest| + 1 ==> ([s[..m]] + rest)[i] == rest[i - 1];
    }
  }

  lemma {:induction false} SplitNShort(s: string, sep: string, n: nat)
    requires |sep| > 0 && n >= 1
    ensures |SplitN(s, sep, n)| < n ==> SplitN(s, sep, n) == Split(s, sep)
    decreases n
  {
    if n > 1 {
      match IndexOf(s, sep)
      case None =>
        assert Split(s, sep) == [s];
      case Some(m) =>
        SplitNUnfold(s, sep, n, m);
        SplitNShort(s[m + |sep|..], sep, n - 1);
        SplitUnfold(s, sep, m);
    }
  }

  /** A piece free of CRLF followed by a delimiter is split off as the first line. */
  lemma SplitAfterLine(x: string, y: string)
    requires !Contains(x, CRLF)
    ensures Split(x + CRLF + y, CRLF) == [x] + Split(y, CRLF)
  {
    var s := x + CRLF + y;
    assert s[|x|..|x| + 2] == CRLF;
    forall j | 0 <= j < |x|
      ensures !OccursAt(s, CRLF, j)
    {
      if j + 2 <= |x| {
        assert s[j..j + 2] == x[j..j + 2];
        assert !OccursAt(x, CRLF, j);
      } else {
        assert s[j + 1] == '\r';
        assert s[j..j + 2][1] == s[j + 1];
      }
    }
    IndexOfIsFirst(s, CRLF, |x|);
    SplitUnfold(s, CRLF, |x|);
    assert s[..|x|] == x;
    assert s[|x| + 2..] == y;
  }

  /** A piece without `c` followed by `c` is split off as the first piece. */
  lemma SplitAfterChar(x: string, c: char, y: string)
    requires c !in x
    ensures Split(x + [c] + y, [c]) == [x] + Split(y, [c])
  {
    var s := x + [c] + y;
    assert s[|x|..|x| + 1] == [c];
    forall j | 0 <= j < |x| ensures !OccursAt(s, [c], j) {
      assert s[j..j + 1][0] == x[j];
    }
    IndexOfIsFirst(s, [c], |x|);
    SplitUnfold(s, [c], |x|);
    assert s[..|x|] == x;
    assert s[|x| + 1..] == y;
  }

  /** The bounded split likewise splits off a first piece without `c`. */
  lemma SplitNAfterChar(x: string, c: char, y: string, n: nat)
    requires c !in x && n >= 2
    ensures SplitN(x + [c] + y, [c], n) == [x] + SplitN(y, [c], n - 1)
  {
    var s := x + [c] + y;
    assert s[|x|..|x| + 1] == [c];
    forall j | 0 <= j < |x| ensures !OccursAt(s, [c], j) {
      assert s[j..j + 1][0] == x[j];
    }
    IndexOfIsFirst(s, [c], |x|);
    assert s[..|x|] == x;
    assert s[|x| + 1..] == y;
  }

  /** Text without the separator character is one piece. */
  lemma SplitWithout(s: string, c: char)
    requires c !in s
    ensures Split(s, [c]) == [s]
  {
    ContainsChar(s, c);
    IndexOfNone(s, [c]);
  }

  /** The number of times `c` occurs in `s`. */
  function Count(s: string, c: char): (n: nat)
    ensures n <= |s|
    ensures n == 0 <==> c !in s
  {
    if |s| == 0 then 0 else (if s[0] == c then 1 else 0) + Count(s[1..], c)
  }

  lemma CountAppend(a: string, b: string, c: char)
    ensures Count(a + b, c) == Count(a, c) + Count(b, c)
  {
    if |a| > 0 {
      assert (a + b)[1..] == a[1..] + b;
      CountAppend(a[1..], b, c);
    } else {
      assert a + b == b;
    }
  }

  /** A one-character pattern occurs exactly where that character does. */
  lemma ContainsChar(s: string, c: char)
    ensures Contains(s, [c]) <==> c in s
  {
    if c in s {
      var i :| 0 <= i < |s| && s[i] == c;
      assert s[i..i + 1] == [c];
      assert OccursAt(s, [c], i);
    }
    if Contains(s, [c]) {
      var i :| 0 <= i <= |s| - 1 && OccursAt(s, [c], i);
      assert s[i..i + 1][0] == s[i];
    }
  }

  lemma SplitUnfold(s: string, sep: string, m: nat)
    requires |sep| > 0 && IndexOf(s, sep) == Some(m)
    ensures m + |sep| <= |s|
    ensures Split(s, sep) == [s[..m]] + Split(s[m + |sep|..], sep)
  {
    assert m + |sep| <= |s|;
  }

  /** Splitting on a character yields one piece more than there are occurrences of it. */
  lemma {:induction false} SplitCharCount(s: string, c: char)
    ensures |Split(s, [c])| == Count(s, c) + 1
    decreases |s|
  {
    match IndexOf(s, [c])
    case None =>
      IndexOfNone(s, [c]);
      ContainsChar(s, c);
    case Some(m) =>
      IndexOfSpec(s, [c]);
      SplitUnfold(s, [c], m);
      var rest := s[m + 1..];
      SplitCharCount(rest, c);
      NoOccurrenceBeforeFirst(s, [c], m);
      ContainsChar(s[..m], c);
      CountSplice(s, m, c);
  }

  lemma CountSplice(s: string, m: nat, c: char)
    requires m < |s| && s[m] == c && c !in s[..m]
    ensures Count(s, c) == 1 + Count(s[m + 1..], c)
  {
    assert s == s[..m] + [c] + s[m + 1..];
    CountAppend(s[..m] + [c], s[m + 1..], c);
    CountAppend(s[..m], [c], c);
  }

  /** Joining `k` pieces with a character puts at least `k - 1` copies of it in the result. */
  lemma {:induction false} CountJoin(parts: seq<string>, c: char)
    ensures Count(Join(parts, [c]), c) + 1 >= |parts|
    decreases |parts|
  {
    if |parts| >= 2 {
      CountJoin(parts[1..], c);
      CountAppend(parts[0] + [c], Join(parts[1..], [c]), c);
      CountAppend(parts[0], [c], c);
    }
  }

  /** `SplitN` on a character stops short of `n` pieces exactly when fewer than `n - 1`
      copies of the character are present. */
  lemma SplitNCharCount(s: string, c: char, n: nat)
    requires n >= 1
    ensures |SplitN(s, [c], n)| < n <==> Count(s, c) + 1 < n
    ensures |SplitN(s, [c], n)| < n ==> |SplitN(s, [c], n)| == Count(s, c) + 1
  {
    var parts := SplitN(s, [c], n);
    SplitNSpec(s, [c], n);
    if |parts| < n {
      SplitCharCount(s, c);
    } else {
      CountJoin(parts, c);
    }
  }

  /** The number of leading characters of `s` that `strip` removes. */
  function LeadingRun(s: string, strip: char -> bool): (n: nat)
    ensures n <= |s|
    ensures forall k :: 0 <= k < n ==> strip(s[k])
    ensures n < |s| ==> !strip(s[n])
  {
    if |s| == 0 || !strip(s[0]) then 0 else 1 + LeadingRun(s[1..], strip)
  }

  /** The number of trailing characters of `s` that `strip` removes. */
  function TrailingRun(s: string, strip: char -> bool): (n: nat)
    ensures n <= |s|
    ensures forall k :: |s| - n <= k < |s| ==> strip(s[k])
    ensures n < |s| ==> !strip(s[|s| - 1 - n])
  {
    if |s| == 0 || !strip(s[|s| - 1]) then 0 else 1 + TrailingRun(s[..|s| - 1], strip)
  }

  /** Neither end of `s` is a character that `strip` removes. */
  predicate Trimmed(s: string, strip: char -> bool) {
    |s| == 0 || (!strip(s[0]) && !strip(s[|s| - 1]))
  }

  /** Go's `strings.Trim` family: `s` without its leading and trailing run of `strip`
      characters. */
  function Trim(s: string, strip: char -> bool): (r: string)
    ensures Trimmed(r, strip)
    ensures LeadingRun(s, strip) + |r| <= |s|
    ensures r == s[LeadingRun(s, strip)..LeadingRun(s, strip) + |r|]
    ensures forall k :: LeadingRun(s, strip) + |r| <= k < |s| ==> strip(s[k])
  {
    var left := s[LeadingRun(s, strip)..];
    left[..|left| - TrailingRun(left, strip)]
  }

  /** Trimming a string that is already trimmed changes nothing. */
  lemma TrimTrimmed(s: string, strip: char -> bool)
    requires Trimmed(s, strip)
    ensures Trim(s, strip) == s
  {
  }

  /** A stripped character in front of a trimmed string is removed and nothing else is. */
  lemma TrimAfterStripped(c: char, s: string, strip: char -> bool)
    requires strip(c) && Trimmed(s, strip)
    ensures Trim([c] + s, strip) == s
  {
    assert ([c] + s)[1..] == s;
  }

  /** A stripped character at each end of a non-empty trimmed string is removed and
      nothing else is. */
  lemma TrimPadded(c: char, s: string, d: char, strip: char -> bool)
    requires strip(c) && strip(d) && Trimmed(s, strip) && |s| > 0
    ensures Trim([c] + s + [d], strip) == s
  {
    var t := [c] + s + [d];
    assert LeadingRun(t, strip) == 1 by { assert t[1..] == s + [d]; assert t[1] == s[0]; }
    assert t[1..] == s + [d];
    assert TrailingRun(s + [d], strip) == 1 by { assert (s + [d])[..|s|] == s; }
    assert (s + [d])[..|s|] == s;
  }

  /** Every character of `s` is one that `strip` removes. */
  predicate AllOf(s: string, strip: char -> bool) {
    forall k :: 0 <= k < |s| ==> strip(s[k])
  }

  /** `s` is `t` with a run of `strip` characters on either side. */
  ghost predicate PaddedBy(s: string, t: string, strip: char -> bool) {
    exists a, b :: AllOf(a, strip) && AllOf(b, strip) && s == a + t + b
  }

  /** What `Trim` keeps is `s` with stripped padding removed from both ends. */
  lemma TrimPadding(s: string, strip: char -> bool)
    ensures PaddedBy(s, Trim(s, strip), strip)
  {
    var r := Trim(s, strip);
    var n := LeadingRun(s, strip);
    PaddedAround(s, r, n, strip);
  }

  /** A slice of `s` with only stripped characters before and after it is padded by them. */
  lemma PaddedAround(s: string, r: string, n: nat, strip: char -> bool)
    requires n + |r| <= |s| && r == s[n..n + |r|]
    requires forall k :: 0 <= k < n ==> strip(s[k])
    requires forall k :: n + |r| <= k < |s| ==> strip(s[k])
    ensures PaddedBy(s, r, strip)
  {
    var a, b := s[..n], s[n + |r|..];
    assert AllOf(a, strip) by {
      forall k | 0 <= k < |a| ensures strip(a[k]) { assert a[k] == s[k]; }
    }
    assert AllOf(b, strip) by {
      forall k | 0 <= k < |b| ensures strip(b[k]) { assert b[k] == s[n + |r| + k]; }
    }
    assert s == a + r + b;
  }

  /** The converse: the only trimmed string that `s` pads is `Trim(s)`. */
  lemma TrimUnique(s: string, t: string, strip: char -> bool)
    requires Trimmed(t, strip) && PaddedBy(s, t, strip)
    ensures t == Trim(s, strip)
  {
    var a, b :| AllOf(a, strip) && AllOf(b, strip) && s == a + t + b;
    if |t| == 0 {
      assert s == a + b;
      TrimAllStripped(a, b, strip);
    } else {
      TrimCore(a, t, b, strip);
    }
  }

  /** Stripped characters alone trim to nothing. */
  lemma TrimAllStripped(a: string, b: string, strip: char -> bool)
    requires AllOf(a, strip) && AllOf(b, strip)
    ensures Trim(a + b, strip) == ""
  {
    var s := a + b;
    forall k | 0 <= k < |s| ensures strip(s[k]) {
      if k < |a| { assert s[k] == a[k]; } else { assert s[k] == b[k - |a|]; }
    }
    LeadingRunAll(s, strip);
  }

  /** Stripped padding around a non-empty trimmed core trims to the core. */
  lemma TrimCore(a: string, t: string, b: string, strip: char -> bool)
    requires AllOf(a, strip) && AllOf(b, strip) && Trimmed(t, strip) && |t| > 0
    ensures Trim(a + t + b, strip) == t
  {
    var s := a + t + b;
    var r := Trim(s, strip);
    assert s[|a|] == t[0];
    LeadingRunPrefix(s, |a|, strip);
    assert s[|a| + |t| - 1] == t[|t| - 1];
    forall k | |a| + |t| <= k < |s| ensures strip(s[k]) { assert s[k] == b[k - |a| - |t|]; }
    assert s[|a|..|a| + |t|] == t;
  }

  /** When every character is stripped, the leading run is the whole string. */
  lemma {:induction false} LeadingRunAll(s: string, strip: char -> bool)
    requires AllOf(s, strip)
    ensures LeadingRun(s, strip) == |s|
  {
    if |s| > 0 {
      LeadingRunAll(s[1..], strip);
    }
  }

  /** A stripped prefix followed by a kept character is exactly the leading run. */
  lemma {:induction false} LeadingRunPrefix(s: string, n: nat, strip: char -> bool)
    requires n < |s| && !strip(s[n])
    requires forall k :: 0 <= k < n ==> strip(s[k])
    ensures LeadingRun(s, strip) == n
  {
    if n > 0 {
      LeadingRunPrefix(s[1..], n - 1, strip);
    }
  }

  /** The ASCII whitespace bytes that Go's `bytes.TrimSpace` removes:
      tab, line feed, vertical tab, form feed, carriage return and space. */
  predicate IsSpace(c: char) {
    c == ' ' || c == '\t' || c == '\n' || c == '\r' || c as int == 11 || c as int == 12
  }

  /** Go's `bytes.TrimSpace` / `strings.TrimSpace` on ASCII text. */
  function TrimSpace(s: string): (r: string)
    ensures Trimmed(r, IsSpace)
    ensures |r| <= |s|
  {
    Trim(s, IsSpace)
  }

  /** ASCII lower-casing of one character. */
  function LowerAscii(c: char): char {
    if 'A' <= c <= 'Z' then (c as int + 32) as char else c
  }

  /** Go's `strings.EqualFold` restricted to ASCII case folding. */
  predicate EqualFold(a: string, b: string) {
    |a| == |b| && forall i :: 0 <= i < |a| ==> LowerAscii(a[i]) == LowerAscii(b[i])
  }

  /** `order` lists every key of a Go map exactly once: one possible order of a `range`
      loop over the map, which Go leaves unspecified. */
  predicate Enumerates(order: seq<string>, keys: set<string>) {
    && (forall i :: 0 <= i < |order| ==> order[i] in keys)
    && (forall k :: k in keys ==> k in order)
    && Distinct(order)
  }

  /** No entry of `s` occurs twice. */
  predicate Distinct(s: seq<string>) {
    forall i, j :: 0 <= i < j < |s| ==> s[i] != s[j]
  }

  /** An enumeration of a key set has one entry per key. */
  lemma {:induction false} EnumerationLength(order: seq<string>, keys: set<string>)
    requires Enumerates(order, keys)
    ensures |order| == |keys|
    decreases |order|
  {
    if |order| == 0 {
      assert keys == {};
    } else {
      var rest := keys - {order[0]};
      forall i | 0 <= i < |order[1..]| ensures order[1..][i] in rest {
        assert order[1..][i] == order[i + 1];
      }
      forall k | k in rest ensures k in order[1..] {
        var i :| 0 <= i < |order| && order[i] == k;
        assert i != 0;
        assert order[1..][i - 1] == k;
      }
      EnumerationLength(order[1..], rest);
    }
  }
}
