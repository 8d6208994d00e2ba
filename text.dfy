/** String helpers with the JavaScript semantics that main.ts relies on: the
    character classes of its regular expressions, `String.prototype.slice`
    with `undefined` bounds, `split('\n')` followed by `shift()` and
    `join('\n')`, `replace` with a string pattern, `replace(/\n/g, '')` and
    `trim()`. Strings are sequences of characters; every offset is an index
    into that sequence. */
module Text {

  datatype Option<+T> = None | Some(value: T)

  /** ECMAScript LineTerminator: what `^` looks behind in multiline mode and
      what `.` refuses to match. */
  predicate IsLineTerminator(c: char) {
    c == '\n' || c == '\r' || c == '\U{2028}' || c == '\U{2029}'
  }

  /** `\d`: the ASCII digits only. */
  predicate IsDigit(c: char) {
    '0' <= c <= '9'
  }

  /** What `trim()` strips: ECMAScript WhiteSpace (tab, vertical tab, form
      feed, space, no-break space, byte order mark and every other Unicode
      space separator) and LineTerminator. */
  predicate IsSpace(c: char) {
    || c == '\t' || c == '\U{000B}' || c == '\U{000C}' || c == ' '
    || c == '\U{00A0}' || c == '\U{FEFF}' || c == '\U{1680}'
    || ('\U{2000}' <= c <= '\U{200A}')
    || c == '\U{202F}' || c == '\U{205F}' || c == '\U{3000}'
    || IsLineTerminator(c)
  }

  predicate AllDigits(s: string) {
    |s| > 0 && forall k :: 0 <= k < |s| ==> IsDigit(s[k])
  }

  predicate AllSpace(s: string) {
    forall k :: 0 <= k < |s| ==> IsSpace(s[k])
  }

  /** A `MAJOR.MINOR.PATCH` string: three non-empty digit runs joined by dots. */
  ghost predicate IsVersionNumber(v: string) {
    exists i, j :: 0 < i < j < |v| - 1 && v[i] == '.' && v[j] == '.'
      && AllDigits(v[..i]) && AllDigits(v[i + 1..j]) && AllDigits(v[j + 1..])
  }

  /** Index of the first `c` at or after `from`, or `|s|` when there is none:
      where a greedy `[^c]+` run that starts at `from` stops. */
  function Find(s: string, c: char, from: nat): (r: nat)
    requires from <= |s|
    ensures from <= r <= |s|
    ensures forall k :: from <= k < r ==> s[k] != c
    ensures r < |s| ==> s[r] == c
    decreases |s| - from
  {
    if from == |s| || s[from] == c then from else Find(s, c, from + 1)
  }

  /** End of the run of `c` that starts at `from`: a greedy `c*`. */
  function SkipRun(s: string, c: char, from: nat): (r: nat)
    requires from <= |s|
    ensures from <= r <= |s|
    ensures forall k :: from <= k < r ==> s[k] == c
    ensures r < |s| ==> s[r] != c
    decreases |s| - from
  {
    if from == |s| || s[from] != c then from else SkipRun(s, c, from + 1)
  }

  /** End of the run of digits that starts at `from`: a greedy `\d*`. */
  function SkipDigits(s: string, from: nat): (r: nat)
    requires from <= |s|
    ensures from <= r <= |s|
    ensures forall k :: from <= k < r ==> IsDigit(s[k])
    ensures r < |s| ==> !IsDigit(s[r])
    decreases |s| - from
  {
    if from == |s| || !IsDigit(s[from]) then from else SkipDigits(s, from + 1)
  }

  /** First line terminator at or after `from`, or `|s|`: where a greedy
      `.*` that starts at `from` stops. */
  function FindLineTerminator(s: string, from: nat): (r: nat)
    requires from <= |s|
    ensures from <= r <= |s|
    ensures forall k :: from <= k < r ==> !IsLineTerminator(s[k])
    ensures r < |s| ==> IsLineTerminator(s[r])
    decreases |s| - from
  {
    if from == |s| || IsLineTerminator(s[from]) then from else FindLineTerminator(s, from + 1)
  }

  /** `xs[i]`: `undefined` past the end of the array. */
  function At<T>(xs: seq<T>, i: nat): (r: Option<T>)
    ensures r.Some? <==> i < |xs|
    ensures r.Some? ==> r.value == xs[i]
  {
    if i < |xs| then Some(xs[i]) else None
  }

  /** `s.slice(start, end)` for bounds that are never negative; `None` is
      `undefined`, which means the start (resp. the end) of the string, and a
      bound past the end is clamped to it. */
  function Slice(s: string, start: Option<nat>, end: Option<nat>): (r: string)
    ensures start.None? && end.None? ==> r == s
    ensures start.Some? && start.value <= |s| && end.None? ==> r == s[start.value..]
    ensures start.Some? && end.Some? && start.value <= end.value <= |s| ==> r == s[start.value..end.value]
    ensures start.Some? && end.Some? && end.value <= start.value ==> r == ""
  {
    var from := if start.None? then 0 else if start.value < |s| then start.value else |s|;
    var to := if end.None? then |s| else if end.value < |s| then end.value else |s|;
    if from < to then s[from..to] else ""
  }

  /** `lines = s.split('\n')`, `first = lines.shift()`, `rest = lines.join('\n')`:
      the text before the first line feed and the text after it. */
  function SplitFirstLine(s: string): (r: (string, string))
    ensures '\n' !in r.0
    ensures |r.0| <= |s| && r.0 == s[..|r.0|]
    ensures |r.0| < |s| ==> s[|r.0|] == '\n'
    ensures '\n' in s ==> s == r.0 + "\n" + r.1
    ensures '\n' !in s ==> r == (s, "")
  {
    var i := Find(s, '\n', 0);
    if i == |s| then
      (s, "")
    else
      assert s == s[..i] + "\n" + s[i + 1..];
      (s[..i], s[i + 1..])
  }

  /** Splitting off the first line undoes joining a line-feed-free line to
      the rest with a line feed. */
  lemma SplitFirstLineJoin(first: string, rest: string)
    requires '\n' !in first
    ensures SplitFirstLine(first + "\n" + rest) == (first, rest)
  {
    var s := first + "\n" + rest;
    assert forall k :: 0 <= k < |first| ==> s[k] == first[k];
    assert s[|first|] == '\n';
    assert s[..|first|] == first;
    assert s[|first| + 1..] == rest;
  }

  /** `pat` occurs in `s` at offset `k`. */
  predicate OccursAt(s: string, pat: string, k: nat) {
    k + |pat| <= |s| && forall j {:trigger pat[j]} :: 0 <= j < |pat| ==> s[k + j] == pat[j]
  }

  /** An occurrence is the slice of `s` that starts there. */
  lemma OccursAtSlice(s: string, pat: string, k: nat)
    requires k + |pat| <= |s|
    ensures OccursAt(s, pat, k) <==> s[k..k + |pat|] == pat
  {
    if OccursAt(s, pat, k) {
      forall j | 0 <= j < |pat| ensures s[k..k + |pat|][j] == pat[j] {
        assert s[k..k + |pat|][j] == s[k + j];
      }
    }
  }

  /** A literal of one to four characters occurs exactly where its
      characters are. */
  lemma CharOccurs(s: string, k: nat, a: char)
    requires k + 1 <= |s|
    ensures OccursAt(s, [a], k) <==> s[k] == a
  {
    if OccursAt(s, [a], k) {
      assert s[k + 0] == [a][0];
    }
  }

  lemma PairOccurs(s: string, k: nat, a: char, b: char)
    requires k + 2 <= |s|
    ensures OccursAt(s, [a, b], k) <==> s[k] == a && s[k + 1] == b
  {
    if OccursAt(s, [a, b], k) {
      assert s[k + 0] == [a, b][0] && s[k + 1] == [a, b][1];
    }
  }

  lemma TripleOccurs(s: string, k: nat, a: char, b: char, c: char)
    requires k + 3 <= |s|
    ensures OccursAt(s, [a, b, c], k) <==> s[k] == a && s[k + 1] == b && s[k + 2] == c
  {
    if OccursAt(s, [a, b, c], k) {
      assert s[k + 0] == [a, b, c][0] && s[k + 1] == [a, b, c][1] && s[k + 2] == [a, b, c][2];
    }
  }

  lemma QuadOccurs(s: string, k: nat, a: char, b: char, c: char, d: char)
    requires k + 4 <= |s|
    ensures OccursAt(s, [a, b, c, d], k) <==> s[k] == a && s[k + 1] == b && s[k + 2] == c && s[k + 3] == d
  {
    if OccursAt(s, [a, b, c, d], k) {
      assert s[k + 0] == [a, b, c, d][0] && s[k + 1] == [a, b, c, d][1];
      assert s[k + 2] == [a, b, c, d][2] && s[k + 3] == [a, b, c, d][3];
    }
  }

  /** Two occurrences side by side are an occurrence of the concatenation. */
  lemma OccursAtConcat(s: string, x: string, y: string, k: nat, m: nat)
    requires m == k + |x|
    requires OccursAt(s, x, k) && OccursAt(s, y, m)
    ensures OccursAt(s, x + y, k)
  {
    forall j | 0 <= j < |x + y| ensures s[k + j] == (x + y)[j] {
      if j >= |x| {
        assert s[k + |x| + (j - |x|)] == y[j - |x|];
      }
    }
  }

  /** What follows `pos` in `s` starts with `x`: `x` occurs there, and the
      rest follows it. */
  lemma PrefixOccurs(s: string, pos: nat, x: string, y: string)
    requires pos <= |s| && s[pos..] == x + y
    ensures OccursAt(s, x, pos) && s[pos + |x|..] == y
  {
    forall j | 0 <= j < |x| ensures s[pos + j] == x[j] {
      assert s[pos..][j] == (x + y)[j];
    }
    assert s[pos + |x|..] == s[pos..][|x|..];
  }

  /** Equal strings with the same ending are equal before it. */
  lemma SuffixCancel(a: string, b: string, x: string)
    requires a + x == b + x
    ensures a == b
  {
    assert a == (a + x)[..|a|];
    assert b == (b + x)[..|b|];
  }

  /** Both halves of a concatenation occur in it. */
  lemma OccursInConcat(x: string, y: string)
    ensures OccursAt(x + y, x, 0) && OccursAt(x + y, y, |x|)
  {
    forall j | 0 <= j < |x| ensures (x + y)[0 + j] == x[j] {
    }
    forall j | 0 <= j < |y| ensures (x + y)[|x| + j] == y[j] {
    }
  }

  /** What occurs inside an occurrence occurs in the enclosing string. */
  lemma OccursAtWithin(s: string, b: string, p: nat, x: string, off: nat, at: nat)
    requires at == p + off
    requires OccursAt(s, b, p) && OccursAt(b, x, off)
    ensures OccursAt(s, x, at)
  {
    forall j | 0 <= j < |x| ensures s[at + j] == x[j] {
      assert b[off + j] == x[j];
      assert s[p + (off + j)] == b[off + j];
    }
  }

  /** `s.indexOf(pat, from)`, with `None` for -1. */
  function IndexOf(s: string, pat: string, from: nat): (r: Option<nat>)
    requires from <= |s|
    ensures r.Some? ==> from <= r.value && OccursAt(s, pat, r.value)
    ensures r.Some? ==> forall k :: from <= k < r.value ==> !OccursAt(s, pat, k)
    ensures r.None? ==> forall k :: from <= k ==> !OccursAt(s, pat, k)
    decreases |s| - from
  {
    if from + |pat| > |s| then None
    else if OccursAt(s, pat, from) then Some(from)
    else if from == |s| then None
    else IndexOf(s, pat, from + 1)
  }

  /** `s.replace(pat, rep)` with a string pattern: only the first occurrence
      is replaced; without one the string is unchanged. */
  function ReplaceFirst(s: string, pat: string, rep: string): (r: string)
    ensures (forall k :: !OccursAt(s, pat, k)) ==> r == s
  {
    match IndexOf(s, pat, 0)
    case None => s
    case Some(i) => s[..i] + rep + s[i + |pat|..]
  }

  /** With an occurrence, the first one (and only it) is replaced. */
  lemma ReplaceFirstLeftmost(s: string, pat: string, rep: string, i: nat)
    requires OccursAt(s, pat, i)
    requires forall k :: 0 <= k < i ==> !OccursAt(s, pat, k)
    ensures ReplaceFirst(s, pat, rep) == s[..i] + rep + s[i + |pat|..]
  {
    assert IndexOf(s, pat, 0) == Some(i);
  }

  /** Replacing with nothing cannot bring in a character that was absent. */
  lemma ReplaceFirstAbsent(s: string, pat: string, c: char)
    requires c !in s
    ensures c !in ReplaceFirst(s, pat, "")
  {
    match IndexOf(s, pat, 0)
    case None =>
    case Some(i) =>
      assert ReplaceFirst(s, pat, "") == s[..i] + s[i + |pat|..];
  }

  /** A string that starts with `pat` has that occurrence replaced. */
  lemma ReplaceFirstAtStart(pat: string, t: string, rep: string)
    ensures ReplaceFirst(pat + t, pat, rep) == rep + t
  {
    OccursInConcat(pat, t);
    assert (pat + t)[|pat|..] == t;
  }

  /** `s.replace(/c/g, '')`: every `c` removed, everything else kept in order. */
  function RemoveChar(s: string, c: char): (r: string)
    ensures c !in r
    ensures multiset(r) == multiset(s)[c := 0]
    ensures c !in s ==> r == s
  {
    if s == [] then []
    else
      assert s == [s[0]] + s[1..];
      (if s[0] == c then [] else [s[0]]) + RemoveChar(s[1..], c)
  }

  /** Removing a character works piece by piece: what is left of a
      concatenation is what is left of each part, in the same order. */
  lemma {:induction false} RemoveCharConcat(a: string, b: string, c: char)
    ensures RemoveChar(a + b, c) == RemoveChar(a, c) + RemoveChar(b, c)
  {
    if a == [] {
      assert a + b == b;
    } else {
      assert (a + b)[0] == a[0];
      assert (a + b)[1..] == a[1..] + b;
      RemoveCharConcat(a[1..], b, c);
    }
  }

  /** Number of occurrences of `c` in `s`. */
  function CountChar(s: string, c: char): nat {
    if s == [] then 0 else (if s[0] == c then 1 else 0) + CountChar(s[1..], c)
  }

  lemma {:induction false} CountCharConcat(a: string, b: string, c: char)
    ensures CountChar(a + b, c) == CountChar(a, c) + CountChar(b, c)
  {
    if a != [] {
      assert (a + b)[0] == a[0];
      assert (a + b)[1..] == a[1..] + b;
      CountCharConcat(a[1..], b, c);
    } else {
      assert a + b == b;
    }
  }

  lemma {:induction false} CountCharAbsent(s: string, c: char)
    requires c !in s
    ensures CountChar(s, c) == 0
  {
    if s != [] {
      CountCharAbsent(s[1..], c);
    }
  }

  /** `trimStart()`: the suffix left after dropping leading white space. */
  function TrimStart(s: string): (r: string)
    ensures |r| <= |s| && r == s[|s| - |r|..]
    ensures AllSpace(s[..|s| - |r|])
    ensures r == [] || !IsSpace(r[0])
  {
    if s == [] || !IsSpace(s[0]) then s else TrimStart(s[1..])
  }

  /** `trimEnd()`: the prefix left after dropping trailing white space. */
  function TrimEnd(s: string): (r: string)
    ensures |r| <= |s| && r == s[..|r|]
    ensures AllSpace(s[|r|..])
    ensures r == [] || !IsSpace(r[|r| - 1])
  {
    if s == [] || !IsSpace(s[|s| - 1]) then s else TrimEnd(s[..|s| - 1])
  }

  /** `trim()`. */
  function Trim(s: string): (r: string)
    ensures |r| <= |s|
    ensures r == [] || (!IsSpace(r[0]) && !IsSpace(r[|r| - 1]))
  {
    TrimEnd(TrimStart(s))
  }

  /** `trim()` gives the middle of the text: what it removes on either side
      is white space. */
  lemma TrimMiddle(s: string) returns (a: nat)
    ensures a + |Trim(s)| <= |s|
    ensures AllSpace(s[..a]) && s[a..a + |Trim(s)|] == Trim(s) && AllSpace(s[a + |Trim(s)|..])
  {
    var t := TrimStart(s);
    a := |s| - |t|;
    var r := TrimEnd(t);
    assert r == Trim(s);
    SuffixSlices(s, a, |r|);
  }

  /** Slices of a suffix are slices of the whole. */
  lemma SuffixSlices(s: string, a: nat, n: nat)
    requires a + n <= |s|
    ensures s[a..][..n] == s[a..a + n] && s[a..][n..] == s[a + n..]
  {
  }

  lemma {:induction false} TrimStartPadded(pre: string, rest: string)
    requires AllSpace(pre)
    requires rest == [] || !IsSpace(rest[0])
    ensures TrimStart(pre + rest) == rest
  {
    if pre == [] {
      assert pre + rest == rest;
    } else {
      assert (pre + rest)[0] == pre[0];
      assert (pre + rest)[1..] == pre[1..] + rest;
      TrimStartPadded(pre[1..], rest);
    }
  }

  lemma {:induction false} TrimEndPadded(rest: string, post: string)
    requires AllSpace(post)
    requires rest == [] || !IsSpace(rest[|rest| - 1])
    ensures TrimEnd(rest + post) == rest
  {
    if post == [] {
      assert rest + post == rest;
    } else {
      var s := rest + post;
      assert s[|s| - 1] == post[|post| - 1];
      assert s[..|s| - 1] == rest + post[..|post| - 1];
      TrimEndPadded(rest, post[..|post| - 1]);
    }
  }

  /** `trim()` gives back exactly the text between white-space padding,
      provided that text neither starts nor ends with white space. */
  lemma TrimPadded(pre: string, mid: string, post: string)
    requires AllSpace(pre) && AllSpace(post)
    requires mid == [] || (!IsSpace(mid[0]) && !IsSpace(mid[|mid| - 1]))
    ensures Trim(pre + mid + post) == mid
  {
    if mid == [] {
      assert pre + mid + post == pre + post;
      assert AllSpace(pre + post);
      TrimStartPadded(pre + post, []);
      assert pre + post + [] == pre + post;
    } else {
      assert pre + mid + post == pre + (mid + post);
      TrimStartPadded(pre, mid + post);
      TrimEndPadded(mid, post);
    }
  }
  /** Trimming a text that ends with a line feed after a non-space
      character, and starts with a non-space character, drops just the
      line feed. */
  lemma TrimFinalLineFeed(r: string)
    requires |r| >= 2 && !IsSpace(r[0]) && !IsSpace(r[|r| - 2]) && r[|r| - 1] == '\n'
    ensures Trim(r) + "\n" == r
  {
    var mid := r[..|r| - 1];
    assert r == [] + mid + "\n";
    assert AllSpace("\n");
    TrimPadded([], mid, "\n");
  }

}
