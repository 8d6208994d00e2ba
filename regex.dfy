/** The four regular expressions of src/main.ts. Each is a chain of literals
    and greedy runs. Every run but one is followed by a character the run
    cannot contain. The commit message run `([^(]+) \(` can hold the space
    that must follow it, but not the `(`, so it ends right before the first
    `(` and gives back one space. Either way backtracking never finds a
    second way to match at a given start position: the scanners below
    compute that one match directly. */
module Regex {
  import opened Text
  import opened RegExpExec

  datatype Pattern =
      /** `^#+ \[*\d+\.\d+\.\d+\]*` with the g and m flags (main.ts:23). */
    | VersionHeading
      /** `\[(\d+\.\d+\.\d+)\]\(([^)]+)` without flags (main.ts:34). */
    | VersionLink
      /** `### (.+)` with the g and m flags (main.ts:47). */
    | SectionHeading
      /** `- \*\*([^:]+):\*\* ([^(]+) \(\[([^\]]+)\]\(([^)]+)\)` with the g and
          s flags (main.ts:60). */
    | CommitEntry

  function Arity(pat: Pattern): nat {
    match pat
    case VersionHeading => 0
    case VersionLink => 2
    case SectionHeading => 1
    case CommitEntry => 4
  }

  /** `^` in multiline mode. */
  predicate AtLineStart(s: string, p: nat)
    requires p <= |s|
  {
    p == 0 || IsLineTerminator(s[p - 1])
  }

  /** `\d+\.\d+\.\d+` at `i`: where the version number ends, if there is one. */
  function VersionNumberEnd(s: string, i: nat): (r: Option<nat>)
    requires i <= |s|
    ensures r.Some? ==> i < r.value <= |s|
  {
    var a := SkipDigits(s, i);
    if a == i || a == |s| || s[a] != '.' then None
    else
      var b := SkipDigits(s, a + 1);
      if b == a + 1 || b == |s| || s[b] != '.' then None
      else
        var c := SkipDigits(s, b + 1);
        if c == b + 1 then None else Some(c)
  }

  function VersionHeadingAt(s: string, p: nat): (r: Option<Match>)
    requires p <= |s|
    ensures r.Some? ==> r.value.index == p && p < r.value.end <= |s| && r.value.groups == []
  {
    if !AtLineStart(s, p) then None
    else
      var h := SkipRun(s, '#', p);
      if h == p || h == |s| || s[h] != ' ' then None
      else
        match VersionNumberEnd(s, SkipRun(s, '[', h + 1))
        case None => None
        case Some(v) => Some(Match(p, SkipRun(s, ']', v), []))
  }

  function VersionLinkAt(s: string, p: nat): (r: Option<Match>)
    requires p <= |s|
    ensures r.Some? ==> r.value.index == p && p < r.value.end <= |s| && |r.value.groups| == 2
  {
    if p == |s| || s[p] != '[' then None
    else
      match VersionNumberEnd(s, p + 1)
      case None => None
      case Some(v) =>
        if v + 2 > |s| || s[v] != ']' || s[v + 1] != '(' then None
        else
          var u := Find(s, ')', v + 2);
          if u == v + 2 then None else Some(Match(p, u, [s[p + 1..v], s[v + 2..u]]))
  }

  function SectionHeadingAt(s: string, p: nat): (r: Option<Match>)
    requires p <= |s|
    ensures r.Some? ==> r.value.index == p && p < r.value.end <= |s| && |r.value.groups| == 1
  {
    if && p + 5 <= |s|
       && s[p] == '#' && s[p + 1] == '#' && s[p + 2] == '#' && s[p + 3] == ' '
       && !IsLineTerminator(s[p + 4])
    then
      var e := FindLineTerminator(s, p + 4);
      Some(Match(p, e, [s[p + 4..e]]))
    else
      None
  }

  /** The message group `[^(]+` runs to the first `(`, and the space the
      expression wants before that parenthesis is given back from the run. */
  function CommitEntryAt(s: string, p: nat): (r: Option<Match>)
    requires p <= |s|
    ensures r.Some? ==> r.value.index == p && p < r.value.end <= |s| && |r.value.groups| == 4
  {
    if !(p + 4 <= |s| && s[p] == '-' && s[p + 1] == ' ' && s[p + 2] == '*' && s[p + 3] == '*') then None
    else
      var t := Find(s, ':', p + 4);
      if t == p + 4 || !(t + 4 <= |s| && s[t + 1] == '*' && s[t + 2] == '*' && s[t + 3] == ' ') then None
      else
        var o := Find(s, '(', t + 4);
        if o == |s| || o < t + 6 || s[o - 1] != ' ' || o + 1 == |s| || s[o + 1] != '[' then None
        else
          var h := Find(s, ']', o + 2);
          if h == o + 2 || h + 1 >= |s| || s[h + 1] != '(' then None
          else
            var u := Find(s, ')', h + 2);
            if u == h + 2 || u == |s| then None
            else Some(Match(p, u + 1, [s[p + 4..t], s[t + 4..o - 1], s[o + 2..h], s[h + 2..u]]))
  }

  /** Whether, and how, `pat` matches `s` starting exactly at `p`. */
  function MatchAt(pat: Pattern, s: string, p: nat): (r: Option<Match>)
    requires p <= |s|
    ensures r.Some? ==> r.value.index == p && p < r.value.end <= |s| && |r.value.groups| == Arity(pat)
  {
    match pat
    case VersionHeading => VersionHeadingAt(s, p)
    case VersionLink => VersionLinkAt(s, p)
    case SectionHeading => SectionHeadingAt(s, p)
    case CommitEntry => CommitEntryAt(s, p)
  }

  /** The expression as a matcher over `s`. */
  function MatcherOf(pat: Pattern, s: string): Matcher {
    (p: nat) => if p <= |s| then MatchAt(pat, s, p) else None
  }

  lemma MatcherWellBehaved(pat: Pattern, s: string)
    ensures WellBehaved(MatcherOf(pat, s), |s|)
  {
    forall p: nat | MatcherOf(pat, s)(p).Some?
      ensures MatcherOf(pat, s)(p).value.index == p && p < MatcherOf(pat, s)(p).value.end <= |s|
    {
      assert MatcherOf(pat, s)(p) == MatchAt(pat, s, p);
    }
  }

  lemma MatcherGroups(pat: Pattern, s: string)
    ensures GroupCount(MatcherOf(pat, s), Arity(pat))
  {
    forall p: nat | MatcherOf(pat, s)(p).Some?
      ensures |MatcherOf(pat, s)(p).value.groups| == Arity(pat)
    {
      assert MatcherOf(pat, s)(p) == MatchAt(pat, s, p);
    }
  }

  /** What `re.exec(s)` returns for `pat` with `re.lastIndex == lastIndex`:
      the match that starts first at or after `lastIndex`. */
  function ExecOn(pat: Pattern, s: string, lastIndex: nat): (r: Option<Match>)
    ensures r.Some? ==> lastIndex <= r.value.index < r.value.end <= |s|
    ensures r.Some? ==> MatchAt(pat, s, r.value.index) == r && |r.value.groups| == Arity(pat)
    ensures r.Some? ==> forall p :: lastIndex <= p < r.value.index ==> MatchAt(pat, s, p).None?
    ensures r.None? ==> forall p :: lastIndex <= p <= |s| ==> MatchAt(pat, s, p).None?
  {
    MatcherWellBehaved(pat, s);
    var r := Exec(MatcherOf(pat, s), |s|, lastIndex);
    assert forall p: nat :: p <= |s| ==> MatcherOf(pat, s)(p) == MatchAt(pat, s, p);
    r
  }

  /** The matches the exec loop of `pat` visits over `s` when `lastIndex`
      starts at the given value: in order, without overlapping. */
  function ExecAllOn(pat: Pattern, s: string, lastIndex: nat): (ms: seq<Match>)
    ensures forall i :: 0 <= i < |ms| ==> lastIndex <= ms[i].index < ms[i].end <= |s|
    ensures forall i :: 0 <= i < |ms| ==> |ms[i].groups| == Arity(pat)
    ensures forall i, j :: 0 <= i < j < |ms| ==> ms[i].end <= ms[j].index
  {
    MatcherWellBehaved(pat, s);
    MatcherGroups(pat, s);
    ExecAll(MatcherOf(pat, s), |s|, lastIndex)
  }

  /** Each match the exec loop visits is the match `pat` makes at its index. */
  lemma ExecAllOnMatch(pat: Pattern, s: string, lastIndex: nat, i: nat)
    requires i < |ExecAllOn(pat, s, lastIndex)|
    ensures var m := ExecAllOn(pat, s, lastIndex)[i];
      m.index <= |s| && MatchAt(pat, s, m.index) == Some(m)
  {
    MatcherWellBehaved(pat, s);
    var m := ExecAllOn(pat, s, lastIndex)[i];
    assert MatcherOf(pat, s)(m.index) == MatchAt(pat, s, m.index);
  }

  /** One turn of the exec loop: it takes the match `exec` returns and goes
      on from its end, or stops when there is none. */
  lemma ExecAllOnStep(pat: Pattern, s: string, lastIndex: nat)
    ensures ExecOn(pat, s, lastIndex).None? ==> ExecAllOn(pat, s, lastIndex) == []
    ensures ExecOn(pat, s, lastIndex).Some? ==>
      ExecAllOn(pat, s, lastIndex) == [ExecOn(pat, s, lastIndex).value] + ExecAllOn(pat, s, ExecOn(pat, s, lastIndex).value.end)
  {
    MatcherWellBehaved(pat, s);
  }

  /** `exec` from a position where the expression matches returns that
      match, and the exec loop takes it and goes on from its end. */
  lemma ExecOnHit(pat: Pattern, s: string, x: nat)
    requires x <= |s| && MatchAt(pat, s, x).Some?
    ensures ExecOn(pat, s, x) == MatchAt(pat, s, x)
    ensures ExecAllOn(pat, s, x) == [MatchAt(pat, s, x).value] + ExecAllOn(pat, s, MatchAt(pat, s, x).value.end)
  {
    MatcherWellBehaved(pat, s);
    assert MatcherOf(pat, s)(x) == MatchAt(pat, s, x);
    ExecAllOnStep(pat, s, x);
  }

  /** The exec loop from a position where `pat` makes the match `m` takes
      `m` and goes on from its end. */
  lemma ExecAllOnHit(pat: Pattern, s: string, x: nat, m: Match)
    requires x <= |s| && MatchAt(pat, s, x) == Some(m)
    ensures ExecAllOn(pat, s, x) == [m] + ExecAllOn(pat, s, m.end)
  {
    ExecOnHit(pat, s, x);
  }

  /** `exec` from a position where the expression does not match returns
      what it returns from the next position. */
  lemma ExecOnSkip(pat: Pattern, s: string, x: nat)
    requires x <= |s| && MatchAt(pat, s, x).None?
    ensures ExecOn(pat, s, x) == ExecOn(pat, s, x + 1)
    ensures ExecAllOn(pat, s, x) == ExecAllOn(pat, s, x + 1)
  {
    MatcherWellBehaved(pat, s);
    assert MatcherOf(pat, s)(x) == MatchAt(pat, s, x);
  }

  /** None of the four expressions matches the empty rest of a string. */
  lemma ExecOnAtEnd(pat: Pattern, s: string)
    ensures ExecOn(pat, s, |s|).None? && ExecAllOn(pat, s, |s|) == []
  {
    MatcherWellBehaved(pat, s);
    assert MatchAt(pat, s, |s|).None?;
    ExecOnSkip(pat, s, |s|);
  }

  /** Every match start at or after `lastIndex` is visited by the exec loop
      or lies strictly inside a match the loop visited. */
  lemma ExecAllOnCovers(pat: Pattern, s: string, lastIndex: nat, q: nat)
    requires lastIndex <= q <= |s| && MatchAt(pat, s, q).Some?
    ensures StartsAtOrInside(ExecAllOn(pat, s, lastIndex), q)
  {
    MatcherWellBehaved(pat, s);
    assert MatcherOf(pat, s)(q) == MatchAt(pat, s, q);
    ExecAllSkipsOnlyInside(MatcherOf(pat, s), |s|, lastIndex, q);
  }

  // ---------------------------------------------------------------------
  // What a match of each expression covers.

  lemma DigitsSlice(v: string, lo: nat, hi: nat)
    requires lo < hi <= |v|
    requires forall k :: lo <= k < hi ==> IsDigit(v[k])
    ensures AllDigits(v[lo..hi])
  {
    var w := v[lo..hi];
    forall k | 0 <= k < |w| ensures IsDigit(w[k]) {
      assert w[k] == v[lo + k];
    }
  }

  /** Three non-empty digit runs joined by two dots form a version number. */
  lemma VersionNumberOf(v: string, a: nat, b: nat)
    requires 0 < a && a + 1 < b && b + 1 < |v| && v[a] == '.' && v[b] == '.'
    requires forall k :: 0 <= k < |v| && k != a && k != b ==> IsDigit(v[k])
    ensures IsVersionNumber(v)
  {
    DigitsSlice(v, 0, a);
    DigitsSlice(v, a + 1, b);
    DigitsSlice(v, b + 1, |v|);
    assert v[..a] == v[0..a] && v[b + 1..] == v[b + 1..|v|];
  }

  lemma VersionNumberShape(s: string, i: nat)
    requires i <= |s| && VersionNumberEnd(s, i).Some?
    ensures IsVersionNumber(s[i..VersionNumberEnd(s, i).value])
    ensures forall k :: i <= k < VersionNumberEnd(s, i).value ==> IsDigit(s[k]) || s[k] == '.'
  {
    var a := SkipDigits(s, i);
    var b := SkipDigits(s, a + 1);
    var c := SkipDigits(s, b + 1);
    var v := s[i..c];
    forall k | 0 <= k < |v| && k != a - i && k != b - i ensures IsDigit(v[k]) {
      assert v[k] == s[i + k];
    }
    VersionNumberOf(v, a - i, b - i);
  }

  /** A version heading lies within one line. */
  lemma VersionHeadingOneLine(s: string, p: nat)
    requires p <= |s| && MatchAt(VersionHeading, s, p).Some?
    ensures forall k :: p <= k < MatchAt(VersionHeading, s, p).value.end ==> !IsLineTerminator(s[k])
  {
    var h := SkipRun(s, '#', p);
    var b := SkipRun(s, '[', h + 1);
    VersionNumberShape(s, b);
  }

  /** A version-heading match, at a line start, is a non-empty run of `#`,
      a space, a run of `[`, a version number whose last digit run is whole,
      and the whole run of `]` after it, which ends the match. */
  lemma VersionHeadingShape(s: string, p: nat) returns (h: nat, b: nat, v: nat)
    requires p <= |s| && MatchAt(VersionHeading, s, p).Some?
    ensures var m := MatchAt(VersionHeading, s, p).value;
      && AtLineStart(s, p) && m.groups == []
      && p < h && h + 1 <= b < v <= m.end <= |s|
      && (forall k :: p <= k < h ==> s[k] == '#') && s[h] == ' '
      && (forall k :: h < k < b ==> s[k] == '[')
      && IsVersionNumber(s[b..v]) && (v == |s| || !IsDigit(s[v]))
      && (forall k :: v <= k < m.end ==> s[k] == ']')
      && (m.end == |s| || s[m.end] != ']')
  {
    h := SkipRun(s, '#', p);
    b := SkipRun(s, '[', h + 1);
    v := VersionNumberEnd(s, b).value;
    VersionNumberShape(s, b);
  }

  /** Where a version-link match puts its pieces. */
  lemma VersionLinkParts(s: string, p: nat) returns (v: nat, u: nat)
    requires p <= |s| && VersionLinkAt(s, p).Some?
    ensures p + 1 < v && v + 2 < u <= |s|
    ensures VersionNumberEnd(s, p + 1) == Some(v)
    ensures s[p] == '[' && s[v] == ']' && s[v + 1] == '('
    ensures forall k :: v + 2 <= k < u ==> s[k] != ')'
    ensures u == |s| || s[u] == ')'
    ensures VersionLinkAt(s, p) == Some(Match(p, u, [s[p + 1..v], s[v + 2..u]]))
  {
    v := VersionNumberEnd(s, p + 1).value;
    u := Find(s, ')', v + 2);
  }

  /** `c` does not occur in `s[a..b]` when no position of that range holds it. */
  lemma NotInSlice(s: string, a: nat, b: nat, c: char)
    requires a <= b <= |s|
    requires forall k :: a <= k < b ==> s[k] != c
    ensures c !in s[a..b]
  {
    forall j | 0 <= j < b - a ensures s[a..b][j] != c {
      assert s[a..b][j] == s[a + j];
    }
  }

  /** The slice `s[a..b]` occurs in `s` at `a`. */
  lemma SliceOccurs(s: string, a: nat, b: nat)
    requires a <= b <= |s|
    ensures OccursAt(s, s[a..b], a)
  {
    OccursAtSlice(s, s[a..b], a);
  }

  /** The text between a version link's literal pieces, read off `s`. */
  lemma SliceIsVersionLink(s: string, p: nat, v: nat, u: nat)
    requires p + 1 <= v && v + 2 <= u <= |s|
    requires s[p] == '[' && s[v] == ']' && s[v + 1] == '('
    ensures s[p..u] == "[" + s[p + 1..v] + "](" + s[v + 2..u]
  {
    var g0, g1 := s[p + 1..v], s[v + 2..u];
    CharOccurs(s, p, '[');
    SliceOccurs(s, p + 1, v);
    OccursAtConcat(s, "[", g0, p, p + 1);
    PairOccurs(s, v, ']', '(');
    OccursAtConcat(s, "[" + g0, "](", p, v);
    SliceOccurs(s, v + 2, u);
    OccursAtConcat(s, "[" + g0 + "](", g1, p, v + 2);
    OccursAtSlice(s, "[" + g0 + "](" + g1, p);
  }

  /** A version-link match covers `[`, the version, `](` and the URL, which
      runs up to the next `)` or the end of the string. */
  lemma VersionLinkShape(s: string, p: nat)
    requires p <= |s| && MatchAt(VersionLink, s, p).Some?
    ensures var m := MatchAt(VersionLink, s, p).value;
      && s[p..m.end] == "[" + m.groups[0] + "](" + m.groups[1]
      && IsVersionNumber(m.groups[0])
      && m.groups[1] != [] && ')' !in m.groups[1]
      && (m.end == |s| || s[m.end] == ')')
  {
    var v, u := VersionLinkParts(s, p);
    VersionNumberShape(s, p + 1);
    NotInSlice(s, v + 2, u, ')');
    SliceIsVersionLink(s, p, v, u);
  }

  /** A section-heading match is `### ` and a non-empty rest of the line. */
  lemma SectionHeadingShape(s: string, p: nat)
    requires p <= |s| && MatchAt(SectionHeading, s, p).Some?
    ensures var m := MatchAt(SectionHeading, s, p).value;
      && p + 4 < m.end
      && s[p] == '#' && s[p + 1] == '#' && s[p + 2] == '#' && s[p + 3] == ' '
      && m.groups[0] == s[p + 4..m.end]
      && (forall k :: p <= k < m.end ==> !IsLineTerminator(s[k]))
      && (m.end == |s| || IsLineTerminator(s[m.end]))
  {
  }

  /** `- **type:** message`: the part of a commit bullet before its link. */
  function BulletHead(kind: string, message: string): string {
    "- **" + kind + ":** " + message
  }

  /** ` ([hash](url)`: a commit bullet's link up to the parenthesis that
      closes the URL. */
  function BulletLink(hash: string, url: string): string {
    " ([" + hash + "](" + url + ")"
  }

  /** The text a commit match covers: a bullet up to the closing parenthesis
      of its URL, i.e. everything but the bullet's final `)`. */
  function BulletText(kind: string, message: string, hash: string, url: string): string {
    BulletHead(kind, message) + BulletLink(hash, url)
  }

  /** The four parts a commit bullet can carry. */
  predicate WellFormedParts(kind: string, message: string, hash: string, url: string) {
    && kind != [] && ':' !in kind
    && message != [] && '(' !in message
    && hash != [] && ']' !in hash
    && url != [] && ')' !in url
  }

  /** Where each piece of a bullet's head sits. */
  lemma HeadLayout(kind: string, message: string)
    ensures var b := BulletHead(kind, message);
      && |b| == 8 + |kind| + |message|
      && OccursAt(b, "- **", 0) && OccursAt(b, kind, 4)
      && OccursAt(b, ":** ", 4 + |kind|) && OccursAt(b, message, 8 + |kind|)
  {
  }

  /** Where each piece of a bullet's link sits. */
  lemma LinkLayout(hash: string, url: string)
    ensures var b := BulletLink(hash, url);
      && |b| == 6 + |hash| + |url|
      && OccursAt(b, " ([", 0) && OccursAt(b, hash, 3)
      && OccursAt(b, "](", 3 + |hash|) && OccursAt(b, url, 5 + |hash|)
      && OccursAt(b, ")", 5 + |hash| + |url|)
  {
  }

  /** Where a commit match puts its pieces: `t` is the colon after the
      type, `o` the parenthesis after the message, `h` the bracket after the
      hash and `u` the parenthesis that closes the link. */
  lemma CommitEntryParts(s: string, p: nat) returns (t: nat, o: nat, h: nat, u: nat)
    requires p <= |s| && CommitEntryAt(s, p).Some?
    ensures p + 4 < t && t + 4 < o - 1 && o + 2 < h && h + 2 < u < |s|
    ensures s[p] == '-' && s[p + 1] == ' ' && s[p + 2] == '*' && s[p + 3] == '*'
    ensures s[t] == ':' && s[t + 1] == '*' && s[t + 2] == '*' && s[t + 3] == ' '
    ensures s[o - 1] == ' ' && s[o] == '(' && s[o + 1] == '['
    ensures s[h] == ']' && s[h + 1] == '(' && s[u] == ')'
    ensures forall k :: p + 4 <= k < t ==> s[k] != ':'
    ensures forall k :: t + 4 <= k < o ==> s[k] != '('
    ensures forall k :: o + 2 <= k < h ==> s[k] != ']'
    ensures forall k :: h + 2 <= k < u ==> s[k] != ')'
    ensures CommitEntryAt(s, p) == Some(Match(p, u + 1, [s[p + 4..t], s[t + 4..o - 1], s[o + 2..h], s[h + 2..u]]))
  {
    t := Find(s, ':', p + 4);
    o := Find(s, '(', t + 4);
    h := Find(s, ']', o + 2);
    u := Find(s, ')', h + 2);
  }

  /** The head of a bullet read off `s` between its literal pieces. */
  lemma SliceIsHead(s: string, p: nat, t: nat, e: nat)
    requires p + 4 <= t && t + 4 <= e <= |s|
    requires s[p] == '-' && s[p + 1] == ' ' && s[p + 2] == '*' && s[p + 3] == '*'
    requires s[t] == ':' && s[t + 1] == '*' && s[t + 2] == '*' && s[t + 3] == ' '
    ensures OccursAt(s, BulletHead(s[p + 4..t], s[t + 4..e]), p)
  {
    var kind, message := s[p + 4..t], s[t + 4..e];
    SliceOccurs(s, p + 4, t);
    SliceOccurs(s, t + 4, e);
    QuadOccurs(s, p, '-', ' ', '*', '*');
    OccursAtConcat(s, "- **", kind, p, p + 4);
    QuadOccurs(s, t, ':', '*', '*', ' ');
    OccursAtConcat(s, "- **" + kind, ":** ", p, t);
    OccursAtConcat(s, "- **" + kind + ":** ", message, p, t + 4);
  }

  /** The link of a bullet read off `s` between its literal pieces, the
      link starting at `o - 1`. */
  lemma SliceIsLink(s: string, o: nat, h: nat, u: nat)
    requires 1 <= o && o + 2 <= h && h + 2 <= u < |s|
    requires s[o - 1] == ' ' && s[o] == '(' && s[o + 1] == '['
    requires s[h] == ']' && s[h + 1] == '(' && s[u] == ')'
    ensures OccursAt(s, BulletLink(s[o + 2..h], s[h + 2..u]), o - 1)
  {
    var hash, url := s[o + 2..h], s[h + 2..u];
    SliceOccurs(s, o + 2, h);
    SliceOccurs(s, h + 2, u);
    TripleOccurs(s, o - 1, ' ', '(', '[');
    OccursAtConcat(s, " ([", hash, o - 1, o + 2);
    PairOccurs(s, h, ']', '(');
    OccursAtConcat(s, " ([" + hash, "](", o - 1, h);
    OccursAtConcat(s, " ([" + hash + "](", url, o - 1, h + 2);
    CharOccurs(s, u, ')');
    OccursAtConcat(s, " ([" + hash + "](" + url, ")", o - 1, u);
  }

  /** The text between the literal pieces of a bullet, read off `s`, is a
      bullet made of those four slices. */
  lemma SliceIsBullet(s: string, p: nat, t: nat, o: nat, h: nat, u: nat)
    requires p + 4 <= t && t + 4 <= o - 1 && o + 2 <= h && h + 2 <= u < |s|
    requires s[p] == '-' && s[p + 1] == ' ' && s[p + 2] == '*' && s[p + 3] == '*'
    requires s[t] == ':' && s[t + 1] == '*' && s[t + 2] == '*' && s[t + 3] == ' '
    requires s[o - 1] == ' ' && s[o] == '(' && s[o + 1] == '['
    requires s[h] == ']' && s[h + 1] == '(' && s[u] == ')'
    ensures s[p..u + 1] == BulletText(s[p + 4..t], s[t + 4..o - 1], s[o + 2..h], s[h + 2..u])
  {
    var kind, message, hash, url := s[p + 4..t], s[t + 4..o - 1], s[o + 2..h], s[h + 2..u];
    var head, link := BulletHead(kind, message), BulletLink(hash, url);
    SliceIsHead(s, p, t, o - 1);
    SliceIsLink(s, o, h, u);
    HeadLayout(kind, message);
    LinkLayout(hash, url);
    OccursAtConcat(s, head, link, p, o - 1);
    assert |head + link| == u + 1 - p;
    OccursAtSlice(s, head + link, p);
  }

  /** Every commit match is a bullet made of its own four groups, and the
      groups are exactly the parts a bullet can carry. */
  lemma CommitEntryShape(s: string, p: nat)
    requires p <= |s| && MatchAt(CommitEntry, s, p).Some?
    ensures var m := MatchAt(CommitEntry, s, p).value;
      && s[p..m.end] == BulletText(m.groups[0], m.groups[1], m.groups[2], m.groups[3])
      && WellFormedParts(m.groups[0], m.groups[1], m.groups[2], m.groups[3])
  {
    var t, o, h, u := CommitEntryParts(s, p);
    SliceIsBullet(s, p, t, o, h, u);
    NotInSlice(s, p + 4, t, ':');
    NotInSlice(s, t + 4, o - 1, '(');
    NotInSlice(s, o + 2, h, ']');
    NotInSlice(s, h + 2, u, ')');
  }

  /** A bullet's head written into `s` at `p`, read back piece by piece. */
  lemma HeadInText(s: string, p: nat, t: nat, e: nat, kind: string, message: string)
    requires t == p + 4 + |kind| && e == t + 4 + |message|
    requires OccursAt(s, BulletHead(kind, message), p)
    ensures e <= |s|
    ensures s[p] == '-' && s[p + 1] == ' ' && s[p + 2] == '*' && s[p + 3] == '*'
    ensures s[t] == ':' && s[t + 1] == '*' && s[t + 2] == '*' && s[t + 3] == ' '
    ensures OccursAt(s, kind, p + 4) && OccursAt(s, message, t + 4)
  {
    var b := BulletHead(kind, message);
    HeadLayout(kind, message);
    OccursAtWithin(s, b, p, "- **", 0, p);
    OccursAtWithin(s, b, p, kind, 4, p + 4);
    OccursAtWithin(s, b, p, ":** ", 4 + |kind|, t);
    OccursAtWithin(s, b, p, message, 8 + |kind|, t + 4);
    QuadOccurs(s, p, '-', ' ', '*', '*');
    QuadOccurs(s, t, ':', '*', '*', ' ');
  }

  /** A bullet's link written into `s` at `o - 1`, read back piece by piece. */
  lemma LinkInText(s: string, o: nat, h: nat, u: nat, hash: string, url: string)
    requires 1 <= o && h == o + 2 + |hash| && u == h + 2 + |url|
    requires OccursAt(s, BulletLink(hash, url), o - 1)
    ensures u < |s|
    ensures s[o - 1] == ' ' && s[o] == '(' && s[o + 1] == '['
    ensures s[h] == ']' && s[h + 1] == '(' && s[u] == ')'
    ensures OccursAt(s, hash, o + 2) && OccursAt(s, url, h + 2)
  {
    var b := BulletLink(hash, url);
    LinkLayout(hash, url);
    OccursAtWithin(s, b, o - 1, " ([", 0, o - 1);
    OccursAtWithin(s, b, o - 1, hash, 3, o + 2);
    OccursAtWithin(s, b, o - 1, "](", 3 + |hash|, h);
    OccursAtWithin(s, b, o - 1, url, 5 + |hash|, h + 2);
    OccursAtWithin(s, b, o - 1, ")", 5 + |hash| + |url|, u);
    TripleOccurs(s, o - 1, ' ', '(', '[');
    PairOccurs(s, h, ']', '(');
    CharOccurs(s, u, ')');
  }

  /** `Find` run over an occurrence of a part free of `c`, and then over a
      stretch free of `c`, stops at the `c` that follows. */
  lemma FindPastPart(s: string, c: char, a: nat, x: string, e: nat)
    requires a + |x| <= e < |s| && s[e] == c
    requires OccursAt(s, x, a) && c !in x
    requires forall k :: a + |x| <= k < e ==> s[k] != c
    ensures Find(s, c, a) == e
  {
    forall k | a <= k < a + |x| ensures s[k] != c {
      assert s[a + (k - a)] == x[k - a];
    }
  }

  /** A commit match starts with `-`. */
  lemma NoCommitAt(s: string, x: nat)
    requires x < |s| && s[x] != '-'
    ensures MatchAt(CommitEntry, s, x).None?
  {
  }

  /** What the commit scanner needs of a bullet's head at `p`: the literal
      characters around the type, and `:` and `(` first found at `t` and
      `o`, with the type and the message between. */
  predicate HeadScanned(s: string, p: nat, t: nat, o: nat, kind: string, message: string) {
    && p + 4 <= t && t + 4 < o < |s|
    && s[p] == '-' && s[p + 1] == ' ' && s[p + 2] == '*' && s[p + 3] == '*'
    && s[t + 1] == '*' && s[t + 2] == '*' && s[t + 3] == ' ' && s[o - 1] == ' '
    && Find(s, ':', p + 4) == t && Find(s, '(', t + 4) == o
    && s[p + 4..t] == kind && s[t + 4..o - 1] == message
  }

  /** What the commit scanner needs of a bullet's link at `o - 1`: `[` and
      `(` in place, and `]` and `)` first found at `h` and `u`, with the hash
      and the URL between. */
  predicate LinkScanned(s: string, o: nat, h: nat, u: nat, hash: string, url: string) {
    && o + 2 <= h && h + 2 <= u < |s|
    && s[o + 1] == '[' && s[h + 1] == '('
    && Find(s, ']', o + 2) == h && Find(s, ')', h + 2) == u
    && s[o + 2..h] == hash && s[h + 2..u] == url
  }

  /** What the commit scanner sees of a bullet's head written at `p`, given
      the ` (` that opens its link right after it, at `o - 1`. */
  lemma HeadSeen(s: string, p: nat, t: nat, o: nat, kind: string, message: string)
    requires ':' !in kind && '(' !in message
    requires OccursAt(s, BulletHead(kind, message), p)
    requires t == p + 4 + |kind| && o == t + 5 + |message|
    requires o < |s| && s[o - 1] == ' ' && s[o] == '('
    ensures HeadScanned(s, p, t, o, kind, message)
  {
    HeadInText(s, p, t, o - 1, kind, message);
    FindPastPart(s, ':', p + 4, kind, t);
    FindPastPart(s, '(', t + 4, message, o);
    OccursAtSlice(s, kind, p + 4);
    OccursAtSlice(s, message, t + 4);
  }

  /** What the commit scanner sees of a bullet's link written at `o - 1`. */
  lemma LinkSeen(s: string, o: nat, h: nat, u: nat, hash: string, url: string)
    requires ']' !in hash && ')' !in url
    requires 1 <= o && OccursAt(s, BulletLink(hash, url), o - 1)
    requires h == o + 2 + |hash| && u == h + 2 + |url|
    ensures s[o - 1] == ' ' && s[o] == '('
    ensures LinkScanned(s, o, h, u, hash, url)
  {
    LinkInText(s, o, h, u, hash, url);
    FindPastPart(s, ']', o + 2, hash, h);
    FindPastPart(s, ')', h + 2, url, u);
    OccursAtSlice(s, hash, o + 2);
    OccursAtSlice(s, url, h + 2);
  }

  /** The commit scanner accepts at `p` once it has seen a head and a link
      there with non-empty parts; the groups are the four parts. */
  lemma CommitEntryAtFrom(s: string, p: nat, t: nat, o: nat, h: nat, u: nat,
                          kind: string, message: string, hash: string, url: string)
    requires kind != [] && message != [] && hash != [] && url != []
    requires HeadScanned(s, p, t, o, kind, message)
    requires LinkScanned(s, o, h, u, hash, url)
    ensures MatchAt(CommitEntry, s, p) == Some(Match(p, u + 1, [kind, message, hash, url]))
  {
  }

  /** A bullet written at `p` holds its head at `p` and its link right
      after, at `o - 1`. */
  lemma BulletHalves(s: string, p: nat, o: nat, kind: string, message: string, hash: string, url: string)
    requires o == p + 9 + |kind| + |message|
    requires OccursAt(s, BulletText(kind, message, hash, url), p)
    ensures OccursAt(s, BulletHead(kind, message), p)
    ensures OccursAt(s, BulletLink(hash, url), o - 1)
    ensures |BulletText(kind, message, hash, url)| == 14 + |kind| + |message| + |hash| + |url|
  {
    var head, link := BulletHead(kind, message), BulletLink(hash, url);
    HeadLayout(kind, message);
    LinkLayout(hash, url);
    OccursInConcat(head, link);
    OccursAtWithin(s, head + link, p, head, 0, p);
    OccursAtWithin(s, head + link, p, link, |head|, o - 1);
  }

  /** A bullet written at `p` is seen by the commit scanner as a head and a
      link made of its four parts, ending just before the bullet's final
      `)`. */
  lemma BulletScanned(s: string, p: nat, kind: string, message: string, hash: string, url: string)
      returns (t: nat, o: nat, h: nat, u: nat)
    requires WellFormedParts(kind, message, hash, url)
    requires OccursAt(s, BulletText(kind, message, hash, url), p)
    ensures HeadScanned(s, p, t, o, kind, message)
    ensures LinkScanned(s, o, h, u, hash, url)
    ensures u + 1 == p + |BulletText(kind, message, hash, url)|
  {
    t := p + 4 + |kind|;
    o := t + 5 + |message|;
    h := o + 2 + |hash|;
    u := h + 2 + |url|;
    BulletHalves(s, p, o, kind, message, hash, url);
    LinkSeen(s, o, h, u, hash, url);
    HeadSeen(s, p, t, o, kind, message);
  }

  /** Conversely, a bullet made of well-formed parts is matched at its start,
      and the match gives those parts back. */
  lemma CommitEntryAtBullet(s: string, p: nat, kind: string, message: string, hash: string, url: string)
    requires WellFormedParts(kind, message, hash, url)
    requires OccursAt(s, BulletText(kind, message, hash, url), p)
    ensures MatchAt(CommitEntry, s, p)
      == Some(Match(p, p + |BulletText(kind, message, hash, url)|, [kind, message, hash, url]))
  {
    var t, o, h, u := BulletScanned(s, p, kind, message, hash, url);
    CommitEntryAtFrom(s, p, t, o, h, u, kind, message, hash, url);
  }
}
