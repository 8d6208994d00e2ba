/** A changelog written the way the release generator writes it, read back
    by the whole of `run()` (main.ts:23-115): the newest release's header
    line, one `### ` section of bullets, and an older release after it.
    The message names the newest release's version and URL, and its one
    section block carries that heading and exactly the written commits. */
module WrittenChangelog {
  import opened Text
  import opened RegExpExec
  import opened Regex
  import opened Offsets
  import opened CommitEntries
  import opened ReleaseSections
  import opened Releases
  import opened Blocks
  import opened Notifier

  /** No line terminator anywhere in `x`. */
  predicate OneLine(x: string) {
    forall k :: 0 <= k < |x| ==> !IsLineTerminator(x[k])
  }

  /** A commit whose parts hold no `#`. */
  predicate HashFree(c: Commit) {
    '#' !in c.kind && '#' !in c.message && '#' !in c.hash && '#' !in c.url
  }

  /** The header line of a release: `## [version](url)` and the rest of the
      line (the generator writes the date there). */
  function HeaderLine(version: string, url: string, date: string): string {
    "## [" + version + "](" + url + ")" + date
  }

  /** What follows the header line: a blank line, a `### ` heading, a blank
      line, the bullets one per line, and a blank line. */
  function SectionLines(heading: string, cs: seq<Commit>): string {
    "\n### " + heading + "\n\n" + BulletList(cs) + "\n\n"
  }

  /** A release with one section. */
  function ReleaseText(version: string, url: string, date: string, heading: string, cs: seq<Commit>): string {
    HeaderLine(version, url, date) + "\n" + SectionLines(heading, cs)
  }

  /** The parts a release can be written with and read back from: a
      version number; a non-empty URL without `)`, `#` or line feed; a date
      on the same line without `#`; a one-line heading without `#` that
      does not start like a version number; well-formed commits without
      `#`. */
  ghost predicate Writable(version: string, url: string, date: string, heading: string, cs: seq<Commit>) {
    && IsVersionNumber(version)
    && url != [] && ')' !in url && '\n' !in url && '#' !in url
    && '\n' !in date && '#' !in date
    && heading != [] && OneLine(heading) && '#' !in heading
    && !IsDigit(heading[0]) && heading[0] != '['
    && forall i :: 0 <= i < |cs| ==> WellFormed(cs[i]) && HashFree(cs[i])
  }

  // ---------------------------------------------------------------------
  // The scanners on written text.

  lemma {:induction false} SkipDigitsTo(s: string, i: nat, j: nat)
    requires i <= j <= |s|
    requires forall k :: i <= k < j ==> IsDigit(s[k])
    requires j == |s| || !IsDigit(s[j])
    ensures SkipDigits(s, i) == j
    decreases j - i
  {
    if i < j {
      SkipDigitsTo(s, i + 1, j);
    }
  }

  lemma {:induction false} FindLineTerminatorTo(s: string, i: nat, j: nat)
    requires i <= j <= |s|
    requires forall k :: i <= k < j ==> !IsLineTerminator(s[k])
    requires j == |s| || IsLineTerminator(s[j])
    ensures FindLineTerminator(s, i) == j
    decreases j - i
  {
    if i < j {
      FindLineTerminatorTo(s, i + 1, j);
    }
  }

  /** The digits of a digit run written at `i` are digits of `s`. */
  lemma DigitsAt(s: string, i: nat, v: string, lo: nat, hi: nat)
    requires OccursAt(s, v, i) && lo < hi <= |v| && AllDigits(v[lo..hi])
    ensures forall k :: i + lo <= k < i + hi ==> IsDigit(s[k])
  {
    forall k | i + lo <= k < i + hi ensures IsDigit(s[k]) {
      var j := k - i;
      assert s[i + j] == v[j];
      assert v[lo..hi][j - lo] == v[j];
    }
  }

  /** A digit run written at `i` and not followed by a digit is skipped
      to its end. */
  lemma DigitRunScanned(s: string, i: nat, v: string, lo: nat, hi: nat)
    requires OccursAt(s, v, i) && lo < hi <= |v| && AllDigits(v[lo..hi])
    requires i + hi == |s| || !IsDigit(s[i + hi])
    ensures SkipDigits(s, i + lo) == i + hi
  {
    DigitsAt(s, i, v, lo, hi);
    SkipDigitsTo(s, i + lo, i + hi);
  }

  /** The dots of a version number and the digit runs between them. */
  lemma VersionDots(v: string) returns (a: nat, b: nat)
    requires IsVersionNumber(v)
    ensures 0 < a < b < |v| - 1 && v[a] == '.' && v[b] == '.'
    ensures AllDigits(v[0..a]) && AllDigits(v[a + 1..b]) && AllDigits(v[b + 1..|v|])
  {
    a, b :| 0 < a < b < |v| - 1 && v[a] == '.' && v[b] == '.'
      && AllDigits(v[..a]) && AllDigits(v[a + 1..b]) && AllDigits(v[b + 1..]);
    assert v[..a] == v[0..a] && v[b + 1..] == v[b + 1..|v|];
  }

  /** A version number with its dots at `a` and `b`, written at `i` and not
      followed by a digit, is scanned to its end. */
  lemma VersionPartsAt(s: string, i: nat, v: string, a: nat, b: nat)
    requires OccursAt(s, v, i)
    requires 0 < a && a + 1 < b < |v| - 1 && s[i + a] == '.' && s[i + b] == '.'
    requires SkipDigits(s, i) == i + a
    requires SkipDigits(s, i + a + 1) == i + b
    requires SkipDigits(s, i + b + 1) == i + |v|
    ensures VersionNumberEnd(s, i) == Some(i + |v|)
  {
    assert i + a < |s| && i + b < |s|;
  }

  /** A version number written at `i` and not followed by a digit is
      scanned to its end. */
  lemma VersionNumberAt(s: string, i: nat, v: string)
    requires IsVersionNumber(v) && OccursAt(s, v, i)
    requires i + |v| == |s| || !IsDigit(s[i + |v|])
    ensures VersionNumberEnd(s, i) == Some(i + |v|)
  {
    var a, b := VersionDots(v);
    assert s[i + a] == v[a] && s[i + b] == v[b];
    DigitRunScanned(s, i, v, 0, a);
    DigitRunScanned(s, i, v, a + 1, b);
    DigitRunScanned(s, i, v, b + 1, |v|);
    VersionPartsAt(s, i, v, a, b);
  }

  /** The version-heading scanner on `#`s, a space, `[`, a version number
      that ends at `q` and one `]`. */
  lemma VersionHeadingParts(s: string, p: nat, q: nat)
    requires p + 4 < q < |s| && AtLineStart(s, p)
    requires s[p] == '#' && s[p + 1] == '#' && s[p + 2] == ' ' && s[p + 3] == '[' && IsDigit(s[p + 4])
    requires VersionNumberEnd(s, p + 4) == Some(q) && s[q] == ']'
    requires q + 1 == |s| || s[q + 1] != ']'
    ensures MatchAt(VersionHeading, s, p) == Some(Match(p, q + 1, []))
  {
    assert SkipRun(s, '#', p + 2) == p + 2;
    assert SkipRun(s, '#', p) == p + 2;
    assert SkipRun(s, '[', p + 3) == p + 4;
    assert SkipRun(s, ']', q + 1) == q + 1;
  }

  /** `## [version]` at a line start is a version heading that ends after
      the `]`, unless another `]` follows. */
  lemma VersionHeadingWritten(s: string, p: nat, v: string)
    requires p + 4 <= |s| && s[p] == '#' && s[p + 1] == '#' && s[p + 2] == ' ' && s[p + 3] == '['
    requires IsVersionNumber(v) && AtLineStart(s, p)
    requires OccursAt(s, v, p + 4) && p + 4 + |v| < |s| && s[p + 4 + |v|] == ']'
    requires p + 5 + |v| == |s| || s[p + 5 + |v|] != ']'
    ensures MatchAt(VersionHeading, s, p) == Some(Match(p, p + 5 + |v|, []))
  {
    assert IsDigit(s[p + 4]) by {
      var a :| 0 < a < |v| && AllDigits(v[..a]);
      assert v[..a][0] == v[0] && s[p + 4 + 0] == v[0];
    }
    VersionNumberAt(s, p + 4, v);
    VersionHeadingParts(s, p, p + 4 + |v|);
  }

  /** The version-link scanner on `[`, a version number `v` that ends at
      `w`, `](` and a URL `url` that ends at the `)` at `e`. */
  lemma VersionLinkParts(s: string, q: nat, w: nat, e: nat, v: string, url: string)
    requires q < w && w + 2 < e < |s|
    requires s[q] == '[' && VersionNumberEnd(s, q + 1) == Some(w)
    requires s[w] == ']' && s[w + 1] == '(' && Find(s, ')', w + 2) == e
    requires s[q + 1..w] == v && s[w + 2..e] == url
    ensures MatchAt(VersionLink, s, q) == Some(Match(q, e, [v, url]))
  {
  }

  /** What the version-link scanner finds on a written `[version](url)`. */
  lemma LinkScan(s: string, q: nat, v: string, url: string)
    requires IsVersionNumber(v) && url != [] && ')' !in url
    requires q < |s| && OccursAt(s, v, q + 1)
    requires q + 3 + |v| <= |s| && s[q + 1 + |v|] == ']'
    requires OccursAt(s, url, q + 3 + |v|)
    requires q + 3 + |v| + |url| < |s| && s[q + 3 + |v| + |url|] == ')'
    ensures VersionNumberEnd(s, q + 1) == Some(q + 1 + |v|)
    ensures Find(s, ')', q + 3 + |v|) == q + 3 + |v| + |url|
    ensures s[q + 1..q + 1 + |v|] == v && s[q + 3 + |v|..q + 3 + |v| + |url|] == url
  {
    VersionPartScan(s, q + 1, v);
    UrlPartScan(s, q + 3 + |v|, url);
  }

  /** The version-number scanner reads exactly a written version. */
  lemma VersionPartScan(s: string, w: nat, v: string)
    requires IsVersionNumber(v) && OccursAt(s, v, w) && w + |v| < |s| && s[w + |v|] == ']'
    ensures VersionNumberEnd(s, w) == Some(w + |v|) && s[w..w + |v|] == v
  {
    VersionNumberAt(s, w, v);
    OccursAtSlice(s, v, w);
  }

  /** Looking for `)` after a written URL free of `)` stops right after it. */
  lemma UrlPartScan(s: string, u: nat, url: string)
    requires ')' !in url && OccursAt(s, url, u) && u + |url| < |s| && s[u + |url|] == ')'
    ensures Find(s, ')', u) == u + |url| && s[u..u + |url|] == url
  {
    FindPastPart(s, ')', u, url, u + |url|);
    OccursAtSlice(s, url, u);
  }

  /** `[version](url)` with a non-empty URL free of `)` is a version link
      whose groups are the version and the URL. */
  lemma VersionLinkWritten(s: string, q: nat, v: string, url: string)
    requires IsVersionNumber(v) && url != [] && ')' !in url
    requires q < |s| && s[q] == '[' && OccursAt(s, v, q + 1)
    requires q + 3 + |v| <= |s| && s[q + 1 + |v|] == ']' && s[q + 2 + |v|] == '('
    requires OccursAt(s, url, q + 3 + |v|)
    requires q + 3 + |v| + |url| < |s| && s[q + 3 + |v| + |url|] == ')'
    ensures MatchAt(VersionLink, s, q) == Some(Match(q, q + 3 + |v| + |url|, [v, url]))
  {
    LinkScan(s, q, v, url);
    VersionLinkParts(s, q, q + 1 + |v|, q + 3 + |v| + |url|, v, url);
  }

  /** `### heading` up to a line end is a section heading capturing the
      heading. */
  lemma SectionHeadingWritten(s: string, p: nat, heading: string)
    requires heading != [] && OneLine(heading)
    requires p + 4 <= |s| && s[p] == '#' && s[p + 1] == '#' && s[p + 2] == '#' && s[p + 3] == ' '
    requires OccursAt(s, heading, p + 4)
    requires p + 4 + |heading| == |s| || IsLineTerminator(s[p + 4 + |heading|])
    ensures MatchAt(SectionHeading, s, p) == Some(Match(p, p + 4 + |heading|, [heading]))
  {
    assert s[p + 4 + 0] == heading[0];
    forall k | p + 4 <= k < p + 4 + |heading| ensures !IsLineTerminator(s[k]) {
      assert s[p + 4 + (k - p - 4)] == heading[k - p - 4];
    }
    FindLineTerminatorTo(s, p + 4, p + 4 + |heading|);
    OccursAtSlice(s, heading, p + 4);
  }

  /** A `### ` line whose heading does not start like a version number is
      no version heading, and neither are the positions after its first
      two `#`. */
  lemma SectionLineNotVersion(s: string, p: nat)
    requires p + 5 <= |s| && s[p] == '#' && s[p + 1] == '#' && s[p + 2] == '#' && s[p + 3] == ' '
    requires !IsDigit(s[p + 4]) && s[p + 4] != '['
    ensures MatchAt(VersionHeading, s, p).None?
    ensures MatchAt(VersionHeading, s, p + 1).None? && MatchAt(VersionHeading, s, p + 2).None?
  {
    assert SkipRun(s, '#', p + 3) == p + 3;
    assert SkipRun(s, '#', p + 1) == p + 3;
    assert SkipRun(s, '#', p) == p + 3;
    assert SkipRun(s, '[', p + 4) == p + 4;
    assert SkipDigits(s, p + 4) == p + 4;
  }

  /** Neither heading expression matches where there is no `#`. */
  lemma NoHeadingAt(pat: Pattern, s: string, p: nat)
    requires pat == VersionHeading || pat == SectionHeading
    requires p < |s| && s[p] != '#'
    ensures MatchAt(pat, s, p).None?
  {
    if pat == VersionHeading && AtLineStart(s, p) {
      assert SkipRun(s, '#', p) == p;
    }
  }

  /** `exec` of a heading expression passes over a character that is not
      `#`. */
  lemma HashFreeStep(pat: Pattern, s: string, lo: nat)
    requires pat == VersionHeading || pat == SectionHeading
    requires lo < |s| && s[lo] != '#'
    ensures ExecOn(pat, s, lo) == ExecOn(pat, s, lo + 1)
  {
    NoHeadingAt(pat, s, lo);
    ExecOnSkip(pat, s, lo);
  }

  /** No `#` in `s` from `lo` up to `hi`. */
  predicate NoHashIn(s: string, lo: nat, hi: nat)
    requires lo <= hi <= |s|
    decreases hi - lo
  {
    lo == hi || (s[lo] != '#' && NoHashIn(s, lo + 1, hi))
  }

  /** `exec` of a heading expression passes over a stretch without `#`. */
  lemma {:induction false} ExecSkipsNoHash(pat: Pattern, s: string, lo: nat, hi: nat)
    requires pat == VersionHeading || pat == SectionHeading
    requires lo <= hi <= |s| && NoHashIn(s, lo, hi)
    ensures ExecOn(pat, s, lo) == ExecOn(pat, s, hi)
    decreases hi - lo
  {
    if lo < hi {
      HashFreeStep(pat, s, lo);
      ExecSkipsNoHash(pat, s, lo + 1, hi);
    }
  }

  /** The exec loop goes on alike from two places where `exec` finds the
      same match. */
  lemma ExecAllOnSame(pat: Pattern, s: string, lo: nat, hi: nat)
    requires ExecOn(pat, s, lo) == ExecOn(pat, s, hi)
    ensures ExecAllOn(pat, s, lo) == ExecAllOn(pat, s, hi)
  {
    ExecAllOnStep(pat, s, lo);
    ExecAllOnStep(pat, s, hi);
  }

  /** The exec loop of a heading expression passes over a stretch without
      `#`. */
  lemma SkipNoHash(pat: Pattern, s: string, lo: nat, hi: nat)
    requires pat == VersionHeading || pat == SectionHeading
    requires lo <= hi <= |s| && NoHashIn(s, lo, hi)
    ensures ExecAllOn(pat, s, lo) == ExecAllOn(pat, s, hi)
  {
    ExecSkipsNoHash(pat, s, lo, hi);
    ExecAllOnSame(pat, s, lo, hi);
  }

  /** A written part without `#` leaves a stretch without `#`. */
  lemma {:induction false} HashFreeWritten(s: string, lo: nat, x: string)
    requires OccursAt(s, x, lo) && '#' !in x
    ensures NoHashIn(s, lo, lo + |x|)
    decreases |x|
  {
    if x != [] {
      assert s[lo + 0] == x[0];
      var y := x[1..];
      assert OccursAt(s, y, lo + 1) by {
        forall j | 0 <= j < |y| ensures s[lo + 1 + j] == y[j] {
          assert y[j] == x[j + 1];
        }
      }
      assert '#' !in y by {
        forall j | 0 <= j < |y| ensures y[j] != '#' {
          assert y[j] == x[j + 1];
        }
      }
      HashFreeWritten(s, lo + 1, y);
    }
  }

  /** The same, for a written part without `#`. */
  lemma SkipHashFree(pat: Pattern, s: string, lo: nat, x: string)
    requires pat == VersionHeading || pat == SectionHeading
    requires OccursAt(s, x, lo) && '#' !in x
    ensures ExecAllOn(pat, s, lo) == ExecAllOn(pat, s, lo + |x|)
  {
    HashFreeWritten(s, lo, x);
    SkipNoHash(pat, s, lo, lo + |x|);
  }

  // ---------------------------------------------------------------------
  // The parts of a written release.

  /** Every character of a version number is a digit or a dot. */
  lemma VersionChars(v: string)
    requires IsVersionNumber(v)
    ensures forall k :: 0 <= k < |v| ==> IsDigit(v[k]) || v[k] == '.'
  {
    var a, b := VersionDots(v);
    forall k | 0 <= k < |v| ensures IsDigit(v[k]) || v[k] == '.' {
      if k < a {
        assert v[0..a][k] == v[k];
      } else if a < k < b {
        assert v[a + 1..b][k - a - 1] == v[k];
      } else if b < k {
        assert v[b + 1..|v|][k - b - 1] == v[k];
      }
    }
  }

  /** No `#` in a bullet list of commits without `#`. */
  lemma {:induction false} BulletListHashFree(cs: seq<Commit>)
    requires forall i :: 0 <= i < |cs| ==> HashFree(cs[i])
    ensures '#' !in BulletList(cs)
    decreases |cs|
  {
    if cs != [] {
      assert HashFree(cs[0]);
      if |cs| > 1 {
        BulletListHashFree(cs[1..]);
      }
    }
  }

  /** The header line after `## [version]`: the link's `(url)`, the date,
      the line feed that ends it and the blank line. */
  function HeaderRest(url: string, date: string): string {
    "(" + url + ")" + date + "\n\n"
  }

  /** The section after its `###`: the heading and the bullets. */
  function SectionRest(heading: string, cs: seq<Commit>): string {
    " " + heading + "\n\n" + BulletList(cs) + "\n\n"
  }

  lemma ReleaseLayout(v: string, url: string, date: string, heading: string, cs: seq<Commit>, rest: string)
    ensures ReleaseText(v, url, date, heading, cs) + rest
      == "## [" + (v + ("]" + (HeaderRest(url, date) + ("###" + (SectionRest(heading, cs) + rest)))))
  {
  }

  /** What a written release offers the version-heading scanner. */
  lemma ReleaseParts(v: string, url: string, date: string, heading: string, cs: seq<Commit>)
    requires Writable(v, url, date, heading, cs)
    ensures var x := HeaderRest(url, date);
      x != [] && x[0] == '(' && '#' !in x
    ensures var y := SectionRest(heading, cs);
      |y| >= 2 && y[0] == ' ' && y[1] == heading[0] && '#' !in y
  {
    BulletListHashFree(cs);
  }

  /** `pat` matches nowhere from `lo` up to `hi`. */
  predicate NoHeadingFrom(pat: Pattern, s: string, lo: nat, hi: nat)
    requires lo <= hi <= |s|
    decreases hi - lo
  {
    lo == hi || (MatchAt(pat, s, lo).None? && NoHeadingFrom(pat, s, lo + 1, hi))
  }

  lemma {:induction false} NoHeadingFromAt(pat: Pattern, s: string, lo: nat, hi: nat, q: nat)
    requires lo <= q < hi <= |s| && NoHeadingFrom(pat, s, lo, hi)
    ensures MatchAt(pat, s, q).None?
    decreases q - lo
  {
    if lo < q {
      NoHeadingFromAt(pat, s, lo + 1, hi, q);
    }
  }

  lemma {:induction false} NoHeadingFromJoin(pat: Pattern, s: string, a: nat, b: nat, c: nat)
    requires a <= b <= c <= |s| && NoHeadingFrom(pat, s, a, b) && NoHeadingFrom(pat, s, b, c)
    ensures NoHeadingFrom(pat, s, a, c)
    decreases b - a
  {
    if a < b {
      NoHeadingFromJoin(pat, s, a + 1, b, c);
    }
  }

  /** Neither heading expression matches in a stretch without `#`. */
  lemma {:induction false} NoHashNoHeading(pat: Pattern, s: string, lo: nat, hi: nat)
    requires pat == VersionHeading || pat == SectionHeading
    requires lo <= hi <= |s| && NoHashIn(s, lo, hi)
    ensures NoHeadingFrom(pat, s, lo, hi)
    decreases hi - lo
  {
    if lo < hi {
      NoHeadingAt(pat, s, lo);
      NoHashNoHeading(pat, s, lo + 1, hi);
    }
  }

  /** A version heading at 0 is the first collected offset. */
  lemma FirstHeadingAtStart(w: string)
    requires 0 < |w| && MatchAt(VersionHeading, w, 0).Some?
    ensures var idx := MatchIndexes(VersionHeading, w);
      |idx| > 0 && idx[0] == 0
  {
    var idx := MatchIndexes(VersionHeading, w);
    VersionIndexesExact(w, 0);
    var j :| 0 <= j < |idx| && idx[j] == 0;
    assert idx[0] <= idx[j];
  }

  /** With no version heading in `1..e`, a second collected offset is at
      `e` or after it. */
  lemma SecondHeadingNotBefore(w: string, e: nat)
    requires 0 < e <= |w| && MatchAt(VersionHeading, w, 0).Some? && NoHeadingFrom(VersionHeading, w, 1, e)
    ensures var idx := MatchIndexes(VersionHeading, w);
      |idx| >= 2 ==> e <= idx[1]
  {
    var idx := MatchIndexes(VersionHeading, w);
    FirstHeadingAtStart(w);
    if |idx| >= 2 && idx[1] < e {
      NoHeadingFromAt(VersionHeading, w, 1, e, idx[1]);
    }
  }

  /** A version heading at `e > 0` gives a second collected offset no later
      than `e`. */
  lemma SecondHeadingNotAfter(w: string, e: nat)
    requires 0 < e < |w| && MatchAt(VersionHeading, w, 0).Some? && MatchAt(VersionHeading, w, e).Some?
    ensures var idx := MatchIndexes(VersionHeading, w);
      |idx| >= 2 && idx[1] <= e
  {
    var idx := MatchIndexes(VersionHeading, w);
    FirstHeadingAtStart(w);
    VersionIndexesExact(w, e);
    var k :| 0 <= k < |idx| && idx[k] == e;
    assert idx[1] <= idx[k];
  }

  /** The chunk of a changelog whose first version heading is at 0 and whose
      next one, if any, is at `e`. */
  lemma ChunkFromHeadings(w: string, e: nat)
    requires 0 < e <= |w|
    requires MatchAt(VersionHeading, w, 0).Some? && NoHeadingFrom(VersionHeading, w, 1, e)
    requires e == |w| || MatchAt(VersionHeading, w, e).Some?
    ensures VersionChunk(w) == w[..e]
  {
    var idx := MatchIndexes(VersionHeading, w);
    FirstHeadingAtStart(w);
    SecondHeadingNotBefore(w, e);
    if e < |w| {
      SecondHeadingNotAfter(w, e);
      assert w[idx[0]..idx[1]] == w[..e];
    } else {
      assert w[idx[0]..] == w[..e];
    }
  }

  /** A written release seen from its second `#`: the rest of its header
      line, the `###` of its section and the section. */
  lemma HashesEquation(v: string, url: string, date: string, heading: string, cs: seq<Commit>, rest: string)
    ensures ReleaseText(v, url, date, heading, cs) + rest
      == "##" + ((" [" + v + "]" + HeaderRest(url, date)) + ("###" + (SectionRest(heading, cs) + rest)))
  {
  }

  /** The parts of `##`, a stretch `z`, `###` and a stretch `y`. */
  lemma HashesLayout(w: string, z: string, y: string, rest: string)
    requires w == "##" + (z + ("###" + (y + rest)))
    ensures |w| == 5 + |z| + |y| + |rest|
    ensures w[0] == '#' && w[1] == '#' && OccursAt(w, z, 2)
    ensures w[2 + |z|] == '#' && w[3 + |z|] == '#' && w[4 + |z|] == '#'
    ensures OccursAt(w, y, 5 + |z|)
  {
    assert w[0..] == w;
    PrefixOccurs(w, 0, "##", z + ("###" + (y + rest)));
    PairOccurs(w, 0, '#', '#');
    PrefixOccurs(w, 2, z, "###" + (y + rest));
    PrefixOccurs(w, 2 + |z|, "###", y + rest);
    TripleOccurs(w, 2 + |z|, '#', '#', '#');
    PrefixOccurs(w, 5 + |z|, y, rest);
  }

  /** After its first character, `##`, a stretch without `#`, then `###`
      and a stretch without `#` whose second character does not start a
      version number hold no version heading. */
  lemma NoHeadingAfterStart(w: string, z: string, y: string, rest: string)
    requires w == "##" + (z + ("###" + (y + rest)))
    requires '#' !in z && |y| >= 2 && y[0] == ' ' && '#' !in y
    requires !IsDigit(y[1]) && y[1] != '['
    ensures NoHeadingFrom(VersionHeading, w, 1, 5 + |z| + |y|)
  {
    HashesLayout(w, z, y, rest);
    HashFreeWritten(w, 2, z);
    NoHashNoHeading(VersionHeading, w, 2, 2 + |z|);
    SectionLineNoHeading(w, 2 + |z|, y);
    NoHeadingFromJoin(VersionHeading, w, 2, 2 + |z|, 5 + |z| + |y|);
    assert !AtLineStart(w, 1);
  }

  /** No `#` in the header line after its `## `. */
  lemma HeaderHashFree(v: string, url: string, date: string)
    requires IsVersionNumber(v) && '#' !in url && '#' !in date
    ensures '#' !in " [" + v + "]" + HeaderRest(url, date)
  {
    VersionChars(v);
  }

  /** A `### ` line whose heading does not start like a version number,
      and whatever follows it without `#`, hold no version heading. */
  lemma SectionLineNoHeading(s: string, p: nat, y: string)
    requires p + 3 + |y| <= |s|
    requires s[p] == '#' && s[p + 1] == '#' && s[p + 2] == '#'
    requires OccursAt(s, y, p + 3) && |y| >= 2 && y[0] == ' ' && '#' !in y
    requires !IsDigit(y[1]) && y[1] != '['
    ensures NoHeadingFrom(VersionHeading, s, p, p + 3 + |y|)
  {
    assert s[p + 3 + 0] == y[0] && s[p + 3 + 1] == y[1];
    SectionLineNotVersion(s, p);
    HashFreeWritten(s, p + 3, y);
    NoHashNoHeading(VersionHeading, s, p + 3, p + 3 + |y|);
    assert NoHeadingFrom(VersionHeading, s, p + 2, p + 3 + |y|);
    assert NoHeadingFrom(VersionHeading, s, p + 1, p + 3 + |y|);
  }

  /** The characters and parts of `## [version]` and what follows. */
  lemma OpenLayout(w: string, v: string, x: string)
    requires w == "## [" + (v + ("]" + x)) && x != []
    ensures |w| == 5 + |v| + |x|
    ensures w[0] == '#' && w[1] == '#' && w[2] == ' ' && w[3] == '['
    ensures OccursAt(w, v, 4) && w[4 + |v|] == ']' && w[5 + |v|] == x[0]
  {
    assert w[0..] == w;
    PrefixOccurs(w, 0, "## [", v + ("]" + x));
    QuadOccurs(w, 0, '#', '#', ' ', '[');
    PrefixOccurs(w, 4, v, "]" + x);
    PrefixOccurs(w, 4 + |v|, "]", x);
    CharOccurs(w, 4 + |v|, ']');
    assert w[5 + |v|..] == x;
  }

  /** The header line of a written release starts `## [version](`. */
  lemma ReleaseOpenLayout(v: string, url: string, date: string, heading: string, cs: seq<Commit>, rest: string)
    ensures var w := ReleaseText(v, url, date, heading, cs) + rest;
      && 5 + |v| < |w|
      && w[0] == '#' && w[1] == '#' && w[2] == ' ' && w[3] == '['
      && OccursAt(w, v, 4) && w[4 + |v|] == ']' && w[5 + |v|] == '('
  {
    var x := HeaderRest(url, date) + ("###" + (SectionRest(heading, cs) + rest));
    ReleaseLayout(v, url, date, heading, cs, rest);
    OpenLayout(ReleaseText(v, url, date, heading, cs) + rest, v, x);
  }

  /** `## [version](` opens with a version heading. */
  lemma HeaderOpens(w: string, v: string)
    requires 5 + |v| < |w|
    requires w[0] == '#' && w[1] == '#' && w[2] == ' ' && w[3] == '['
    requires IsVersionNumber(v) && OccursAt(w, v, 4) && w[4 + |v|] == ']' && w[5 + |v|] == '('
    ensures MatchAt(VersionHeading, w, 0).Some?
  {
    VersionHeadingWritten(w, 0, v);
  }

  /** A written release opens with a version heading. */
  lemma ReleaseOpens(v: string, url: string, date: string, heading: string, cs: seq<Commit>, rest: string)
    requires IsVersionNumber(v)
    ensures MatchAt(VersionHeading, ReleaseText(v, url, date, heading, cs) + rest, 0).Some?
  {
    ReleaseOpenLayout(v, url, date, heading, cs, rest);
    HeaderOpens(ReleaseText(v, url, date, heading, cs) + rest, v);
  }

  /** No version heading in a written release after its first character. */
  lemma ReleaseHeadings(v: string, url: string, date: string, heading: string, cs: seq<Commit>, rest: string)
    requires Writable(v, url, date, heading, cs)
    ensures var r := ReleaseText(v, url, date, heading, cs);
      0 < |r| <= |r + rest| && NoHeadingFrom(VersionHeading, r + rest, 1, |r|)
  {
    var z := " [" + v + "]" + HeaderRest(url, date);
    var y := SectionRest(heading, cs);
    HashesEquation(v, url, date, heading, cs, rest);
    HeaderHashFree(v, url, date);
    ReleaseParts(v, url, date, heading, cs);
    NoHeadingAfterStart(ReleaseText(v, url, date, heading, cs) + rest, z, y, rest);
  }

  /** `## [version](` at a line start opens the next release. */
  lemma NextHeading(s: string, k: nat, v: string, rest: string)
    requires 0 < k <= |s| && s[k - 1] == '\n'
    requires s[k..] == "## [" + (v + ("](" + rest))
    requires IsVersionNumber(v)
    ensures MatchAt(VersionHeading, s, k).Some?
  {
    PrefixOccurs(s, k, "## [", v + ("](" + rest));
    QuadOccurs(s, k, '#', '#', ' ', '[');
    PrefixOccurs(s, k + 4, v, "](" + rest);
    PrefixOccurs(s, k + 4 + |v|, "](", rest);
    PairOccurs(s, k + 4 + |v|, ']', '(');
    VersionHeadingWritten(s, k, v);
  }

  /** Followed by an older release, the newest one is the chunk. */
  lemma ChunkBeforeOlder(v: string, url: string, date: string, heading: string, cs: seq<Commit>, v2: string, tail: string)
    requires Writable(v, url, date, heading, cs) && IsVersionNumber(v2)
    ensures var r := ReleaseText(v, url, date, heading, cs);
      VersionChunk(r + ("## [" + (v2 + ("](" + tail)))) == r
  {
    var r := ReleaseText(v, url, date, heading, cs);
    var n := "## [" + (v2 + ("](" + tail));
    var w := r + n;
    ReleaseHeadings(v, url, date, heading, cs, n);
    ReleaseOpens(v, url, date, heading, cs, n);
    assert r[|r| - 1] == '\n';
    assert w[|r|..] == n;
    NextHeading(w, |r|, v2, tail);
    ChunkFromHeadings(w, |r|);
    assert w[..|r|] == r;
  }

  /** On its own, the release is the chunk. */
  lemma ChunkAlone(v: string, url: string, date: string, heading: string, cs: seq<Commit>)
    requires Writable(v, url, date, heading, cs)
    ensures VersionChunk(ReleaseText(v, url, date, heading, cs)) == ReleaseText(v, url, date, heading, cs)
  {
    var r := ReleaseText(v, url, date, heading, cs);
    ReleaseHeadings(v, url, date, heading, cs, []);
    ReleaseOpens(v, url, date, heading, cs, []);
    assert r + [] == r;
    ChunkFromHeadings(r, |r|);
    assert r[..|r|] == r;
  }

  // ---------------------------------------------------------------------
  // The header line and the details.

  /** The characters and parts of a written header line. */
  lemma HeaderLayout(v: string, url: string, date: string)
    ensures var h := HeaderLine(v, url, date);
      && 7 + |v| + |url| <= |h|
      && h[0] == '#' && h[1] == '#' && h[2] == ' ' && h[3] == '['
      && OccursAt(h, v, 4) && h[4 + |v|] == ']' && h[5 + |v|] == '('
      && OccursAt(h, url, 6 + |v|) && h[6 + |v| + |url|] == ')'
  {
    var h := HeaderLine(v, url, date);
    var t := v + ("](" + (url + (")" + date)));
    assert h == "## [" + t;
    assert h[0..] == h;
    PrefixOccurs(h, 0, "## [", t);
    QuadOccurs(h, 0, '#', '#', ' ', '[');
    PrefixOccurs(h, 4, v, "](" + (url + (")" + date)));
    PrefixOccurs(h, 4 + |v|, "](", url + (")" + date));
    PairOccurs(h, 4 + |v|, ']', '(');
    PrefixOccurs(h, 6 + |v|, url, ")" + date);
    PrefixOccurs(h, 6 + |v| + |url|, ")", date);
    CharOccurs(h, 6 + |v| + |url|, ')');
  }

  /** The exec loop passes over three positions where `pat` does not
      match. */
  lemma SkipThree(pat: Pattern, s: string, p: nat)
    requires p + 3 <= |s|
    requires MatchAt(pat, s, p).None? && MatchAt(pat, s, p + 1).None? && MatchAt(pat, s, p + 2).None?
    ensures ExecOn(pat, s, p) == ExecOn(pat, s, p + 3)
  {
    ExecOnSkip(pat, s, p);
    ExecOnSkip(pat, s, p + 1);
    ExecOnSkip(pat, s, p + 2);
  }

  /** The leftmost link on a line that starts `## [version](url)`. */
  lemma LinkAfterHashes(h: string, v: string, url: string)
    requires 7 + |v| + |url| <= |h|
    requires IsVersionNumber(v) && url != [] && ')' !in url
    requires h[0] == '#' && h[1] == '#' && h[2] == ' ' && h[3] == '['
    requires OccursAt(h, v, 4) && h[4 + |v|] == ']' && h[5 + |v|] == '('
    requires OccursAt(h, url, 6 + |v|) && h[6 + |v| + |url|] == ')'
    ensures ExecOn(VersionLink, h, 0) == Some(Match(3, 6 + |v| + |url|, [v, url]))
  {
    VersionLinkWritten(h, 3, v, url);
    SkipThree(VersionLink, h, 0);
    ExecOnHit(VersionLink, h, 3);
  }

  /** The link on a written header line is the leftmost one and captures
      the version and the URL. */
  lemma LinkOnHeader(v: string, url: string, date: string)
    requires IsVersionNumber(v) && url != [] && ')' !in url
    ensures ExecOn(VersionLink, HeaderLine(v, url, date), 0) == Some(Match(3, 6 + |v| + |url|, [v, url]))
  {
    HeaderLayout(v, url, date);
    LinkAfterHashes(HeaderLine(v, url, date), v, url);
  }

  /** A written release parses to its version, its URL and the lines after
      its header line. */
  lemma ParseWritten(v: string, url: string, date: string, heading: string, cs: seq<Commit>)
    requires Writable(v, url, date, heading, cs)
    ensures ParseRelease(ReleaseText(v, url, date, heading, cs)) == Some(Release(v, url, SectionLines(heading, cs)))
  {
    var h := HeaderLine(v, url, date);
    VersionChars(v);
    assert '\n' !in h;
    SplitFirstLineJoin(h, SectionLines(heading, cs));
    LinkOnHeader(v, url, date);
  }

  /** The characters and parts of the details of a written release. */
  lemma SectionLinesLayout(heading: string, cs: seq<Commit>)
    ensures var l := SectionLines(heading, cs);
      var z := "\n\n" + BulletList(cs) + "\n\n";
      && |l| == 5 + |heading| + |z|
      && l[0] == '\n' && l[1] == '#' && l[2] == '#' && l[3] == '#' && l[4] == ' '
      && OccursAt(l, heading, 5) && OccursAt(l, z, 5 + |heading|)
  {
    var z := "\n\n" + BulletList(cs) + "\n\n";
    assert SectionLines(heading, cs) == "\n" + ("###" + (" " + (heading + z)));
    HeadingLineLayout(heading, z);
  }

  /** Where the parts of a `### ` line and what follows it lie. */
  lemma HeadingLineLayout(heading: string, z: string)
    ensures var l := "\n" + ("###" + (" " + (heading + z)));
      && |l| == 5 + |heading| + |z|
      && l[0] == '\n' && l[1] == '#' && l[2] == '#' && l[3] == '#' && l[4] == ' '
      && OccursAt(l, heading, 5) && OccursAt(l, z, 5 + |heading|)
  {
    var l := "\n" + ("###" + (" " + (heading + z)));
    assert l[0..] == l;
    PrefixOccurs(l, 0, "\n", "###" + (" " + (heading + z)));
    CharOccurs(l, 0, '\n');
    PrefixOccurs(l, 1, "###", " " + (heading + z));
    TripleOccurs(l, 1, '#', '#', '#');
    PrefixOccurs(l, 4, " ", heading + z);
    CharOccurs(l, 4, ' ');
    PrefixOccurs(l, 5, heading, z);
    assert l[5 + |heading|..] == z + [];
    PrefixOccurs(l, 5 + |heading|, z, []);
  }

  /** The section-heading exec loop over a line feed, one `### ` line and
      a stretch without `#` that starts with a line feed. */
  lemma SectionTrace(l: string, heading: string, z: string)
    requires |l| == 5 + |heading| + |z|
    requires heading != [] && OneLine(heading)
    requires l[0] == '\n' && l[1] == '#' && l[2] == '#' && l[3] == '#' && l[4] == ' '
    requires OccursAt(l, heading, 5) && OccursAt(l, z, 5 + |heading|)
    requires z != [] && z[0] == '\n' && '#' !in z
    ensures ExecAllOn(SectionHeading, l, 0) == [Match(1, 5 + |heading|, [heading])]
  {
    assert l[5 + |heading| + 0] == z[0];
    NoHeadingAt(SectionHeading, l, 0);
    ExecOnSkip(SectionHeading, l, 0);
    SectionHeadingWritten(l, 1, heading);
    ExecAllOnHit(SectionHeading, l, 1, Match(1, 5 + |heading|, [heading]));
    SkipHashFree(SectionHeading, l, 5 + |heading|, z);
    ExecOnAtEnd(SectionHeading, l);
  }

  /** The section-heading exec loop finds the one `### ` line. */
  lemma SectionIndexesWritten(heading: string, cs: seq<Commit>)
    requires heading != [] && OneLine(heading)
    requires forall i :: 0 <= i < |cs| ==> HashFree(cs[i])
    ensures MatchIndexes(SectionHeading, SectionLines(heading, cs)) == [1]
  {
    var z := "\n\n" + BulletList(cs) + "\n\n";
    BulletListHashFree(cs);
    SectionLinesLayout(heading, cs);
    SectionTrace(SectionLines(heading, cs), heading, z);
  }

  /** Trimming the lines under a written heading leaves the bullets. */
  lemma BodyTrims(cs: seq<Commit>)
    ensures Trim("\n" + BulletList(cs) + "\n\n") == BulletList(cs)
  {
    if cs != [] {
      BulletListEnds(cs);
    }
    TrimPadded("\n", BulletList(cs), "\n\n");
  }

  /** The span of the one heading reads back as that heading and the
      written commits. */
  lemma SectionSpanWritten(heading: string, cs: seq<Commit>)
    requires '\n' !in heading
    requires forall i :: 0 <= i < |cs| ==> WellFormed(cs[i])
    ensures SectionOf(SectionLines(heading, cs)[1..]) == Section(heading, SectionText(cs))
  {
    var body := "\n" + BulletList(cs) + "\n\n";
    var raw := "### " + heading + "\n" + body;
    assert SectionLines(heading, cs)[1..] == raw;
    SplitWritten(heading, body);
    BodyTrims(cs);
    SectionTextOfBullets(raw, cs);
  }

  /** The details of a written release make one section. */
  lemma SectionsWritten(heading: string, cs: seq<Commit>)
    requires heading != [] && OneLine(heading) && '#' !in heading
    requires forall i :: 0 <= i < |cs| ==> WellFormed(cs[i]) && HashFree(cs[i])
    ensures Sections(SectionLines(heading, cs)) == [Section(heading, SectionText(cs))]
  {
    var l := SectionLines(heading, cs);
    SectionIndexesWritten(heading, cs);
    assert RawSection(l, 0) == l[1..];
    assert '\n' !in heading by {
      forall k | 0 <= k < |heading| ensures heading[k] != '\n' {
        assert !IsLineTerminator(heading[k]);
      }
    }
    SectionSpanWritten(heading, cs);
  }

  // ---------------------------------------------------------------------
  // The whole of `run()`.

  /** `run()` on a chunk that parses to `rel`, whose details make the one
      section `sec`. */
  lemma NotifyOfParts(changelog: string, serviceName: string, rel: Release, sec: Section)
    requires ParseRelease(VersionChunk(changelog)) == Some(rel) && Sections(rel.details) == [sec]
    ensures Notify(changelog, serviceName) == Some(FormatBlocks(serviceName, rel.version, rel.url, [sec]))
  {
  }

  /** One section gives the header block and that section's block. */
  lemma OneSectionBlocks(serviceName: string, version: string, url: string, sec: Section)
    ensures FormatBlocks(serviceName, version, url, [sec]) == [MrkdwnSection(HeaderText(serviceName, version, url)), SectionBlock(sec)]
  {
    var blocks := FormatBlocks(serviceName, version, url, [sec]);
    assert blocks == [blocks[0], blocks[1]];
  }

  /** The message for a changelog whose chunk is a written release. */
  lemma NotifyOfChunk(changelog: string, serviceName: string, v: string, url: string, date: string, heading: string, cs: seq<Commit>)
    requires Writable(v, url, date, heading, cs)
    requires VersionChunk(changelog) == ReleaseText(v, url, date, heading, cs)
    ensures Notify(changelog, serviceName)
      == Some([MrkdwnSection(HeaderText(serviceName, v, url)), SectionBlock(Section(heading, SectionText(cs)))])
  {
    var sec := Section(heading, SectionText(cs));
    ParseWritten(v, url, date, heading, cs);
    SectionsWritten(heading, cs);
    NotifyOfParts(changelog, serviceName, Release(v, url, SectionLines(heading, cs)), sec);
    OneSectionBlocks(serviceName, v, url, sec);
  }

  /** Round trip: a release written above an older one is announced with
      its own version and URL and exactly its own section and commits. */
  lemma NotifyWrittenRelease(serviceName: string, v: string, url: string, date: string, heading: string, cs: seq<Commit>, v2: string, tail: string)
    requires Writable(v, url, date, heading, cs) && IsVersionNumber(v2)
    ensures Notify(ReleaseText(v, url, date, heading, cs) + "## [" + v2 + "](" + tail, serviceName)
      == Some([MrkdwnSection(HeaderText(serviceName, v, url)), SectionBlock(Section(heading, SectionText(cs)))])
  {
    var r := ReleaseText(v, url, date, heading, cs);
    assert r + "## [" + v2 + "](" + tail == r + ("## [" + (v2 + ("](" + tail)));
    ChunkBeforeOlder(v, url, date, heading, cs, v2, tail);
    NotifyOfChunk(r + "## [" + v2 + "](" + tail, serviceName, v, url, date, heading, cs);
  }

  /** Round trip for a changelog holding only the written release. */
  lemma NotifyOnlyRelease(serviceName: string, v: string, url: string, date: string, heading: string, cs: seq<Commit>)
    requires Writable(v, url, date, heading, cs)
    ensures Notify(ReleaseText(v, url, date, heading, cs), serviceName)
      == Some([MrkdwnSection(HeaderText(serviceName, v, url)), SectionBlock(Section(heading, SectionText(cs)))])
  {
    ChunkAlone(v, url, date, heading, cs);
    NotifyOfChunk(ReleaseText(v, url, date, heading, cs), serviceName, v, url, date, heading, cs);
  }
}
