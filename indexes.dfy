/** The loop `while ((match = re.exec(s)) !== null) indexes.push(match.index)`
    that main.ts runs twice: over the whole changelog with the version-heading
    expression (main.ts:27-29) and over a release's details with the
    section-heading expression (main.ts:51-53). */
module Offsets {
  import opened Text
  import opened RegExpExec
  import opened Regex

  predicate StrictlyIncreasing(xs: seq<nat>) {
    forall i, j :: 0 <= i < j < |xs| ==> xs[i] < xs[j]
  }

  /** The array the loop fills: the start of every match it visits, in
      order. Each is a position where the expression matches, and the next
      one lies at or after the end of that match, where `lastIndex` left the
      search. */
  function MatchIndexes(pat: Pattern, s: string): (r: seq<nat>)
    ensures StrictlyIncreasing(r)
    ensures forall i :: 0 <= i < |r| ==> r[i] < |s| && MatchAt(pat, s, r[i]).Some?
    ensures forall i :: 0 <= i < |r| - 1 ==> MatchAt(pat, s, r[i]).value.end <= r[i + 1]
  {
    var ms := ExecAllOn(pat, s, 0);
    forall i | 0 <= i < |ms| ensures MatchAt(pat, s, ms[i].index) == Some(ms[i]) {
      ExecAllOnMatch(pat, s, 0, i);
    }
    Indexes(ms)
  }

  /** The loop run with `pat` over `s`. */
  method CollectMatchIndexes(pat: Pattern, s: string) returns (indexes: seq<nat>)
    ensures indexes == MatchIndexes(pat, s)
  {
    MatcherWellBehaved(pat, s);
    indexes := CollectIndexes(MatcherOf(pat, s), |s|);
  }

  /** Both heading expressions match within one line: no line terminator
      lies inside a match. */
  lemma HeadingOneLine(pat: Pattern, s: string, p: nat, k: nat)
    requires pat == VersionHeading || pat == SectionHeading
    requires p <= |s| && MatchAt(pat, s, p).Some?
    requires p <= k < MatchAt(pat, s, p).value.end
    ensures !IsLineTerminator(s[k])
  {
    if pat == VersionHeading {
      VersionHeadingOneLine(s, p);
    } else {
      SectionHeadingShape(s, p);
    }
  }

  /** A position strictly inside a heading match does not start a line. */
  lemma InsideHeadingNotLineStart(pat: Pattern, s: string, p: nat, q: nat)
    requires pat == VersionHeading || pat == SectionHeading
    requires p < q <= |s| && MatchAt(pat, s, p).Some? && q < MatchAt(pat, s, p).value.end
    ensures !AtLineStart(s, q)
  {
    HeadingOneLine(pat, s, p, q - 1);
  }

  /** The start of the `i`-th match the loop visits is collected. */
  lemma CollectedIndex(pat: Pattern, s: string, i: nat)
    requires i < |ExecAllOn(pat, s, 0)|
    ensures ExecAllOn(pat, s, 0)[i].index in MatchIndexes(pat, s)
  {
    assert MatchIndexes(pat, s)[i] == Indexes(ExecAllOn(pat, s, 0))[i];
  }

  /** A heading match that starts a line is never skipped by the loop: the
      match the loop took before it ends on an earlier line. */
  lemma LineStartMatchCollected(pat: Pattern, s: string, q: nat)
    requires pat == VersionHeading || pat == SectionHeading
    requires q <= |s| && AtLineStart(s, q) && MatchAt(pat, s, q).Some?
    ensures q in MatchIndexes(pat, s)
  {
    var ms := ExecAllOn(pat, s, 0);
    ExecAllOnCovers(pat, s, 0, q);
    if i :| 0 <= i < |ms| && ms[i].index < q < ms[i].end {
      ExecAllOnMatch(pat, s, 0, i);
      InsideHeadingNotLineStart(pat, s, ms[i].index, q);
    } else {
      var i :| 0 <= i < |ms| && ms[i].index == q;
      CollectedIndex(pat, s, i);
    }
  }
}
