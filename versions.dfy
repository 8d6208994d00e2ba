/** The newest release of a changelog (main.ts:23-46): the offsets of the
    version headings, the chunk from the first heading to the second, and
    the version number and URL read from the chunk's first line. */
module Releases {
  import opened Text
  import opened RegExpExec
  import opened Regex
  import opened Offsets

  /** What the header line of the newest release yields: the version number
      and the URL captured by the link expression, and the lines after the
      header, joined again (`details`, main.ts:48-49). */
  datatype Release = Release(version: string, url: string, details: string)

  /** The version-heading loop collects exactly the positions where the
      version-heading expression matches; each of them starts a line. */
  lemma {:induction false} VersionIndexesExact(changelog: string, p: nat)
    ensures p in MatchIndexes(VersionHeading, changelog) <==>
      p < |changelog| && AtLineStart(changelog, p) && MatchAt(VersionHeading, changelog, p).Some?
  {
    if p in MatchIndexes(VersionHeading, changelog) {
      assert p < |changelog| && MatchAt(VersionHeading, changelog, p).Some?;
    } else if p < |changelog| && AtLineStart(changelog, p) && MatchAt(VersionHeading, changelog, p).Some? {
      LineStartMatchCollected(VersionHeading, changelog, p);
    }
  }

  /** `changelog.slice(versionIndexes[0], versionIndexes[1])`: with no
      heading both bounds are `undefined` and the chunk is the whole
      changelog; with one heading it runs from there to the end; with more,
      up to the second heading. */
  function VersionChunk(changelog: string): (chunk: string)
    ensures var idx := MatchIndexes(VersionHeading, changelog);
      && (|idx| == 0 ==> chunk == changelog)
      && (|idx| == 1 ==> chunk == changelog[idx[0]..])
      && (|idx| >= 2 ==> chunk == changelog[idx[0]..idx[1]])
  {
    var idx := MatchIndexes(VersionHeading, changelog);
    Slice(changelog, At(idx, 0), At(idx, 1))
  }

  /** The chunk holds exactly one version heading, at its start: no heading
      comes before the first collected offset or lies strictly between it
      and the end of the chunk. */
  lemma {:induction false} ChunkHoldsOneHeading(changelog: string, q: nat)
    requires q < |changelog| && MatchAt(VersionHeading, changelog, q).Some?
    ensures var idx := MatchIndexes(VersionHeading, changelog);
      && |idx| > 0
      && idx[0] <= q
      && (|idx| >= 2 ==> q == idx[0] || idx[1] <= q)
  {
    var idx := MatchIndexes(VersionHeading, changelog);
    assert AtLineStart(changelog, q);
    VersionIndexesExact(changelog, q);
    var j :| 0 <= j < |idx| && idx[j] == q;
    if j > 0 {
      assert idx[0] < idx[j];
    }
    if |idx| >= 2 && j >= 2 {
      assert idx[1] < idx[j];
    }
  }

  /** The header line and what follows it: `lines.shift()` and
      `lines.join('\n')`; `!versionLine` stops on an empty first line, and
      a first line the link expression does not match stops too. */
  function ParseRelease(chunk: string): (r: Option<Release>)
    ensures var line := SplitFirstLine(chunk).0;
      r.None? <==> forall p :: 0 <= p <= |line| ==> MatchAt(VersionLink, line, p).None?
    ensures r.Some? ==> r.value.details == SplitFirstLine(chunk).1
  {
    var lines := SplitFirstLine(chunk);
    var versionLine := lines.0;
    if versionLine == "" then
      assert MatchAt(VersionLink, versionLine, 0).None?;
      None
    else
      match ExecOn(VersionLink, versionLine, 0)
      case None => None
      case Some(m) => Some(Release(m.groups[0], m.groups[1], lines.1))
  }

  /** The leftmost match of the link expression on a line: `[`, a version
      number of three dot-separated digit runs, `](`, and a URL that is
      non-empty, holds no `)` and runs to the first `)` or to the end of the
      line (which has no line feed, so neither has the URL). */
  lemma LeftmostLink(line: string)
    requires '\n' !in line && ExecOn(VersionLink, line, 0).Some?
    ensures var m := ExecOn(VersionLink, line, 0).value;
      && line[m.index..m.end] == "[" + m.groups[0] + "](" + m.groups[1]
      && (forall p :: 0 <= p < m.index ==> MatchAt(VersionLink, line, p).None?)
      && IsVersionNumber(m.groups[0])
      && m.groups[1] != [] && ')' !in m.groups[1] && '\n' !in m.groups[1]
      && (m.end == |line| || line[m.end] == ')')
  {
    var m := ExecOn(VersionLink, line, 0).value;
    VersionLinkShape(line, m.index);
    var url := m.groups[1];
    assert url == line[m.end - |url|..m.end] by {
      assert line[m.index..m.end][m.end - m.index - |url|..] == url;
    }
    forall k | 0 <= k < |url| ensures url[k] != '\n' {
      assert url[k] == line[m.end - |url| + k];
    }
  }

  /** What a header line that passes yields: the leftmost version link on
      the chunk's first line, and the lines after it as the details. */
  lemma ReleaseShape(chunk: string)
    requires ParseRelease(chunk).Some?
    ensures var line := SplitFirstLine(chunk).0;
      var rel := ParseRelease(chunk).value;
      var m := ExecOn(VersionLink, line, 0).value;
      && line[m.index..m.end] == "[" + rel.version + "](" + rel.url
      && (forall p :: 0 <= p < m.index ==> MatchAt(VersionLink, line, p).None?)
      && IsVersionNumber(rel.version)
      && rel.url != [] && ')' !in rel.url && '\n' !in rel.url
      && (m.end == |line| || line[m.end] == ')')
      && (chunk == line + "\n" + rel.details || (chunk == line && rel.details == ""))
  {
    var line := SplitFirstLine(chunk).0;
    assert ExecOn(VersionLink, line, 0).Some?;
    LeftmostLink(line);
  }
}
