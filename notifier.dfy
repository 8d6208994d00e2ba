/** The whole of `run()` between reading the changelog and sending the
    message (main.ts:23-115): from the changelog text and the service name
    to the blocks of the Slack message, or to nothing when the newest
    release's header line has no version link. */
module Notifier {
  import opened Text
  import opened RegExpExec
  import opened Regex
  import opened Offsets
  import opened CommitEntries
  import opened ReleaseSections
  import opened Releases
  import opened Blocks

  /** The message for a changelog: `None` where `run()` returns early, which
      is exactly when the first line of the newest release's chunk holds no
      version link anywhere (an empty first line included). */
  function Notify(changelog: string, serviceName: string): (r: Option<seq<Block>>)
    ensures var line := SplitFirstLine(VersionChunk(changelog)).0;
      r.None? <==> forall p :: 0 <= p <= |line| ==> MatchAt(VersionLink, line, p).None?
  {
    match ParseRelease(VersionChunk(changelog))
    case None => None
    case Some(rel) => Some(FormatBlocks(serviceName, rel.version, rel.url, Sections(rel.details)))
  }

  /** `run()` without its I/O: both exec loops, the early returns, and the
      section fold with the commit loop inside it. */
  method Run(changelog: string, serviceName: string) returns (blocks: Option<seq<Block>>)
    ensures blocks == Notify(changelog, serviceName)
  {
    var versionIndexes := CollectMatchIndexes(VersionHeading, changelog);
    var rawContent := Slice(changelog, At(versionIndexes, 0), At(versionIndexes, 1));
    var lines := SplitFirstLine(rawContent);
    var versionLine := lines.0;
    if versionLine == "" {
      return None;
    }
    var versionLineMatch := ExecOn(VersionLink, versionLine, 0);
    if versionLineMatch.None? {
      return None;
    }
    var version := versionLineMatch.value.groups[0];
    var versionURL := versionLineMatch.value.groups[1];
    var details := lines.1;
    var sections := BuildSections(details);
    blocks := Some(FormatBlocks(serviceName, version, versionURL, sections));
  }

  /** The blocks announce the release: the header with the service name,
      the version and its URL, then one block per heading match the exec
      loop visits in the release's details, in order; each such block reads
      back as the heading between asterisks on its first line and the
      section's text after it. */
  ghost predicate Announces(serviceName: string, rel: Release, blocks: seq<Block>) {
    && |blocks| == 1 + |MatchIndexes(SectionHeading, rel.details)|
    && blocks[0].text == HeaderText(serviceName, rel.version, rel.url)
    && forall i :: 0 <= i < |MatchIndexes(SectionHeading, rel.details)| ==>
      var raw := RawSection(rel.details, i);
      && "### " + HeadingOf(raw) == SplitFirstLine(raw).0
      && SplitFirstLine(blocks[i + 1].text) == ("*" + HeadingOf(raw) + "*", TextOf(raw))
  }

  /** The message sent announces the release parsed from the newest chunk. */
  lemma {:induction false} NotifyBlocks(changelog: string, serviceName: string)
    requires Notify(changelog, serviceName).Some?
    ensures Announces(serviceName, ParseRelease(VersionChunk(changelog)).value, Notify(changelog, serviceName).value)
  {
    var rel := ParseRelease(VersionChunk(changelog)).value;
    assert Notify(changelog, serviceName).value == FormatBlocks(serviceName, rel.version, rel.url, Sections(rel.details));
    FormattedMessage(serviceName, rel);
  }

  /** The blocks formatted for a release announce it. */
  lemma FormattedMessage(serviceName: string, rel: Release)
    ensures Announces(serviceName, rel, FormatBlocks(serviceName, rel.version, rel.url, Sections(rel.details)))
  {
    var blocks := FormatBlocks(serviceName, rel.version, rel.url, Sections(rel.details));
    forall i | 0 <= i < |MatchIndexes(SectionHeading, rel.details)|
      ensures var raw := RawSection(rel.details, i);
        && "### " + HeadingOf(raw) == SplitFirstLine(raw).0
        && SplitFirstLine(blocks[i + 1].text) == ("*" + HeadingOf(raw) + "*", TextOf(raw))
    {
      SectionBlockOf(serviceName, rel, blocks, i);
    }
  }

  /** The block of the `i`-th section of a release's details. */
  lemma SectionBlockOf(serviceName: string, rel: Release, blocks: seq<Block>, i: nat)
    requires blocks == FormatBlocks(serviceName, rel.version, rel.url, Sections(rel.details))
    requires i < |MatchIndexes(SectionHeading, rel.details)|
    ensures var raw := RawSection(rel.details, i);
      && "### " + HeadingOf(raw) == SplitFirstLine(raw).0
      && SplitFirstLine(blocks[i + 1].text) == ("*" + HeadingOf(raw) + "*", TextOf(raw))
  {
    var sections := Sections(rel.details);
    SectionHeadingOf(rel.details, i);
    SectionBlockLines(sections[i]);
  }

  /** No version heading in a text whose only line is a bare link. */
  lemma BareLinkHasNoHeading()
    ensures MatchIndexes(VersionHeading, "[1.0.0](u)") == []
  {
    var s := "[1.0.0](u)";
    forall p | 0 <= p <= |s| ensures MatchAt(VersionHeading, s, p).None? {
      if p == 0 {
        assert SkipRun(s, '#', 0) == 0;
      } else {
        assert !IsLineTerminator(s[p - 1]);
      }
    }
    ExecAllOnStep(VersionHeading, s, 0);
  }

  /** The bare link names version 1.0.0 at URL `u`, with no details. */
  lemma BareLinkRelease()
    ensures ParseRelease("[1.0.0](u)") == Some(Release("1.0.0", "u", ""))
  {
    var s := "[1.0.0](u)";
    assert '\n' !in s;
    assert SplitFirstLine(s) == (s, "");
    assert SkipDigits(s, 1) == 2 && SkipDigits(s, 3) == 4 && SkipDigits(s, 5) == 6;
    assert VersionNumberEnd(s, 1) == Some(6);
    assert Find(s, ')', 8) == 9;
    assert s[1..6] == "1.0.0" && s[8..9] == "u";
    assert MatchAt(VersionLink, s, 0) == Some(Match(0, 9, ["1.0.0", "u"]));
    ExecOnHit(VersionLink, s, 0);
  }

  /** Empty details hold no section. */
  lemma NoSectionsInEmpty()
    ensures Sections("") == []
  {
    ExecOnAtEnd(SectionHeading, "");
  }

  lemma BareLinkHeader()
    ensures HeaderText("svc", "1.0.0", "u") == ":rocket: New *svc* release <u|v1.0.0>"
  {
    assert ":rocket: New *" + "svc" + "* release <" == ":rocket: New *svc* release <";
    assert ":rocket: New *svc* release <" + "u" + "|v" == ":rocket: New *svc* release <u|v";
    assert ":rocket: New *svc* release <u|v" + "1.0.0" + ">" == ":rocket: New *svc* release <u|v1.0.0>";
  }

  /** A changelog with no version heading at all is read as one release
      whose chunk is the whole text: a bare link on the first line is enough
      for a message. */
  lemma NoHeadingExample()
    ensures Notify("[1.0.0](u)", "svc") == Some([MrkdwnSection(":rocket: New *svc* release <u|v1.0.0>")])
  {
    BareLinkHasNoHeading();
    BareLinkRelease();
    NoSectionsInEmpty();
    assert VersionChunk("[1.0.0](u)") == "[1.0.0](u)";
    var blocks := FormatBlocks("svc", "1.0.0", "u", []);
    assert Notify("[1.0.0](u)", "svc") == Some(blocks);
    assert blocks == [MrkdwnSection(HeaderText("svc", "1.0.0", "u"))];
    BareLinkHeader();
  }
}
