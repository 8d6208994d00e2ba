/** The sections of a release (main.ts:47-58, 83-90): the offsets of the
    `### ` headings in the release's details, one span per heading, and the
    fold that turns each span into a heading and a Slack text. */
module ReleaseSections {
  import opened Text
  import opened RegExpExec
  import opened Regex
  import opened Offsets
  import opened CommitEntries

  /** `interface Section { heading: string; text: string }` (main.ts:7-10). */
  datatype Section = Section(heading: string, text: string)

  /** The fold's callback on one span: its first line with the first `### `
      replaced by nothing is the heading; the other lines, joined again and
      trimmed, are read for commits, which become the text. */
  function SectionOf(raw: string): (section: Section)
    ensures '\n' !in section.heading
    ensures section.text == [] || (!IsSpace(section.text[0]) && !IsSpace(section.text[|section.text| - 1]))
  {
    Section(HeadingOf(raw), TextOf(raw))
  }

  /** `sectionHeading.replace('### ', '')` on the span's first line. */
  function HeadingOf(raw: string): (heading: string)
    ensures '\n' !in heading
    ensures var first := SplitFirstLine(raw).0;
      && (|first| >= 4 && first[..4] == "### " ==> "### " + heading == first)
      && ((forall k :: !OccursAt(first, "### ", k)) ==> heading == first)
  {
    var first := SplitFirstLine(raw).0;
    ReplaceFirstAbsent(first, "### ", '\n');
    if |first| >= 4 && first[..4] == "### " then
      HeadingOfLine(first);
      ReplaceFirst(first, "### ", "")
    else
      ReplaceFirst(first, "### ", "")
  }

  /** The commits read from the span's other lines, joined and trimmed. */
  function BodyCommits(raw: string): seq<Commit> {
    Commits(Trim(SplitFirstLine(raw).1))
  }

  /** `text.trim()` of the lines rendered from the commits of the span's
      other lines, joined and trimmed. */
  function TextOf(raw: string): (text: string)
    ensures BodyCommits(raw) == [] ==> text == ""
    ensures BodyCommits(raw) != [] ==> text + "\n" == Render(BodyCommits(raw))
    ensures text == [] || (!IsSpace(text[0]) && !IsSpace(text[|text| - 1]))
  {
    SectionText(BodyCommits(raw))
  }

  /** `details.slice(current, headingIndexes[index + 1])`: the span of the
      `i`-th heading runs up to the next heading's offset, and the last one
      to the end of the details. */
  function RawSection(details: string, i: nat): (raw: string)
    requires i < |MatchIndexes(SectionHeading, details)|
    ensures var idx := MatchIndexes(SectionHeading, details);
      && (i + 1 < |idx| ==> raw == details[idx[i]..idx[i + 1]])
      && (i + 1 == |idx| ==> raw == details[idx[i]..])
  {
    var idx := MatchIndexes(SectionHeading, details);
    Slice(details, Some(idx[i]), At(idx, i + 1))
  }

  /** The spans of all headings, in document order. */
  function Spans(details: string): (raws: seq<string>)
    ensures |raws| == |MatchIndexes(SectionHeading, details)|
    ensures forall i :: 0 <= i < |raws| ==> raws[i] == RawSection(details, i)
  {
    var n := |MatchIndexes(SectionHeading, details)|;
    seq(n, i requires 0 <= i < n => RawSection(details, i))
  }

  /** The strings of `ss` one after the other. */
  function Join(ss: seq<string>): string {
    if ss == [] then "" else ss[0] + Join(ss[1..])
  }

  /** The spans tile the details: joined together they give back the
      details from the first heading to the end. */
  lemma SpansTile(details: string)
    requires MatchIndexes(SectionHeading, details) != []
    ensures Join(Spans(details)) == details[MatchIndexes(SectionHeading, details)[0]..]
  {
    var idx := MatchIndexes(SectionHeading, details);
    var spans := Spans(details);
    forall k | 0 <= k < |idx| - 1
      ensures idx[k] <= idx[k + 1] && spans[k] == details[idx[k]..idx[k + 1]]
    {
      assert spans[k] == RawSection(details, k);
    }
    JoinSlices(details, idx, spans, 0);
    assert spans[0..] == spans;
  }

  /** Slices between consecutive offsets, the last one running to the end,
      join up to the text from the `i`-th offset on. */
  lemma {:induction false} JoinSlices(s: string, idx: seq<nat>, spans: seq<string>, i: nat)
    requires |spans| == |idx| && i < |idx|
    requires forall k :: 0 <= k < |idx| ==> idx[k] < |s|
    requires forall k :: 0 <= k < |idx| - 1 ==> idx[k] <= idx[k + 1] && spans[k] == s[idx[k]..idx[k + 1]]
    requires spans[|idx| - 1] == s[idx[|idx| - 1]..]
    ensures Join(spans[i..]) == s[idx[i]..]
    decreases |idx| - i
  {
    assert spans[i..] == [spans[i]] + spans[i + 1..];
    assert Join(spans[i..]) == spans[i] + Join(spans[i + 1..]);
    if i + 1 == |idx| {
      assert spans[i + 1..] == [];
    } else {
      JoinSlices(s, idx, spans, i + 1);
      assert s[idx[i]..] == s[idx[i]..idx[i + 1]] + s[idx[i + 1]..];
    }
  }

  /** The fold `[...sum, f(x)]` from `[]` over `xs`: `f` of each element,
      in order. */
  function AppendEach<A, B>(f: A -> B, xs: seq<A>): (ys: seq<B>)
    ensures |ys| == |xs|
    ensures forall i :: 0 <= i < |xs| ==> ys[i] == f(xs[i])
  {
    if xs == [] then []
    else
      var earlier := AppendEach(f, xs[..|xs| - 1]);
      var ys := earlier + [f(xs[|xs| - 1])];
      assert forall i :: 0 <= i < |xs| - 1 ==> ys[i] == earlier[i];
      ys
  }

  /** One more step of the fold appends `f` of the next element. */
  lemma AppendEachStep<A, B>(f: A -> B, xs: seq<A>, i: nat, y: B)
    requires i < |xs| && y == f(xs[i])
    ensures AppendEach(f, xs[..i + 1]) == AppendEach(f, xs[..i]) + [y]
  {
    assert xs[..i + 1][..i] == xs[..i];
  }

  /** `headingIndexes.reduce(..., [])`: one section per heading match the
      exec loop visits, in document order; none visited gives no section. */
  function Sections(details: string): (sections: seq<Section>)
    ensures |sections| == |MatchIndexes(SectionHeading, details)|
    ensures forall i :: 0 <= i < |sections| ==> sections[i] == SectionOf(RawSection(details, i))
  {
    AppendEach(SectionOf, Spans(details))
  }

  /** The heading loop and the fold over its offsets, with the commit loop
      of each span inside. */
  method BuildSections(details: string) returns (sections: seq<Section>)
    ensures sections == Sections(details)
  {
    var headingIndexes := CollectMatchIndexes(SectionHeading, details);
    sections := [];
    var index := 0;
    while index < |headingIndexes|
      invariant index <= |headingIndexes|
      invariant sections == SectionsBefore(details, index)
    {
      var section := BuildSection(details, headingIndexes, index);
      SectionsBeforeStep(details, index);
      sections := sections + [section];
      index := index + 1;
    }
    SectionsBeforeAll(details);
  }

  /** The fold after its first `k` steps: the sections of the first `k`
      spans. */
  function SectionsBefore(details: string, k: nat): (sections: seq<Section>)
    requires k <= |MatchIndexes(SectionHeading, details)|
    ensures |sections| == k
  {
    AppendEach(SectionOf, Spans(details)[..k])
  }

  /** Each step of the fold appends the section of the next span. */
  lemma SectionsBeforeStep(details: string, k: nat)
    requires k < |MatchIndexes(SectionHeading, details)|
    ensures SectionsBefore(details, k + 1) == SectionsBefore(details, k) + [SectionOf(Spans(details)[k])]
  {
    AppendEachStep(SectionOf, Spans(details), k, SectionOf(Spans(details)[k]));
  }

  /** After a step for every heading the fold has made all the sections. */
  lemma SectionsBeforeAll(details: string)
    ensures SectionsBefore(details, |MatchIndexes(SectionHeading, details)|) == Sections(details)
  {
    var spans := Spans(details);
    assert spans[..|spans|] == spans;
  }

  /** The fold's callback for the `index`-th heading offset, with the commit
      loop inside: the section of the `index`-th span. */
  method BuildSection(details: string, headingIndexes: seq<nat>, index: nat) returns (section: Section)
    requires headingIndexes == MatchIndexes(SectionHeading, details) && index < |headingIndexes|
    ensures section == SectionOf(Spans(details)[index])
  {
    var rawSection := Slice(details, Some(headingIndexes[index]), At(headingIndexes, index + 1));
    SpanAt(details, headingIndexes, index);
    var sectionLines := SplitFirstLine(rawSection);
    var sectionHeading := sectionLines.0;
    var commitsRaw := Trim(sectionLines.1);
    var commits := ExtractCommits(commitsRaw);
    section := Section(ReplaceFirst(sectionHeading, "### ", ""), SectionText(commits));
  }

  /** The slice the fold's callback takes for offset `i` is the `i`-th span. */
  lemma SpanAt(details: string, idx: seq<nat>, i: nat)
    requires idx == MatchIndexes(SectionHeading, details) && i < |idx|
    ensures Slice(details, Some(idx[i]), At(idx, i + 1)) == Spans(details)[i]
  {
  }



  /** A slice of `s` from a `### ` heading of one line keeps that line's
      heading text at its start. */
  lemma HeadingSliceStart(s: string, p: nat, end: nat, e: nat)
    requires p + 4 < end <= e <= |s|
    requires s[p] == '#' && s[p + 1] == '#' && s[p + 2] == '#' && s[p + 3] == ' '
    requires forall k :: p <= k < end ==> !IsLineTerminator(s[k])
    ensures var raw := s[p..e];
      && raw[..end - p] == "### " + s[p + 4..end]
      && (forall k :: 0 <= k < end - p ==> raw[k] != '\n')
  {
    var raw := s[p..e];
    assert raw[..end - p] == s[p..end];
    assert s[p..end] == s[p..p + 4] + s[p + 4..end];
    assert s[p..p + 4] == "### ";
    forall k | 0 <= k < end - p ensures raw[k] != '\n' {
      assert raw[k] == s[p + k];
    }
  }

  /** The span of the `i`-th heading starts with the whole heading match:
      `### ` and the heading's `(.+)`, on one line. */
  lemma {:induction false} SpanStartsWithHeading(details: string, i: nat)
    requires i < |MatchIndexes(SectionHeading, details)|
    ensures var p := MatchIndexes(SectionHeading, details)[i];
      var m := MatchAt(SectionHeading, details, p).value;
      var raw := RawSection(details, i);
      && m.end - p <= |raw|
      && raw[..m.end - p] == "### " + m.groups[0]
      && (forall k :: 0 <= k < m.end - p ==> raw[k] != '\n')
  {
    var idx := MatchIndexes(SectionHeading, details);
    var p := idx[i];
    var m := MatchAt(SectionHeading, details, p).value;
    SectionHeadingShape(details, p);
    var e := if i + 1 < |idx| then idx[i + 1] else |details|;
    assert RawSection(details, i) == details[p..e];
    HeadingSliceStart(details, p, m.end, e);
  }

  /** A line that starts with `### ` loses exactly that prefix. */
  lemma HeadingOfLine(line: string)
    requires |line| >= 4 && line[..4] == "### "
    ensures "### " + ReplaceFirst(line, "### ", "") == line
  {
    assert line == "### " + line[4..];
    ReplaceFirstAtStart("### ", line[4..], "");
    assert "" + line[4..] == line[4..];
  }

  /** A span that starts with `### ` and a captured text, with no line feed
      among them, has a first line made of `### ` and a heading that starts
      with the captured text. */
  lemma HeadingOfSpan(raw: string, g: string)
    requires |g| + 4 <= |raw| && raw[..|g| + 4] == "### " + g
    requires forall k :: 0 <= k < |g| + 4 ==> raw[k] != '\n'
    ensures var first := SplitFirstLine(raw).0;
      var heading := ReplaceFirst(first, "### ", "");
      && "### " + heading == first
      && '\n' !in heading
      && g <= heading
  {
    var first := SplitFirstLine(raw).0;
    var len := |g| + 4;
    assert |first| >= len;
    assert first[..len] == raw[..len];
    assert first[..4] == "### " by {
      assert first[..4] == raw[..len][..4];
    }
    HeadingOfLine(first);
    var heading := ReplaceFirst(first, "### ", "");
    assert heading[..|g|] == first[4..len];
    assert first[4..len] == raw[..len][4..];
  }

  /** The heading of the `i`-th section is the first line of its span with
      the leading `### ` taken off: it starts with the text the heading
      expression captured and holds no line feed. */
  lemma {:induction false} SectionHeadingOf(details: string, i: nat)
    requires i < |MatchIndexes(SectionHeading, details)|
    ensures var raw := RawSection(details, i);
      var heading := HeadingOf(raw);
      var p := MatchIndexes(SectionHeading, details)[i];
      && "### " + heading == SplitFirstLine(raw).0
      && '\n' !in heading
      && MatchAt(SectionHeading, details, p).value.groups[0] <= heading
  {
    var p := MatchIndexes(SectionHeading, details)[i];
    var m := MatchAt(SectionHeading, details, p).value;
    var g := m.groups[0];
    var raw := RawSection(details, i);
    SpanStartsWithHeading(details, i);
    assert |g| + 4 == m.end - p;
    HeadingOfSpan(raw, g);
  }

  /** A span whose body, trimmed, is a list of well-formed bullets gets the
      text rendered from exactly those commits, in order. */
  lemma SectionTextOfBullets(raw: string, cs: seq<Commit>)
    requires forall i :: 0 <= i < |cs| ==> WellFormed(cs[i])
    requires Trim(SplitFirstLine(raw).1) == BulletList(cs)
    ensures TextOf(raw) == SectionText(cs)
  {
    CommitsOfBulletList(cs);
  }

  /** A `### ` heading line, a line feed and a body split back into the
      heading and the body. */
  lemma SplitWritten(heading: string, body: string)
    requires '\n' !in heading
    ensures var raw := "### " + heading + "\n" + body;
      HeadingOf(raw) == heading && SplitFirstLine(raw).1 == body
  {
    var first := "### " + heading;
    assert '\n' !in first by {
      assert forall k :: 4 <= k < |first| ==> first[k] == heading[k - 4];
    }
    SplitFirstLineJoin(first, body);
    ReplaceFirstAtStart("### ", heading, "");
    assert "" + heading == heading;
  }

  /** Trimming leaves a bullet list as it is. */
  lemma TrimBulletList(cs: seq<Commit>)
    ensures Trim(BulletList(cs)) == BulletList(cs)
  {
    var body := BulletList(cs);
    if cs != [] {
      BulletListEnds(cs);
    }
    assert "" + body + "" == body;
    TrimPadded("", body, "");
  }

  /** Reading back a section as a changelog writes it: a `### ` heading
      line and well-formed bullets, one per line, give that heading and the
      text rendered from exactly those commits. */
  lemma {:induction false} SectionOfWritten(heading: string, cs: seq<Commit>)
    requires '\n' !in heading
    requires forall i :: 0 <= i < |cs| ==> WellFormed(cs[i])
    ensures SectionOf("### " + heading + "\n" + BulletList(cs)) == Section(heading, SectionText(cs))
  {
    SplitWritten(heading, BulletList(cs));
    TrimBulletList(cs);
    CommitsOfBulletList(cs);
  }

  /** A span with one well-formed bullet becomes its heading and one Slack
      line, the link turned into `<url|hash>`. */
  lemma ExampleSection()
    ensures SectionOf("### Features\n" + "- **api:** add endpoint ([abc](http://x/commit/abc))")
      == Section("Features", "\U{2022} *api:* add endpoint (<http://x/commit/abc|abc>)")
  {
    var c := Commit("api", "add endpoint", "abc", "http://x/commit/abc");
    ExampleWellFormed();
    ExampleBulletLine();
    BulletListOne(c);
    var line := "- **api:** add endpoint ([abc](http://x/commit/abc))";
    assert BulletList([c]) == line;
    assert "### " + "Features" + "\n" == "### Features\n";
    SectionOfWritten("Features", [c]);
    assert SectionOf("### " + "Features" + "\n" + line) == Section("Features", SectionText([c]));
    ExampleSectionText();
  }

  /** Only the line feed ends the heading's line: with CRLF line ends the
      carriage return stays in the heading. */
  lemma CarriageReturnStaysInHeading()
    ensures HeadingOf("### Fixes\r\n- x") == "Fixes\r"
  {
    assert "### Fixes\r\n- x" == "### Fixes\r" + "\n" + "- x";
    assert '\n' !in "### Fixes\r";
    SplitFirstLineJoin("### Fixes\r", "- x");
    assert "### Fixes\r" == "### " + "Fixes\r";
    ReplaceFirstAtStart("### ", "Fixes\r", "");
  }
}
