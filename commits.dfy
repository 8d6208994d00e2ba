/** One section's commits (main.ts:59-81, 87): the exec loop of the commit
    expression over the section's trimmed body, the fold that renders one
    Slack line per commit, and the trim of the rendered text. */
module CommitEntries {
  import opened Text
  import opened RegExpExec
  import opened Regex

  /** `{type, message, hash, url}` as the loop pushes it. */
  datatype Commit = Commit(kind: string, message: string, hash: string, url: string)

  /** The parts a commit bullet can carry: each non-empty, without the
      character that ends it. */
  predicate WellFormed(c: Commit) {
    WellFormedParts(c.kind, c.message, c.hash, c.url)
  }

  /** `const [, type, message, hash, url] = match`. */
  function CommitOf(m: Match): Commit
    requires |m.groups| == 4
  {
    Commit(m.groups[0], m.groups[1], m.groups[2], m.groups[3])
  }

  /** One commit per match, in order. */
  function CommitsOf(ms: seq<Match>): (cs: seq<Commit>)
    requires forall i :: 0 <= i < |ms| ==> |ms[i].groups| == 4
    ensures |cs| == |ms|
  {
    if ms == [] then [] else [CommitOf(ms[0])] + CommitsOf(ms[1..])
  }

  lemma {:induction false} CommitsOfAt(ms: seq<Match>, i: nat)
    requires forall i :: 0 <= i < |ms| ==> |ms[i].groups| == 4
    requires i < |ms|
    ensures CommitsOf(ms)[i] == CommitOf(ms[i])
  {
    if i > 0 {
      CommitsOfAt(ms[1..], i - 1);
    }
  }

  lemma CommitsOfCons(m: Match, rest: seq<Match>)
    requires |m.groups| == 4 && forall i :: 0 <= i < |rest| ==> |rest[i].groups| == 4
    ensures CommitsOf([m] + rest) == [CommitOf(m)] + CommitsOf(rest)
  {
    assert ([m] + rest)[1..] == rest;
  }

  /** The commits of the matches the exec loop visits from `lastIndex`. */
  ghost function Visited(at: Matcher, n: nat, lastIndex: nat): seq<Commit>
    requires WellBehaved(at, n) && GroupCount(at, 4)
  {
    CommitsOf(ExecAll(at, n, lastIndex))
  }

  /** One turn of the exec loop adds the commit of the match it takes. */
  lemma VisitedStep(at: Matcher, n: nat, lastIndex: nat)
    requires WellBehaved(at, n) && GroupCount(at, 4) && Exec(at, n, lastIndex).Some?
    ensures var m := Exec(at, n, lastIndex).value;
      Visited(at, n, lastIndex) == [CommitOf(m)] + Visited(at, n, m.end)
  {
    var m := Exec(at, n, lastIndex).value;
    assert ExecAll(at, n, lastIndex) == [m] + ExecAll(at, n, m.end);
    CommitsOfCons(m, ExecAll(at, n, m.end));
  }

  /** The loop that pushes `{type, message, hash, url}` for every match
      `exec` visits, over any matcher whose matches carry four groups. */
  method PushCommits(at: Matcher, n: nat) returns (commits: seq<Commit>)
    requires WellBehaved(at, n) && GroupCount(at, 4)
    ensures commits == CommitsOf(ExecAll(at, n, 0))
  {
    commits := [];
    var lastIndex := 0;
    var hit := Exec(at, n, lastIndex);
    while hit.Some?
      invariant hit == Exec(at, n, lastIndex)
      invariant commits + Visited(at, n, lastIndex) == Visited(at, n, 0)
      decreases n + 1 - lastIndex
    {
      var m := hit.value;
      VisitedStep(at, n, lastIndex);
      assert commits + Visited(at, n, lastIndex) == (commits + [CommitOf(m)]) + Visited(at, n, m.end);
      commits := commits + [CommitOf(m)];
      lastIndex := m.end;
      hit := Exec(at, n, lastIndex);
    }
  }

  /** The commits of a section body: one per commit match, in order, each
      made of parts a bullet can carry. */
  function Commits(raw: string): (cs: seq<Commit>)
    ensures forall i :: 0 <= i < |cs| ==> WellFormed(cs[i])
  {
    var ms := ExecAllOn(CommitEntry, raw, 0);
    forall i | 0 <= i < |ms| ensures WellFormed(CommitsOf(ms)[i]) {
      ExecAllOnMatch(CommitEntry, raw, 0, i);
      CommitEntryShape(raw, ms[i].index);
      CommitsOfAt(ms, i);
    }
    CommitsOf(ms)
  }

  /** The exec loop of the commit expression run over `raw`. */
  method ExtractCommits(raw: string) returns (commits: seq<Commit>)
    ensures commits == Commits(raw)
  {
    MatcherWellBehaved(CommitEntry, raw);
    MatcherGroups(CommitEntry, raw);
    commits := PushCommits(MatcherOf(CommitEntry, raw), |raw|);
  }

  // ---------------------------------------------------------------------
  // Rendering.

  /** The line the fold appends for a commit: `• *type:* message (<url|hash>)`
      and a line feed, with every line feed of the message removed. */
  function RenderLine(c: Commit): (line: string)
    ensures |line| == 13 + |c.kind| + |RemoveChar(c.message, '\n')| + |c.url| + |c.hash|
    ensures line[0] == '\U{2022}' && line[|line| - 2] == ')' && line[|line| - 1] == '\n'
  {
    "\U{2022} *" + c.kind + ":* " + RemoveChar(c.message, '\n') + " (<" + c.url + "|" + c.hash + ">)\n"
  }

  /** The fold over the commits, starting from `''`. */
  function Render(cs: seq<Commit>): (text: string)
    ensures (text == "") == (cs == [])
    ensures |text| >= 13 * |cs|
  {
    if cs == [] then "" else Render(cs[..|cs| - 1]) + RenderLine(cs[|cs| - 1])
  }

  lemma RenderOne(c: Commit)
    ensures Render([c]) == RenderLine(c)
  {
    assert [c][..0] == [];
  }

  /** A rendered line starts with the bullet sign and ends with `)` and a
      line feed; the message contributes no line feed to it. */
  lemma RenderLineShape(c: Commit)
    ensures var line := RenderLine(c);
      && |line| >= 4 && line[0] == '\U{2022}'
      && line[|line| - 2] == ')' && line[|line| - 1] == '\n'
      && CountChar(line, '\n') == CountChar(c.kind, '\n') + CountChar(c.url, '\n') + CountChar(c.hash, '\n') + 1
  {
    var msg := RemoveChar(c.message, '\n');
    CountCharAbsent(msg, '\n');
    var p1 := "\U{2022} *" + c.kind + ":* ";
    CountCharConcat("\U{2022} *", c.kind, '\n');
    CountCharConcat("\U{2022} *" + c.kind, ":* ", '\n');
    CountCharConcat(p1, msg, '\n');
    CountCharConcat(p1 + msg, " (<", '\n');
    CountCharConcat(p1 + msg + " (<", c.url, '\n');
    CountCharConcat(p1 + msg + " (<" + c.url, "|", '\n');
    CountCharConcat(p1 + msg + " (<" + c.url + "|", c.hash, '\n');
    CountCharConcat(p1 + msg + " (<" + c.url + "|" + c.hash, ">)\n", '\n');
  }

  /** The rendered text of at least one commit starts with the bullet sign
      and ends with `)` and a line feed. */
  lemma {:induction false} RenderShape(cs: seq<Commit>)
    requires cs != []
    ensures var text := Render(cs);
      |text| >= 4 && text[0] == '\U{2022}' && text[|text| - 2] == ')' && text[|text| - 1] == '\n'
  {
    var init, last := cs[..|cs| - 1], cs[|cs| - 1];
    RenderLineShape(last);
    if init != [] {
      RenderShape(init);
    }
  }

  /** One line feed per commit, when no type, hash or URL carries one. */
  lemma {:induction false} RenderNewlines(cs: seq<Commit>)
    requires forall i :: 0 <= i < |cs| ==> '\n' !in cs[i].kind && '\n' !in cs[i].url && '\n' !in cs[i].hash
    ensures CountChar(Render(cs), '\n') == |cs|
  {
    if cs != [] {
      var init, last := cs[..|cs| - 1], cs[|cs| - 1];
      RenderNewlines(init);
      RenderLineShape(last);
      CountCharAbsent(last.kind, '\n');
      CountCharAbsent(last.url, '\n');
      CountCharAbsent(last.hash, '\n');
      CountCharConcat(Render(init), RenderLine(last), '\n');
    }
  }

  /** `text.trim()`: no commits give the empty text, and otherwise the
      rendered lines lose exactly their final line feed. */
  function SectionText(cs: seq<Commit>): (text: string)
    ensures cs == [] ==> text == ""
    ensures cs != [] ==> text + "\n" == Render(cs)
    ensures text == [] || (!IsSpace(text[0]) && !IsSpace(text[|text| - 1]))
  {
    if cs != [] then
      RenderShape(cs);
      TrimFinalLineFeed(Render(cs));
      Trim(Render(cs))
    else
      Trim(Render(cs))
  }

  // ---------------------------------------------------------------------
  // Reading bullets back.

  /** The bullet a changelog writes for a commit:
      `- **type:** message ([hash](url))`. */
  function BulletLine(c: Commit): string {
    BulletText(c.kind, c.message, c.hash, c.url) + ")"
  }

  /** Bullets one per line, joined with line feeds: each bullet's text, its
      final `)`, and a line feed before the next bullet. */
  function BulletList(cs: seq<Commit>): string
    decreases |cs|
  {
    if cs == [] then ""
    else BulletText(cs[0].kind, cs[0].message, cs[0].hash, cs[0].url) + ListTail(cs)
  }

  /** What follows the first bullet's text in a list. */
  function ListTail(cs: seq<Commit>): string
    requires cs != []
    decreases |cs|, 0
  {
    if |cs| == 1 then ")" else ")\n" + BulletList(cs[1..])
  }

  /** A non-empty bullet list starts with the first bullet's `-` and ends
      with the last bullet's `)`, so trimming leaves it as it is. */
  lemma {:induction false} BulletListEnds(cs: seq<Commit>)
    requires cs != []
    ensures |BulletList(cs)| > 0
    ensures BulletList(cs)[0] == '-' && BulletList(cs)[|BulletList(cs)| - 1] == ')'
    decreases |cs|
  {
    var head := BulletText(cs[0].kind, cs[0].message, cs[0].hash, cs[0].url);
    assert head[0] == '-';
    var tail := ListTail(cs);
    if |cs| > 1 {
      BulletListEnds(cs[1..]);
      assert tail[|tail| - 1] == BulletList(cs[1..])[|BulletList(cs[1..])| - 1];
    }
    assert BulletList(cs) == head + tail;
  }

  /** The bullet list of one commit is its bullet line. */
  lemma BulletListOne(c: Commit)
    ensures BulletList([c]) == BulletLine(c)
  {
  }

  /** A bullet of well-formed parts at `pos` is the next commit match; it
      ends at `e`, just before the bullet's final `)`. */
  lemma BulletHit(s: string, pos: nat, e: nat, c: Commit)
    requires WellFormed(c)
    requires OccursAt(s, BulletText(c.kind, c.message, c.hash, c.url), pos)
    requires e == pos + |BulletText(c.kind, c.message, c.hash, c.url)|
    ensures e <= |s|
    ensures ExecAllOn(CommitEntry, s, pos) == [Match(pos, e, [c.kind, c.message, c.hash, c.url])] + ExecAllOn(CommitEntry, s, e)
  {
    CommitEntryAtBullet(s, pos, c.kind, c.message, c.hash, c.url);
    ExecAllOnHit(CommitEntry, s, pos, Match(pos, e, [c.kind, c.message, c.hash, c.url]));
  }

  /** The exec loop passes over a character that cannot start a bullet. */
  lemma SkipNonDash(s: string, x: nat)
    requires x < |s| && s[x] != '-'
    ensures ExecAllOn(CommitEntry, s, x) == ExecAllOn(CommitEntry, s, x + 1)
  {
    NoCommitAt(s, x);
    ExecOnSkip(CommitEntry, s, x);
  }

  lemma CommitsOfStep(ms: seq<Match>, p: nat, e: nat, rest: seq<Match>, cs: seq<Commit>)
    requires cs != []
    requires ms == [Match(p, e, [cs[0].kind, cs[0].message, cs[0].hash, cs[0].url])] + rest
    requires forall i :: 0 <= i < |rest| ==> |rest[i].groups| == 4
    requires CommitsOf(rest) == cs[1..]
    ensures CommitsOf(ms) == cs
  {
    var m := Match(p, e, [cs[0].kind, cs[0].message, cs[0].hash, cs[0].url]);
    CommitsOfCons(m, rest);
    assert CommitOf(m) == cs[0];
    assert cs == [cs[0]] + cs[1..];
  }

  /** The exec loop passes over the last bullet's final `)`. */
  lemma LastTail(s: string, e: nat)
    requires e <= |s| && s[e..] == ")"
    ensures e + 1 == |s| && ExecAllOn(CommitEntry, s, e) == ExecAllOn(CommitEntry, s, e + 1)
  {
    assert s[e] == s[e..][0];
    SkipNonDash(s, e);
  }

  /** The exec loop passes over a bullet's final `)` and the line feed after
      it. */
  lemma MoreTail(s: string, e: nat, rest: string)
    requires e <= |s| && s[e..] == ")\n" + rest
    ensures e + 2 <= |s| && s[e + 2..] == rest
    ensures ExecAllOn(CommitEntry, s, e) == ExecAllOn(CommitEntry, s, e + 2)
  {
    PrefixOccurs(s, e, ")\n", rest);
    PairOccurs(s, e, ')', '\n');
    SkipNonDash(s, e);
    SkipNonDash(s, e + 1);
  }

  /** The exec loop over a list of bullets takes the first bullet and then
      passes over what follows its text. */
  lemma {:induction false} BulletListStep(s: string, pos: nat, cs: seq<Commit>) returns (e: nat)
    requires cs != [] && WellFormed(cs[0])
    requires pos <= |s| && s[pos..] == BulletList(cs)
    ensures e <= |s| && s[e..] == ListTail(cs)
    ensures ExecAllOn(CommitEntry, s, pos)
      == [Match(pos, e, [cs[0].kind, cs[0].message, cs[0].hash, cs[0].url])] + ExecAllOn(CommitEntry, s, e)
  {
    var c := cs[0];
    var bt := BulletText(c.kind, c.message, c.hash, c.url);
    PrefixOccurs(s, pos, bt, ListTail(cs));
    e := pos + |bt|;
    BulletHit(s, pos, e, c);
  }

  /** The exec loop over a single bullet finds its commit. */
  lemma {:induction false} LastBullet(s: string, pos: nat, cs: seq<Commit>)
    requires |cs| == 1 && WellFormed(cs[0])
    requires pos <= |s| && s[pos..] == BulletList(cs)
    ensures CommitsOf(ExecAllOn(CommitEntry, s, pos)) == cs
  {
    var e := BulletListStep(s, pos, cs);
    var rest := ExecAllOn(CommitEntry, s, e);
    LastTail(s, e);
    ExecOnAtEnd(CommitEntry, s);
    assert rest == [];
    CommitsOfStep(ExecAllOn(CommitEntry, s, pos), pos, e, rest, cs);
  }

  /** Between two bullets of a list the exec loop passes over the first
      bullet's final `)` and the line feed, to the second bullet at `q`. */
  lemma {:induction false} BulletGap(s: string, e: nat, cs: seq<Commit>) returns (q: nat)
    requires |cs| > 1 && e <= |s| && s[e..] == ListTail(cs)
    ensures q == e + 2 && q <= |s| && s[q..] == BulletList(cs[1..])
    ensures ExecAllOn(CommitEntry, s, e) == ExecAllOn(CommitEntry, s, q)
  {
    MoreTail(s, e, BulletList(cs[1..]));
    q := e + 2;
  }

  /** The first bullet's match followed by the commits of the rest gives
      all the commits. */
  lemma {:induction false} FirstThenRest(s: string, pos: nat, e: nat, q: nat, cs: seq<Commit>)
    requires cs != [] && pos <= e <= |s| && q <= |s|
    requires ExecAllOn(CommitEntry, s, pos)
      == [Match(pos, e, [cs[0].kind, cs[0].message, cs[0].hash, cs[0].url])] + ExecAllOn(CommitEntry, s, e)
    requires ExecAllOn(CommitEntry, s, e) == ExecAllOn(CommitEntry, s, q)
    requires CommitsOf(ExecAllOn(CommitEntry, s, q)) == cs[1..]
    ensures CommitsOf(ExecAllOn(CommitEntry, s, pos)) == cs
  {
    CommitsOfStep(ExecAllOn(CommitEntry, s, pos), pos, e, ExecAllOn(CommitEntry, s, e), cs);
  }

  /** The exec loop over several bullets finds the first one's commit and
      then goes on from the start of the second bullet, at `q`. */
  lemma {:induction false} NextBullet(s: string, pos: nat, cs: seq<Commit>) returns (q: nat)
    requires |cs| > 1 && WellFormed(cs[0])
    requires pos <= |s| && s[pos..] == BulletList(cs)
    ensures q <= |s| && s[q..] == BulletList(cs[1..])
    ensures CommitsOf(ExecAllOn(CommitEntry, s, q)) == cs[1..] ==> CommitsOf(ExecAllOn(CommitEntry, s, pos)) == cs
  {
    var e := BulletListStep(s, pos, cs);
    q := BulletGap(s, e, cs);
    if CommitsOf(ExecAllOn(CommitEntry, s, q)) == cs[1..] {
      FirstThenRest(s, pos, e, q, cs);
    }
  }

  /** The exec loop over bullets written from `pos` on finds exactly their
      commits. */
  lemma {:induction false} ExecAllOnBullets(s: string, pos: nat, cs: seq<Commit>)
    requires forall i :: 0 <= i < |cs| ==> WellFormed(cs[i])
    requires pos <= |s| && s[pos..] == BulletList(cs)
    ensures CommitsOf(ExecAllOn(CommitEntry, s, pos)) == cs
    decreases |cs|
  {
    if cs == [] {
      ExecOnAtEnd(CommitEntry, s);
    } else if |cs| == 1 {
      LastBullet(s, pos, cs);
    } else {
      var q := NextBullet(s, pos, cs);
      ExecAllOnBullets(s, q, cs[1..]);
    }
  }

  /** Bullets written one per line are read back as the commits they were
      written from: `k` bullets give `k` commits, in order. */
  lemma CommitsOfBulletList(cs: seq<Commit>)
    requires forall i :: 0 <= i < |cs| ==> WellFormed(cs[i])
    ensures Commits(BulletList(cs)) == cs
  {
    var s := BulletList(cs);
    assert s[0..] == s;
    ExecAllOnBullets(s, 0, cs);
  }

  lemma ExampleHeadText()
    ensures "- **" + "api" + ":** " + "add endpoint" == "- **api:** add endpoint"
  {
  }

  lemma ExampleLinkText()
    ensures " ([" + "abc" + "](" + "http://x/commit/abc" + ")" == " ([abc](http://x/commit/abc)"
  {
  }

  lemma ExampleBulletText()
    ensures "- **api:** add endpoint" + " ([abc](http://x/commit/abc)" + ")"
      == "- **api:** add endpoint ([abc](http://x/commit/abc))"
  {
  }

  lemma ExampleBulletLine()
    ensures BulletLine(Commit("api", "add endpoint", "abc", "http://x/commit/abc"))
      == "- **api:** add endpoint ([abc](http://x/commit/abc))"
  {
    ExampleHeadText();
    ExampleLinkText();
    ExampleBulletText();
  }

  lemma ExampleWellFormed()
    ensures WellFormed(Commit("api", "add endpoint", "abc", "http://x/commit/abc"))
  {
  }

  lemma ExampleLineText()
    ensures "\U{2022} *" + "api" + ":* " + "add endpoint" + " (<" + "http://x/commit/abc" + "|" + "abc" + ">)\n"
      == "\U{2022} *api:* add endpoint (<http://x/commit/abc|abc>)" + "\n"
  {
    assert "\U{2022} *" + "api" + ":* " + "add endpoint" == "\U{2022} *api:* add endpoint";
    assert "\U{2022} *api:* add endpoint" + " (<" + "http://x/commit/abc"
      == "\U{2022} *api:* add endpoint (<http://x/commit/abc";
    assert "\U{2022} *api:* add endpoint (<http://x/commit/abc" + "|" + "abc" + ">)\n"
      == "\U{2022} *api:* add endpoint (<http://x/commit/abc|abc>)" + "\n";
  }

  lemma ExampleRenderLine()
    ensures RenderLine(Commit("api", "add endpoint", "abc", "http://x/commit/abc"))
      == "\U{2022} *api:* add endpoint (<http://x/commit/abc|abc>)" + "\n"
  {
    assert '\n' !in "add endpoint";
    assert RemoveChar("add endpoint", '\n') == "add endpoint";
    ExampleLineText();
  }

  /** A one-bullet section body is read as its one commit. */
  lemma OneBulletCommits()
    ensures Commits("- **api:** add endpoint ([abc](http://x/commit/abc))")
      == [Commit("api", "add endpoint", "abc", "http://x/commit/abc")]
  {
    var c := Commit("api", "add endpoint", "abc", "http://x/commit/abc");
    ExampleWellFormed();
    ExampleBulletLine();
    BulletListOne(c);
    CommitsOfBulletList([c]);
  }

  lemma ExampleSectionText()
    ensures SectionText([Commit("api", "add endpoint", "abc", "http://x/commit/abc")])
      == "\U{2022} *api:* add endpoint (<http://x/commit/abc|abc>)"
  {
    var c := Commit("api", "add endpoint", "abc", "http://x/commit/abc");
    RenderOne(c);
    ExampleRenderLine();
    SuffixCancel(SectionText([c]), "\U{2022} *api:* add endpoint (<http://x/commit/abc|abc>)", "\n");
  }

  /** A one-bullet section body and the Slack text it becomes. */
  lemma OneBulletExample()
    ensures SectionText(Commits("- **api:** add endpoint ([abc](http://x/commit/abc))"))
      == "\U{2022} *api:* add endpoint (<http://x/commit/abc|abc>)"
  {
    OneBulletCommits();
    ExampleSectionText();
  }
}
