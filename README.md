# Changelog-to-Slack release notifier, modelled in Dafny

This project models the parsing and message-building part of `run()` in
`src/main.ts` of a GitHub Action that posts a release announcement to
Slack. It covers lines 23-115, taken without their I/O. The input is the
changelog text and a service name. The output is either nothing, which is
`run()`'s silent early `return`, or the list of Slack blocks that `run()`
would send.

The pipeline has five stages:

1. **Version segmenter** (`Offsets`, `Releases.VersionChunk`). The
   `while (exec)` loop of `^#+ \[*\d+\.\d+\.\d+\]*` (flags `g` and `m`)
   collects the offset of every version heading. The chunk is
   `changelog.slice(versionIndexes[0], versionIndexes[1])`, and
   `undefined` bounds count as the start and the end of the text.
2. **Version header parser** (`Releases.ParseRelease`). The chunk's first
   line must be non-empty and must contain `\[(\d+\.\d+\.\d+)\]\(([^)]+)`.
   Otherwise the result is `None`.
3. **Section splitter** (`ReleaseSections`). The `while (exec)` loop of
   `### (.+)` collects offsets in the details, which are the lines after the
   header joined again. A `reduce` then builds one section per offset. Its
   heading is the span's first line after `replace('### ', '')`.
4. **Commit extractor** (`CommitEntries`). The `while (exec)` loop of the
   commit expression (flags `g` and `s`) runs over the span's trimmed body.
   A `reduce` renders one `• *type:* message (<url|hash>)` line per commit,
   and the result is trimmed.
5. **Block formatter** (`Blocks`). It builds the header block
   `:rocket: New *S* release <url|vX.Y.Z>`, then one `*heading*\ntext`
   block per section.

Each regular expression is modelled as a scanner (`Regex.MatchAt`). The
scanner says whether, and how, the expression matches when it starts at a
given position. Every greedy run but one is followed by a character that
the run cannot contain. The commit message run `([^(]+) \(` can hold the
space that must follow it but not the `(`: it runs to the first `(` and
gives back the space before it. So backtracking has only one way to
succeed at a given start, and the scanners compute that one match
directly.

`RegExpExec.Exec` models `RegExp.prototype.exec`. It returns the leftmost
match at or after `lastIndex`. `RegExpExec.ExecAll` models the sequence of
matches that the `while ((match = re.exec(s)) !== null)` loop visits. The
three exec loops of the source are methods: `CollectIndexes` for the loops at
main.ts:27-29 and 51-53, and `PushCommits` for the loop at main.ts:63-74.
Each is proved equal to a function built on `ExecAll`. The `reduce` folds
are recursive functions. The section fold at main.ts:55-90 is also written
as the loop in `BuildSections`, proved equal to its function.
`ReleaseSections.Section` is the `Section` interface of main.ts:7-10.

JavaScript semantics are written out:

- multiline `^` and `.` use all four ECMAScript line terminators (LF, CR,
  U+2028, U+2029);
- `trim()` strips ECMAScript white space and line terminators;
- `replace('### ', '')` replaces the first occurrence only;
- `replace(/\n/g, '')` removes line feeds only;
- `slice` clamps its bounds.

Behaviour of the code worth knowing:

- With no version heading at all, the chunk is the whole changelog. A link
  `[x.y.z](url` on its first line still produces a message; it is not a
  no-op. `Notifier.NoHeadingExample` exhibits this.
- Section headings are not trimmed. Only the first `### ` is removed, and a
  CR of a CRLF line ending stays in the heading.
  `ReleaseSections.CarriageReturnStaysInHeading` exhibits this.
- The section-heading expression is not anchored to a line start. A `### `
  in the middle of a line also starts a section when the exec loop visits
  it. The loop only visits matches that do not overlap. In `### A ### B`,
  `(.+)` runs to the end of the line, so the line makes a single section.

`WrittenChangelog` reads back a changelog written in the release
generator's layout. The text starts with the header line
`## [x.y.z](url)` followed by the rest of the line (for example the date).
Then come a blank line, one `### heading` line, a blank line, the bullets
one per line, and a blank line. An older release may follow, starting with
`## [x.y.z](`. For such a text, `run()` sends two blocks: the header with
that version and URL, and one section block with that heading and the
Slack lines of exactly the written commits. The parts must not contain `#`,
and the heading must not start with a digit or `[` (`Writable`).

## Model

| member | source | states |
|---|---|---|
| `RegExpExec.Exec` | src/main.ts:27 | `exec` from `lastIndex` returns the leftmost match at or after `lastIndex`: no match starts between `lastIndex` and it, and `null` means no match starts anywhere from `lastIndex` to the end |
| `RegExpExec.ExecAll` | src/main.ts:27-29 | the matches the exec loop visits: empty exactly when the first `exec` fails; each is a real match at its own index; they come in order and do not overlap |
| `RegExpExec.ExecAllSkipsOnlyInside` | src/main.ts:27-29 | the exec loop skips a match only when it starts strictly inside a match already taken |
| `RegExpExec.CollectIndexes` | src/main.ts:27-29 | the loop `indexes.push(match.index)` fills the array with the start of every visited match, in order |
| `Regex.MatchAt` | src/main.ts:23-60 | an expression's match at a position starts there, is non-empty, lies within the text and has as many groups as the expression has capturing groups |
| `Regex.VersionHeadingAt` | src/main.ts:23 | a version-heading match starts at the position, is non-empty, stays within the text and captures nothing |
| `Regex.VersionLinkAt` | src/main.ts:34 | a version-link match starts at the position, is non-empty, stays within the text and captures two groups |
| `Regex.SectionHeadingAt` | src/main.ts:47 | a section-heading match starts at the position, is non-empty, stays within the text and captures one group |
| `Regex.CommitEntryAt` | src/main.ts:60 | a commit match starts at the position, is non-empty, stays within the text and captures four groups |
| `Regex.ExecOn` | src/main.ts:40 | `line.match(re)` without `g` is the leftmost match of the expression in the line, or none when it matches nowhere |
| `Regex.ExecAllOnCovers` | src/main.ts:51-53 | every position where an expression matches is visited by its exec loop or lies strictly inside a visited match |
| `Regex.VersionHeadingOneLine` | src/main.ts:23 | a version-heading match lies within one line |
| `Regex.VersionHeadingShape` | src/main.ts:23 | a version-heading match starts a line and is a non-empty `#` run, a space, a run of `[`, a `MAJOR.MINOR.PATCH` number whose last digit run is whole, and the whole `]` run after it, which ends the match |
| `Regex.VersionLinkShape` | src/main.ts:34 | a version-link match covers `[`, a `MAJOR.MINOR.PATCH` number, `](` and a non-empty URL free of `)` that runs up to the next `)` or the end of the line |
| `Regex.SectionHeadingShape` | src/main.ts:47 | a section-heading match is `### ` followed by a non-empty run of the line that ends at a line terminator or the end of the text |
| `Regex.CommitEntryShape` | src/main.ts:60 | a commit match covers `- **type:** message ([hash](url)` built from its four groups: the type has no `:`, the message no `(`, the hash no `]`, the URL no `)`, and none is empty |
| `Regex.CommitEntryAtBullet` | src/main.ts:60 | conversely, a bullet written from four such parts matches at its start and gives back exactly those parts |
| `Offsets.MatchIndexes` | src/main.ts:23-29 | the collected offsets are strictly increasing; each is a match position, and the next one is at or after the end of that match |
| `Offsets.CollectMatchIndexes` | src/main.ts:51-53 | the exec loop over a string collects exactly `MatchIndexes` |
| `Offsets.LineStartMatchCollected` | src/main.ts:23-29 | a heading match that starts a line is always collected |
| `Releases.VersionIndexesExact` | src/main.ts:23-29 | an offset is collected if and only if it starts a line (offset 0 or after a line terminator) and the version-heading expression matches there |
| `Releases.VersionChunk` | src/main.ts:31 | the chunk is the whole text with no heading, runs from the heading to the end with one, and is `changelog[idx0..idx1)` with two or more |
| `Releases.ChunkHoldsOneHeading` | src/main.ts:23-31 | any version-heading match lies at or after the first offset, and none lies strictly between the first and second offsets |
| `Releases.ParseRelease` | src/main.ts:32-46 | no release if and only if the chunk's first line holds no version link at any position (an empty line included); otherwise the details are the lines after the first |
| `Releases.LeftmostLink` | src/main.ts:34-46 | the link found is leftmost on the line, its version is `MAJOR.MINOR.PATCH` and its URL is non-empty and has no `)` and no line feed |
| `Releases.ReleaseShape` | src/main.ts:32-49 | the parsed version and URL are those of the leftmost link on the first line, and the chunk is that line, a line feed and the details (or the line alone, with empty details) |
| `ReleaseSections.RawSection` | src/main.ts:56 | section `i` spans `[h_i, h_{i+1})`, and the last one runs to the end of the details |
| `ReleaseSections.SpansTile` | src/main.ts:51-56 | the spans tile the details: joined in order, they give back the details from the first heading offset to the end |
| `ReleaseSections.AppendEach` | src/main.ts:83-90 | the fold `[...sum, f(x)]` from `[]` keeps the length and maps each element in place |
| `ReleaseSections.Sections` | src/main.ts:55-90 | one section per heading match the exec loop visits, in document order, none when it visits none; section `i` is made from span `i` |
| `ReleaseSections.BuildSections` | src/main.ts:51-90 | the heading loop and the fold with the commit loop inside produce `Sections(details)` |
| `ReleaseSections.SectionOf` | src/main.ts:56-88 | the callback's section has a heading without a line feed and a text that neither starts nor ends with white space |
| `ReleaseSections.HeadingOf` | src/main.ts:56-86 | the heading is the span's first line, one line long; a line starting with `### ` loses exactly that prefix; a line without `### ` is kept whole |
| `ReleaseSections.TextOf` | src/main.ts:59-87 | the text is `""` when the trimmed body holds no commit, and otherwise the fold's lines over exactly the extracted commits without their final line feed; it is trimmed |
| `ReleaseSections.BuildSection` | src/main.ts:56-88 | the fold's callback for offset `i` produces the section of span `i` |
| `ReleaseSections.SectionHeadingOf` | src/main.ts:57-58 | a section's heading is its span's first line with the leading `### ` removed; it has no line feed and starts with the text the heading expression captured |
| `ReleaseSections.SectionOfWritten` | src/main.ts:55-90 | a span written as a `### ` heading line and well-formed bullets one per line reads back as that heading and the text rendered from exactly those commits |
| `ReleaseSections.SectionTextOfBullets` | src/main.ts:59-87 | a span whose trimmed body is a list of well-formed bullets gets the text of exactly those commits |
| `ReleaseSections.ExampleSection` | src/main.ts:55-90 | `### Features` with the bullet `- **api:** add endpoint ([abc](http://x/commit/abc))` gives heading `Features` and, as text, that commit's Slack line: the bullet sign, `*api:*`, the message and the URL linked with label `abc` |
| `ReleaseSections.CarriageReturnStaysInHeading` | src/main.ts:86 | only the line feed ends the heading line, so `### Fixes\r\n…` gives the heading `Fixes\r` |
| `CommitEntries.PushCommits` | src/main.ts:63-74 | the commit loop pushes one commit per visited match, in order, with the match's four groups |
| `CommitEntries.Commits` | src/main.ts:60-74 | every extracted commit has a non-empty type without `:`, message without `(`, hash without `]` and URL without `)` |
| `CommitEntries.ExtractCommits` | src/main.ts:63-74 | the commit loop over a section body produces `Commits(body)` |
| `CommitEntries.CommitsOfBulletList` | src/main.ts:60-74 | `k` well-formed bullets, one per line, give exactly those `k` commits, in source order |
| `CommitEntries.RenderLine` | src/main.ts:77-80 | a commit's line is 13 characters longer than its type, its message without line feeds, its URL and its hash; it starts with the bullet sign and ends with `)` and a line feed |
| `CommitEntries.Render` | src/main.ts:76-81 | the fold from `''` is empty exactly when there are no commits, and it holds at least 13 characters per commit |
| `CommitEntries.RenderShape` | src/main.ts:76-81 | the rendered lines start with the bullet sign and end with `)` and a line feed |
| `CommitEntries.RenderNewlines` | src/main.ts:76-81 | the rendered text has exactly one line feed per commit: no line feed of a message survives |
| `CommitEntries.SectionText` | src/main.ts:87 | the trimmed text is `""` for no commits; otherwise it is the rendered lines with only their final line feed removed |
| `CommitEntries.OneBulletExample` | src/main.ts:59-87 | the body `- **api:** add endpoint ([abc](http://x/commit/abc))` gives one Slack line: the bullet sign, `*api:*`, `add endpoint` and the URL linked with label `abc`, with no trailing line feed |
| `Text.RemoveChar` | src/main.ts:77-80 | `replace(/\n/g, '')` leaves no line feed and keeps every other character as many times as it occurs; a text without a line feed is unchanged |
| `Text.RemoveCharConcat` | src/main.ts:77-80 | the removal works piece by piece, so the kept characters stay in their order: what is left of `a + b` is what is left of `a` followed by what is left of `b` |
| `Text.ReplaceFirst` | src/main.ts:86 | `replace` with a string pattern leaves a string without an occurrence unchanged |
| `Text.ReplaceFirstLeftmost` | src/main.ts:86 | with an occurrence, exactly the leftmost one is replaced: the text before it, the replacement, and the text after it |
| `Text.ReplaceFirstAtStart` | src/main.ts:86 | a string that starts with the pattern has exactly that occurrence replaced |
| `Text.Trim` | src/main.ts:87 | `trim()` leaves a text that neither starts nor ends with white space |
| `Text.TrimMiddle` | src/main.ts:59 | `trim()` gives a middle slice of the text, and all that it removes on both sides is white space |
| `Text.TrimPadded` | src/main.ts:59 | `trim()` gives back exactly the text between white-space padding |
| `Text.SplitFirstLine` | src/main.ts:32-33 | `split('\n')`, `shift()` and `join('\n')` cut the text at its first line feed: the first line has no line feed, and the text is the line, a line feed and the rest |
| `Text.Slice` | src/main.ts:31 | `slice` with `undefined` bounds gives the whole text; with in-range bounds it gives that range, and it gives `""` when the end is not after the start |
| `Blocks.SectionBlocks` | src/main.ts:103-114 | one block per section, in section order |
| `Blocks.FormatBlocks` | src/main.ts:95-115 | one block more than there are sections: the header first, then the block of each section in order |
| `Blocks.HeaderText` | src/main.ts:100 | the header text is 28 characters longer than the service name, URL and version together; it starts with `:rocket: New *` and ends with `>` |
| `Blocks.SectionBlock` | src/main.ts:106-111 | a section block's text is the heading between asterisks, a line feed and the section's text: three characters longer than the heading and text together |
| `Blocks.HeaderParts` | src/main.ts:100 | the header text holds the service name between `*`s, the URL after `<`, and `v` and the version before the closing `>` |
| `Blocks.SectionBlockLines` | src/main.ts:110 | a section block's first line is the heading between asterisks, and the rest is the section's text |
| `Notifier.Notify` | src/main.ts:23-115 | the message is absent if and only if the newest chunk's first line has no version link |
| `Notifier.Run` | src/main.ts:23-115 | both exec loops, the early returns and the fold produce `Notify(changelog, serviceName)` |
| `Notifier.NotifyBlocks` | src/main.ts:94-115 | a sent message has one block more than there are heading matches the exec loop visits in the details; the header carries the service name, version and URL; block `i + 1` reads back as the heading of section `i` and its text |
| `Notifier.NoHeadingExample` | src/main.ts:31-46 | a changelog with no version heading whose only line is `[1.0.0](u)` still gives a one-block message |
| `WrittenChangelog.VersionHeadingWritten` | src/main.ts:23 | a line that starts `## [`, continues with a version number and `]`, and has no second `]` after it matches the version-heading expression over exactly that text |
| `WrittenChangelog.VersionLinkWritten` | src/main.ts:34 | `[x.y.z](url` with a non-empty URL free of `)` matches the version-link expression, capturing exactly the version and the URL |
| `WrittenChangelog.SectionHeadingWritten` | src/main.ts:47 | `### ` and a non-empty heading up to a line end match the section-heading expression, capturing exactly the heading |
| `WrittenChangelog.ChunkBeforeOlder` | src/main.ts:23-31 | when a written release is followed by the heading of an older one, the chunk is exactly the written release |
| `WrittenChangelog.ChunkAlone` | src/main.ts:23-31 | a written release alone is its own chunk |
| `WrittenChangelog.LinkOnHeader` | src/main.ts:34-40 | on a written header line, the version link is found after `## ` and captures the written version and URL |
| `WrittenChangelog.ParseWritten` | src/main.ts:32-46 | a written release parses back to its version and URL, and its details are the written lines after the header |
| `WrittenChangelog.SectionIndexesWritten` | src/main.ts:47-53 | the heading loop over the written details finds exactly one heading, at offset 1 |
| `WrittenChangelog.SectionsWritten` | src/main.ts:47-90 | the written details give exactly one section, with the written heading and the Slack lines of exactly the written commits |
| `WrittenChangelog.NotifyWrittenRelease` | src/main.ts:23-115 | a written release above an older one gives the header block of its version and URL and the one block of its section |
| `WrittenChangelog.NotifyOnlyRelease` | src/main.ts:23-115 | a changelog holding one written release gives the same two blocks |

## Left out

- Reading the changelog with `fs.readFile` from a path resolved against
  `__dirname` (src/main.ts:16-21): the changelog is an input string.
- `core.getInput` and `core.setFailed` (src/main.ts:14-15, 118): the service
  name is a parameter, and the webhook URL is not used by the model.
- `IncomingWebhook.send` (src/main.ts:92-94): the model returns the block
  list that would be sent. Network failures and the `try`/`catch` around
  `run()` (src/main.ts:12-13, 117-122) are not modelled.
- The `@slack/types` `Block` type: a block is a `section` with `mrkdwn`
  text, the only shape the code builds.
- String offsets: JavaScript indexes strings in UTF-16 code units, and the
  model indexes them in characters. Texts with characters outside the Basic
  Multilingual Plane get different offsets. Slices, matches and results are
  the same.
- `__tests__/main.test.ts`: it tests a helper that is not part of this model.
- `Notifier.Notify`: its own contract states only when the result is
  absent. The content of a present result is stated by
  `Notifier.NotifyBlocks`.
- `WrittenChangelog`: the read-back theorems cover releases with one
  section and no `#` in the written parts. Changelogs with several sections
  in one release are covered only by the general `Notifier.NotifyBlocks`.
