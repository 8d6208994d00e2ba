/** The Slack message (main.ts:94-115): a header block for the release and
    one block per section, each a `section` block with `mrkdwn` text. */
module Blocks {
  import opened Text
  import opened ReleaseSections

  /** `{ type: 'section', text: { type: 'mrkdwn', text } }`: the only block
      shape the message uses. */
  datatype Block = MrkdwnSection(text: string)

  /** `:rocket: New *<service>* release <<url>|v<version>>`. */
  function HeaderText(serviceName: string, version: string, url: string): (h: string)
    ensures |h| == 28 + |serviceName| + |url| + |version|
    ensures h[..14] == ":rocket: New *" && h[|h| - 1] == '>'
  {
    ":rocket: New *" + serviceName + "* release <" + url + "|v" + version + ">"
  }

  /** `*<heading>*` on the first line, the section's text after it. */
  function SectionBlock(section: Section): (block: Block)
    ensures |block.text| == 3 + |section.heading| + |section.text|
    ensures block.text[0] == '*' && block.text[|section.heading| + 1] == '*' && block.text[|section.heading| + 2] == '\n'
  {
    MrkdwnSection("*" + section.heading + "*\n" + section.text)
  }

  /** `sections.reduce((sum, section) => [...sum, block], [])`: one block per
      section, in order. */
  function SectionBlocks(sections: seq<Section>): (blocks: seq<Block>)
    ensures |blocks| == |sections|
    ensures forall i :: 0 <= i < |sections| ==> blocks[i] == SectionBlock(sections[i])
  {
    if sections == [] then []
    else SectionBlocks(sections[..|sections| - 1]) + [SectionBlock(sections[|sections| - 1])]
  }

  /** The `blocks` array sent: the header first, then the section blocks. */
  function FormatBlocks(serviceName: string, version: string, url: string, sections: seq<Section>): (blocks: seq<Block>)
    ensures |blocks| == 1 + |sections|
    ensures blocks[0] == MrkdwnSection(HeaderText(serviceName, version, url))
    ensures forall i :: 0 <= i < |sections| ==> blocks[i + 1] == SectionBlock(sections[i])
  {
    [MrkdwnSection(HeaderText(serviceName, version, url))] + SectionBlocks(sections)
  }

  /** A section block reads back: its first line is the heading between
      asterisks and the rest is the section's text, whenever the heading
      holds no line feed (which every heading the parser makes satisfies). */
  lemma SectionBlockLines(section: Section)
    requires '\n' !in section.heading
    ensures SplitFirstLine(SectionBlock(section).text) == ("*" + section.heading + "*", section.text)
  {
    var first := "*" + section.heading + "*";
    var text := SectionBlock(section).text;
    assert '\n' !in first by {
      assert forall k :: 0 <= k < |first| ==> first[k] == '*' || first[k] == section.heading[k - 1];
    }
    assert text == first + "\n" + section.text;
    SplitFirstLineJoin(first, section.text);
  }

  /** The header names the service and links the URL with `v` and the
      version as its label: the URL sits between `<` and `|v`, the version
      between `|v` and the closing `>`. */
  lemma HeaderParts(serviceName: string, version: string, url: string)
    ensures var h := HeaderText(serviceName, version, url);
      var u := 14 + |serviceName| + 11;
      && |h| == u + |url| + 2 + |version| + 1
      && h[..14] == ":rocket: New *"
      && h[14..14 + |serviceName|] == serviceName
      && h[u..u + |url|] == url
      && h[u + |url|..u + |url| + 2] == "|v"
      && h[u + |url| + 2..|h| - 1] == version
      && h[|h| - 1] == '>'
  {
    var a := ":rocket: New *" + serviceName;
    var b := a + "* release <";
    var c := b + url;
    var d := c + "|v";
    var e := d + version;
    assert HeaderText(serviceName, version, url) == e + ">";
    assert |b| == 14 + |serviceName| + 11;
  }
}
