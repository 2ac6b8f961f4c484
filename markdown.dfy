/**
 * The Markdown section splitter of the ingestion layer: a line-oriented scan
 * of the file's text that opens a section at every heading line outside a
 * fenced code block and appends every other non-blank line, stripped, to the
 * content of the section opened last.
 */
module Markdown {
  import opened Text

  /** One output record: `{"title", "level", "content", "source"}`. */
  datatype Section = Section(title: string, level: nat, content: string, source: string)

  /** The state of the scan: the sections so far and the fence flag. */
  datatype Scan = Scan(sections: seq<Section>, inCodeBlock: bool)

  /** The pseudo-section that is always present first, for text before any heading. */
  function Preamble(source: string): Section {
    Section("", 0, "", source)
  }

  /** A line whose stripped form starts with three backticks flips the fence flag. */
  predicate IsFenceLine(l: string) {
    StartsWith(Strip(l), "```")
  }

  /** `l.lstrip("#").strip()`. */
  function Title(l: string): string {
    Strip(LStripChar(l, '#'))
  }

  /** `len(l.split(" ")[0])`: the length of the line up to its first space. */
  function Level(l: string): nat {
    |Split(l, ' ')[0]|
  }

  /**
   * What the loop body looks at in one line: whether it flips the fence flag,
   * whether it starts with `#`, its stripped form, and the title and level
   * it would give a section.
   */
  datatype LineView = LineView(togglesFence: bool, startsWithHash: bool, stripped: string, title: string, level: nat)

  function View(l: string): LineView {
    LineView(IsFenceLine(l), StartsWith(l, "#"), Strip(l), Title(l), Level(l))
  }

  function Views(lines: seq<string>): (vs: seq<LineView>)
    decreases |lines|
  {
    if |lines| == 0 then [] else Views(lines[..|lines| - 1]) + [View(lines[|lines| - 1])]
  }

  function AppendToLast(ss: seq<Section>, t: string): seq<Section>
    requires |ss| > 0
  {
    ss[..|ss| - 1] + [ss[|ss| - 1].(content := ss[|ss| - 1].content + t)]
  }

  /** One iteration of the loop, on the view of the current line. */
  function Step(st: Scan, v: LineView, source: string): Scan {
    var inCode := if v.togglesFence then !st.inCodeBlock else st.inCodeBlock;
    if v.startsWithHash && !inCode then
      Scan(st.sections + [Section(v.title, v.level, "", source)], inCode)
    else if |st.sections| > 0 && v.stripped != "" then
      Scan(AppendToLast(st.sections, v.stripped + "\n"), inCode)
    else
      Scan(st.sections, inCode)
  }

  /** The state after the loop has processed the lines viewed as `vs`. */
  function Run(vs: seq<LineView>, source: string): Scan
    decreases |vs|
  {
    if |vs| == 0 then Scan([Preamble(source)], false)
    else Step(Run(vs[..|vs| - 1], source), vs[|vs| - 1], source)
  }

  /** What loading a file with text `text` returns. */
  function Sections(text: string, source: string): seq<Section> {
    Run(Views(Split(text, '\n')), source).sections
  }

  /** `MarkdownLoader.load`, with the file's text and resolved path as parameters. */
  method Load(source: string, text: string) returns (result: seq<Section>)
    ensures result == Sections(text, source)
  {
    var lines := Split(text, '\n');
    var inCodeBlock := false;
    result := [Section("", 0, "", source)];
    for i := 0 to |lines|
      invariant Run(Views(lines[..i]), source) == Scan(result, inCodeBlock)
    {
      RunSnoc(lines, i, source);
      result, inCodeBlock := ScanLine(result, inCodeBlock, lines[i], source);
    }
    assert lines[..|lines|] == lines;
  }

  /** Processing one more line is one more step. */
  lemma RunSnoc(lines: seq<string>, i: nat, source: string)
    requires i < |lines|
    ensures Run(Views(lines[..i + 1]), source) == Step(Run(Views(lines[..i]), source), View(lines[i]), source)
  {
    assert lines[..i + 1][..i] == lines[..i];
  }

  /** The body of the loop in `MarkdownLoader.load`, for the line `l`. */
  method ScanLine(sections: seq<Section>, inCodeBlock: bool, l: string, source: string)
    returns (result: seq<Section>, inCode: bool)
    ensures Scan(result, inCode) == Step(Scan(sections, inCodeBlock), View(l), source)
  {
    result, inCode := sections, inCodeBlock;
    if StartsWith(Strip(l), "```") {
      inCode := !inCode;
    }
    if StartsWith(l, "#") && !inCode {
      result := result + [Section(Strip(LStripChar(l, '#')), |Split(l, ' ')[0]|, "", source)];
    } else if |result| > 0 && Strip(l) != "" {
      var last := result[|result| - 1];
      result := result[..|result| - 1] + [last.(content := last.content + (Strip(l) + "\n"))];
    }
  }

  // ---------------------------------------------------------------------
  // Reference definitions that do not mention the scan state

  /** How many of the lines flip the fence flag. */
  function FenceCount(vs: seq<LineView>): nat
    decreases |vs|
  {
    if |vs| == 0 then 0
    else FenceCount(vs[..|vs| - 1]) + (if vs[|vs| - 1].togglesFence then 1 else 0)
  }

  /**
   * The last line is a heading: it starts with `#` and an even number of
   * fence lines, this one included, have been seen.
   */
  predicate LastIsHeading(vs: seq<LineView>)
    requires |vs| > 0
  {
    vs[|vs| - 1].startsWithHash && FenceCount(vs) % 2 == 0
  }

  /** The lines that open sections, in order. */
  function Headings(vs: seq<LineView>): seq<LineView>
    decreases |vs|
  {
    if |vs| == 0 then []
    else Headings(vs[..|vs| - 1]) + (if LastIsHeading(vs) then [vs[|vs| - 1]] else [])
  }

  /** The text the non-heading, non-blank lines contribute, in order. */
  function ContentText(vs: seq<LineView>): string
    decreases |vs|
  {
    if |vs| == 0 then ""
    else
      var v := vs[|vs| - 1];
      ContentText(vs[..|vs| - 1]) + (if !LastIsHeading(vs) && v.stripped != "" then v.stripped + "\n" else "")
  }

  /** The contents of all sections, concatenated. */
  function AllContent(ss: seq<Section>): string
    decreases |ss|
  {
    if |ss| == 0 then "" else AllContent(ss[..|ss| - 1]) + ss[|ss| - 1].content
  }

  // ---------------------------------------------------------------------
  // What one iteration does

  /** A blank or whitespace-only line changes nothing, not even the fence flag. */
  lemma StepBlank(st: Scan, l: string, source: string)
    requires IsBlank(l)
    ensures Step(st, View(l), source) == st
  {
    StripEmptyIff(l);
    assert Strip(l) == [];
    assert !StartsWith(l, "#") by { if |l| > 0 { assert IsWhitespace(l[0]); } }
  }

  /** A line starting with `#` is never a fence line and is never blank. */
  lemma HashLineIsNoFence(l: string)
    requires StartsWith(l, "#")
    ensures !IsFenceLine(l) && Strip(l) != ""
  {
    assert l[0] == l[..1][0];
    StripKeepsFirst(l);
    NotStartsWith(Strip(l), "```");
  }

  /**
   * The fence flag is flipped before the heading test: a `#` line inside a
   * fenced block is appended, stripped, to the last section, and leaves the
   * fence flag on and the number of sections as it was.
   */
  lemma StepFencedHash(st: Scan, l: string, source: string)
    requires StartsWith(l, "#") && st.inCodeBlock && |st.sections| > 0
    ensures Step(st, View(l), source) == Scan(AppendToLast(st.sections, Strip(l) + "\n"), true)
  {
    HashLineIsNoFence(l);
  }

  /**
   * A line that is neither a heading nor blank appends exactly
   * `strip(line) + "\n"` to the last section; the earlier ones are unchanged.
   */
  lemma StepContentLine(st: Scan, l: string, source: string)
    requires |st.sections| > 0 && !IsBlank(l)
    requires !StartsWith(l, "#") || st.inCodeBlock
    ensures Step(st, View(l), source).sections == AppendToLast(st.sections, Strip(l) + "\n")
  {
    var v := View(l);
    assert v.stripped == Strip(l) && v.stripped != "";
    if StartsWith(l, "#") {
      HashLineIsNoFence(l);
      assert !v.togglesFence;
    }
  }

  /**
   * A heading line outside a fence adds one section at the end, with a title
   * free of surrounding whitespace, the line's `Level` (at least one), empty content;
   * the sections before it are unchanged.
   */
  lemma StepHeading(st: Scan, l: string, source: string)
    requires StartsWith(l, "#") && !st.inCodeBlock
    ensures var r := Step(st, View(l), source);
      !r.inCodeBlock
      && r.sections[..|st.sections|] == st.sections
      && |r.sections| == |st.sections| + 1
      && var s := r.sections[|st.sections|];
        s.content == "" && s.source == source && s.level == Level(l) && s.level >= 1
        && s.title == Strip(LStripChar(l, '#'))
        && (s.title == [] || (!IsWhitespace(s.title[0]) && !IsWhitespace(s.title[|s.title| - 1])))
  {
    var v := View(l);
    HashLineIsNoFence(l);
    LevelOfHeading(l);
    StripEnds(LStripChar(l, '#'));
    assert !v.togglesFence && v.startsWithHash && v.level >= 1 && v.title == Strip(LStripChar(l, '#'));
    assert Step(st, v, source).sections == st.sections + [Section(v.title, v.level, "", source)];
  }

  /**
   * An indented heading is content: a line that starts with whitespace and
   * reads `# ...` once stripped is appended to the last section, inside a
   * fence or not, and opens no section.
   */
  lemma StepIndentedHeading(st: Scan, l: string, source: string)
    requires |st.sections| > 0 && |l| > 0 && IsWhitespace(l[0]) && StartsWith(Strip(l), "#")
    ensures Step(st, View(l), source).sections == AppendToLast(st.sections, Strip(l) + "\n")
  {
    assert !StartsWith(l, "#") by {
      NotStartsWith(l, "#");
    }
    assert !IsBlank(l) by {
      StripEmptyIff(l);
    }
    StepContentLine(st, l, source);
  }

  /**
   * A fence line outside a heading lands in the content too: it flips the
   * fence flag and appends its stripped form to the last section.
   */
  lemma StepFenceLine(st: Scan, l: string, source: string)
    requires |st.sections| > 0 && IsFenceLine(l) && !StartsWith(l, "#")
    ensures Step(st, View(l), source) == Scan(AppendToLast(st.sections, Strip(l) + "\n"), !st.inCodeBlock)
  {
    assert Strip(l) != "";
  }

  // ---------------------------------------------------------------------
  // The heading level and title

  /**
   * The level is the index of the first space in the line (its length when
   * there is none), so a line starting with `#` has level one or more.
   */
  lemma LevelOfHeading(l: string)
    ensures Level(l) == IndexOf(l, ' ')
    ensures StartsWith(l, "#") ==> Level(l) >= 1
  {
  }

  /**
   * The level equals the number of leading `#` characters exactly when the
   * run of `#` is followed by a space or ends the line.
   */
  lemma LevelCountsHashesIff(l: string)
    ensures Level(l) == LeadingRun(l, '#') <==> (LeadingRun(l, '#') == |l| || l[LeadingRun(l, '#')] == ' ')
  {
  }

  /** `"#A"` is a heading of level 2, not 1. */
  lemma LevelOfUnspacedHeading()
    ensures Level("#A") == 2
  {
    var l := "#A";
    assert l[0] != ' ' && l[1] != ' ';
    LevelOfHeading(l);
  }

  /**
   * The title begins with `#` only through whitespace: when the character
   * after the line's run of `#` is not whitespace, the title does not start
   * with `#`.
   */
  lemma TitleNoLeadingHash(l: string)
    requires LStripChar(l, '#') == [] || !IsWhitespace(LStripChar(l, '#')[0])
    ensures Title(l) == [] || Title(l)[0] != '#'
  {
    var rest := LStripChar(l, '#');
    if rest != [] {
      StripKeepsFirst(rest);
    }
  }

  /** A title can still begin with `#`: `"# #x"` has title `"#x"`. */
  lemma TitleMayStartWithHash()
    ensures Title("# #x") == "#x"
  {
    var l := "# #x";
    assert l[1..] == " #x";
    assert LStripChar(l, '#') == " #x";
    var t := " #x";
    assert t[1..] == "#x";
    assert LStrip(t) == "#x";
    assert RStrip("#x") == "#x";
  }

  // ---------------------------------------------------------------------
  // What the whole scan returns

  /** The result is never empty and begins with the pseudo-section (title "", level 0). */
  lemma {:induction false} RunPreamble(vs: seq<LineView>, source: string)
    ensures var ss := Run(vs, source).sections;
      |ss| >= 1 && ss[0].title == "" && ss[0].level == 0 && ss[0].source == source
    decreases |vs|
  {
    if |vs| > 0 {
      RunPreamble(vs[..|vs| - 1], source);
      StepKeepsFirst(Run(vs[..|vs| - 1], source), vs[|vs| - 1], source);
    }
  }

  /** A step never removes the first section, nor changes its title, level or source. */
  lemma StepKeepsFirst(st: Scan, v: LineView, source: string)
    requires |st.sections| >= 1
    ensures var ss := Step(st, v, source).sections;
      |ss| >= 1 && ss[0].title == st.sections[0].title && ss[0].level == st.sections[0].level
      && ss[0].source == st.sections[0].source
  {
    var inCode := if v.togglesFence then !st.inCodeBlock else st.inCodeBlock;
    if !(v.startsWithHash && !inCode) && v.stripped != "" {
      var ss := st.sections;
      if |ss| == 1 {
        assert AppendToLast(ss, v.stripped + "\n")[0] == ss[0].(content := ss[0].content + (v.stripped + "\n"));
      } else {
        assert AppendToLast(ss, v.stripped + "\n")[0] == ss[0];
      }
    }
  }

  /** Every section carries the same `source`. */
  lemma {:induction false} RunSource(vs: seq<LineView>, source: string)
    ensures forall i :: 0 <= i < |Run(vs, source).sections| ==> Run(vs, source).sections[i].source == source
    decreases |vs|
  {
    if |vs| > 0 {
      var prev := vs[..|vs| - 1];
      var v := vs[|vs| - 1];
      RunSource(prev, source);
      var st := Run(prev, source);
      var ss := st.sections;
      var inCode := if v.togglesFence then !st.inCodeBlock else st.inCodeBlock;
      if v.startsWithHash && !inCode {
        assert Run(vs, source).sections == ss + [Section(v.title, v.level, "", source)];
      } else if |ss| > 0 && v.stripped != "" {
        assert Run(vs, source).sections == AppendToLast(ss, v.stripped + "\n");
      }
    }
  }

  /** The fence flag is on exactly when an odd number of fence lines has been seen. */
  lemma {:induction false} RunFence(vs: seq<LineView>, source: string)
    ensures Run(vs, source).inCodeBlock <==> FenceCount(vs) % 2 == 1
    decreases |vs|
  {
    if |vs| > 0 {
      RunFence(vs[..|vs| - 1], source);
    }
  }

  /**
   * There is one section per heading line outside a fence, besides the
   * pseudo-section, carrying that line's title and level, in line order.
   */
  lemma {:induction false} RunHeadings(vs: seq<LineView>, source: string)
    ensures |Run(vs, source).sections| == 1 + |Headings(vs)|
    ensures forall j :: 0 <= j < |Headings(vs)| ==>
      Run(vs, source).sections[j + 1].title == Headings(vs)[j].title
      && Run(vs, source).sections[j + 1].level == Headings(vs)[j].level
    decreases |vs|
  {
    if |vs| > 0 {
      var prev := vs[..|vs| - 1];
      var v := vs[|vs| - 1];
      RunHeadings(prev, source);
      RunFence(vs, source);
      RunPreamble(prev, source);
      var st := Run(prev, source);
      var ss := st.sections;
      var hs := Headings(prev);
      var inCode := if v.togglesFence then !st.inCodeBlock else st.inCodeBlock;
      assert inCode == Run(vs, source).inCodeBlock;
      var r := Run(vs, source).sections;
      if v.startsWithHash && !inCode {
        assert LastIsHeading(vs);
        assert Headings(vs) == hs + [v];
        assert r == ss + [Section(v.title, v.level, "", source)];
      } else {
        assert !LastIsHeading(vs);
        assert Headings(vs) == hs;
        if v.stripped != "" {
          assert r == AppendToLast(ss, v.stripped + "\n");
          forall j | 0 <= j < |hs| ensures r[j + 1].title == hs[j].title && r[j + 1].level == hs[j].level {
            assert r[j + 1].title == ss[j + 1].title && r[j + 1].level == ss[j + 1].level;
          }
        } else {
          assert r == ss;
        }
      }
    }
  }

  /**
   * No text is lost or invented: the contents of all sections, concatenated,
   * are the stripped non-heading, non-blank lines, each followed by "\n".
   */
  lemma {:induction false} RunContent(vs: seq<LineView>, source: string)
    ensures AllContent(Run(vs, source).sections) == ContentText(vs)
    decreases |vs|
  {
    if |vs| > 0 {
      var prev := vs[..|vs| - 1];
      var v := vs[|vs| - 1];
      var st := Run(prev, source);
      var ss := st.sections;
      RunContent(prev, source);
      RunFence(vs, source);
      RunPreamble(prev, source);
      var inCode := if v.togglesFence then !st.inCodeBlock else st.inCodeBlock;
      assert inCode == Run(vs, source).inCodeBlock;
      if v.startsWithHash && !inCode {
        assert LastIsHeading(vs);
        AllContentPush(ss, Section(v.title, v.level, "", source));
      } else if v.stripped != "" {
        assert !LastIsHeading(vs);
        AllContentAppendToLast(ss, v.stripped + "\n");
      } else {
        assert ContentText(vs) == ContentText(prev) + "";
      }
    }
  }

  lemma AllContentPush(ss: seq<Section>, s: Section)
    ensures AllContent(ss + [s]) == AllContent(ss) + s.content
  {
    assert (ss + [s])[..|ss|] == ss;
  }

  lemma AllContentAppendToLast(ss: seq<Section>, t: string)
    requires |ss| > 0
    ensures AllContent(AppendToLast(ss, t)) == AllContent(ss) + t
  {
    var init := ss[..|ss| - 1];
    var last := ss[|ss| - 1];
    var a, b := AllContent(init), last.content;
    assert AllContent(ss) == a + b;
    assert AllContent(AppendToLast(ss, t)) == a + (b + t) by {
      AllContentPush(init, last.(content := b + t));
    }
    Assoc(a, b, t);
  }

  /** Loading a file of text `text`, in one statement, from the lemmas above. */
  lemma SectionsSummary(text: string, source: string)
    ensures var ss := Sections(text, source);
      var vs := Views(Split(text, '\n'));
      |ss| == 1 + |Headings(vs)| && ss[0].title == "" && ss[0].level == 0
      && AllContent(ss) == ContentText(vs)
      && forall i :: 0 <= i < |ss| ==> ss[i].source == source
  {
    var vs := Views(Split(text, '\n'));
    RunPreamble(vs, source);
    RunHeadings(vs, source);
    RunContent(vs, source);
    RunSource(vs, source);
  }
}
