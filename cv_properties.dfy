/**
  What `format_cv_to_pdf` (utils/test/cv_pdf_formatter3.py) promises about the list of
  flowables it builds: the shape of the header block, how sections open, where the
  horizontal rules go, and that every dash bullet of a grouped section ends up, once and
  in order, in a non-empty bullet list.
 */
module CvProperties {
  import opened Wrappers
  import opened Text
  import opened Patterns
  import opened InlineMarkup
  import opened CvFormatter

  /** A stripped line that is a recognised section header. */
  predicate Opens(line: string) {
    line != [] && SectionHeader(line).Some?
  }

  /** The section after a stripped line, as the main loop tracks it. */
  function NextSection(sec: Option<Section>, line: string): Option<Section> {
    if Opens(line) then SectionHeader(line) else sec
  }

  /** The bullet text a stripped line contributes to the pending list, if any. */
  function LineItems(sec: Option<Section>, line: string): seq<string> {
    if line != [] && SectionHeader(line).None? && Grouped(sec) && IsBullet(line) then [BulletText(line)] else []
  }

  /**
    Reference for the bullet lists: the bullet texts of the grouped sections from line `i`
    on, found by tracking the section alone (no buffer, no flushing).
   */
  function Gathered(lines: seq<string>, i: nat, sec: Option<Section>): seq<string>
    decreases |lines| - i
  {
    if i >= |lines| then []
    else
      var line := Strip(lines[i]);
      LineItems(sec, line) + Gathered(lines, i + 1, NextSection(sec, line))
  }

  /** Number of horizontal rules. */
  function Rules(blocks: seq<Block>): nat {
    if blocks == [] then 0 else (if blocks[0].Rule? then 1 else 0) + Rules(blocks[1..])
  }

  predicate IsHeading(b: Block) {
    b.Para? && b.style == SectionHeading
  }

  /** Number of section headings. */
  function Headings(blocks: seq<Block>): nat {
    if blocks == [] then 0 else (if IsHeading(blocks[0]) then 1 else 0) + Headings(blocks[1..])
  }

  /** The items of all bullet lists, in order. */
  function Items(blocks: seq<Block>): seq<string> {
    if blocks == [] then [] else (if blocks[0].BulletList? then blocks[0].items else []) + Items(blocks[1..])
  }

  /** Blocks with no rule, no section heading and no bullet list. */
  predicate Quiet(blocks: seq<Block>) {
    forall k :: 0 <= k < |blocks| ==> !blocks[k].Rule? && !IsHeading(blocks[k]) && !blocks[k].BulletList?
  }

  /** Every bullet list has at least one item. */
  predicate ListsNonEmpty(blocks: seq<Block>) {
    forall k :: 0 <= k < |blocks| && blocks[k].BulletList? ==> blocks[k].items != []
  }

  // ----- counting over concatenations -----

  lemma CountsAppend(a: seq<Block>, b: seq<Block>)
    ensures Rules(a + b) == Rules(a) + Rules(b)
    ensures Headings(a + b) == Headings(a) + Headings(b)
    ensures Items(a + b) == Items(a) + Items(b)
  {
    RulesAppend(a, b);
    HeadingsAppend(a, b);
    ItemsAppend(a, b);
  }

  lemma {:induction false} RulesAppend(a: seq<Block>, b: seq<Block>)
    ensures Rules(a + b) == Rules(a) + Rules(b)
  {
    if a == [] {
      assert a + b == b;
    } else {
      assert (a + b)[0] == a[0] && (a + b)[1..] == a[1..] + b;
      RulesAppend(a[1..], b);
    }
  }

  lemma {:induction false} HeadingsAppend(a: seq<Block>, b: seq<Block>)
    ensures Headings(a + b) == Headings(a) + Headings(b)
  {
    if a == [] {
      assert a + b == b;
    } else {
      assert (a + b)[0] == a[0] && (a + b)[1..] == a[1..] + b;
      HeadingsAppend(a[1..], b);
    }
  }

  lemma {:induction false} ItemsAppend(a: seq<Block>, b: seq<Block>)
    ensures Items(a + b) == Items(a) + Items(b)
  {
    if a == [] {
      assert a + b == b;
    } else {
      assert (a + b)[0] == a[0] && (a + b)[1..] == a[1..] + b;
      ItemsAppend(a[1..], b);
    }
  }

  lemma {:induction false} QuietCounts(blocks: seq<Block>)
    requires Quiet(blocks)
    ensures Rules(blocks) == 0 && Headings(blocks) == 0 && Items(blocks) == []
  {
    if blocks != [] {
      assert Quiet(blocks[1..]) by {
        forall k | 0 <= k < |blocks[1..]| ensures !blocks[1..][k].Rule? && !IsHeading(blocks[1..][k]) && !blocks[1..][k].BulletList? {
          assert blocks[1..][k] == blocks[k + 1];
        }
      }
      QuietCounts(blocks[1..]);
    }
  }

  lemma ListsAppend(a: seq<Block>, b: seq<Block>)
    requires ListsNonEmpty(a) && ListsNonEmpty(b)
    ensures ListsNonEmpty(a + b)
  {
    forall k | 0 <= k < |a + b| && (a + b)[k].BulletList? ensures (a + b)[k].items != [] {
      if k >= |a| {
        assert (a + b)[k] == b[k - |a|];
  }
    }
  }

  /** A flush adds one list holding exactly the pending bullets, or nothing. */
  lemma FlushCounts(buffer: seq<string>)
    ensures Rules(Flush(buffer)) == 0 && Headings(Flush(buffer)) == 0
    ensures Items(Flush(buffer)) == buffer
    ensures ListsNonEmpty(Flush(buffer))
  {
    if buffer != [] {
      assert Flush(buffer)[1..] == [];
    }
  }

  // ----- one step of the main loop -----

  lemma ProjectLineQuiet(line: string)
    ensures Quiet(ProjectLine(line))
  {
    match LazyBoldAt(line)
    case Some(h) =>
      var desc := Strip(ProjectDescription(line[h.len..]));
      QuietTitle(Strip(h.group), if desc == [] then [] else [Para(Normal, Inline(desc))]);
    case None =>
  }

  lemma EducationLineQuiet(line: string)
    ensures Quiet(EducationLine(line))
  {
    match LazyBoldAt(line)
    case Some(h) =>
      var rest := Strip(DegreeRest(line[h.len..]));
      QuietTitle(Strip(h.group), if rest == [] then [] else [Para(EduSub, Inline(rest))]);
    case None =>
  }

  /** A title paragraph followed by at most one more paragraph of a non-heading style. */
  lemma QuietTitle(title: string, more: seq<Block>)
    requires |more| <= 1 && forall k :: 0 <= k < |more| ==> more[k].Para? && more[k].style != SectionHeading
    ensures Quiet([Para(ProjectTitle, title)] + more)
  {
  }

  /** The heading blocks hold one heading, and one rule unless they open the first section. */
  lemma HeaderBlocksCounts(first: bool, title: string)
    ensures Headings(HeaderBlocks(first, title)) == 1
    ensures Rules(HeaderBlocks(first, title)) == (if first then 0 else 1)
    ensures Items(HeaderBlocks(first, title)) == []
    ensures ListsNonEmpty(HeaderBlocks(first, title))
  {
    var tail := [Para(SectionHeading, title), Spacer(8)];
    assert tail[1..][1..] == [];
    CountsAppend(Separator(first), tail);
    if !first {
      var sep := [Spacer(23), Rule, Spacer(12)];
      assert sep[1..][1..][1..] == [];
    }
  }

  /** Only a recognised header opens a section; every other line keeps the current one. */
  lemma StepSection(st: State, line: string)
    ensures Step(st, line).0.section == NextSection(st.section, line)
    ensures Step(st, line).0.firstSection == (st.firstSection && !Opens(line))
  {
  }

  /** A step adds a heading exactly at a header, and a rule at every header but the first. */
  lemma StepCounts(st: State, line: string)
    ensures Headings(Step(st, line).1) == (if Opens(line) then 1 else 0)
    ensures Rules(Step(st, line).1) == (if Opens(line) && !st.firstSection then 1 else 0)
  {
    if line == [] {
      QuietCounts([Spacer(10)]);
    } else if SectionHeader(line).Some? {
      StepHeading(st, line);
      FlushCounts(st.buffer);
      HeaderBlocksCounts(st.firstSection, HeaderTitle(line));
      CountsAppend(Flush(st.buffer), HeaderBlocks(st.firstSection, HeaderTitle(line)));
    } else if st.section == Some(Summary) {
      QuietCounts([Para(Normal, Inline(line))]);
    } else if st.section == Some(Projects) {
      ProjectLineQuiet(line);
      QuietCounts(ProjectLine(line));
    } else if st.section == Some(Education) {
      EducationLineQuiet(line);
      QuietCounts(EducationLine(line));
    } else if IsBullet(line) {
    } else {
      StepOther(st, line);
      FlushCounts(st.buffer);
      QuietCounts([Para(Normal, Inline(line))]);
      CountsAppend(Flush(st.buffer), [Para(Normal, Inline(line))]);
    }
  }

  /**
    No bullet is lost or repeated by a step: the listed items plus the pending ones after
    it are the pending ones before it plus the line's own bullet.
   */
  lemma StepItems(st: State, line: string)
    ensures Items(Step(st, line).1) + Step(st, line).0.buffer == st.buffer + LineItems(st.section, line)
    ensures ListsNonEmpty(Step(st, line).1)
  {
    if line == [] {
      QuietCounts([Spacer(10)]);
    } else if SectionHeader(line).Some? {
      StepHeading(st, line);
      FlushCounts(st.buffer);
      HeaderBlocksCounts(st.firstSection, HeaderTitle(line));
      CountsAppend(Flush(st.buffer), HeaderBlocks(st.firstSection, HeaderTitle(line)));
      ListsAppend(Flush(st.buffer), HeaderBlocks(st.firstSection, HeaderTitle(line)));
    } else if st.section == Some(Summary) {
      QuietCounts([Para(Normal, Inline(line))]);
    } else if st.section == Some(Projects) {
      ProjectLineQuiet(line);
      QuietCounts(ProjectLine(line));
    } else if st.section == Some(Education) {
      EducationLineQuiet(line);
      QuietCounts(EducationLine(line));
    } else if IsBullet(line) {
    } else {
      StepOther(st, line);
      FlushCounts(st.buffer);
      QuietCounts([Para(Normal, Inline(line))]);
      CountsAppend(Flush(st.buffer), [Para(Normal, Inline(line))]);
      ListsAppend(Flush(st.buffer), [Para(Normal, Inline(line))]);
    }
  }

  // ----- the main loop -----

  /**
    From any state, the rules of the main loop are its headings, less one when no section
    has been opened yet: every heading but the very first is preceded by a rule.
   */
  lemma {:induction false} MainCounts(lines: seq<string>, i: nat, st: State)
    ensures var blocks := Main(lines, i, st);
            Rules(blocks) == (if st.firstSection && Headings(blocks) > 0 then Headings(blocks) - 1 else Headings(blocks))
    decreases |lines| - i
  {
    if i >= |lines| {
      FlushCounts(st.buffer);
    } else {
      var line := Strip(lines[i]);
      var next := Step(st, line);
      StepCounts(st, line);
      StepSection(st, line);
      MainCounts(lines, i + 1, next.0);
      CountsAppend(next.1, Main(lines, i + 1, next.0));
    }
  }

  /** The bullet lists of the main loop hold the pending bullets, then those `Gathered` finds. */
  lemma {:induction false} MainItems(lines: seq<string>, i: nat, st: State)
    ensures Items(Main(lines, i, st)) == st.buffer + Gathered(lines, i, st.section)
    decreases |lines| - i
  {
    if i >= |lines| {
      FlushCounts(st.buffer);
    } else {
      var line := Strip(lines[i]);
      var next := Step(st, line);
      StepItems(st, line);
      StepSection(st, line);
      MainItems(lines, i + 1, next.0);
      CountsAppend(next.1, Main(lines, i + 1, next.0));
      Regroup(Items(next.1), next.0.buffer, Gathered(lines, i + 1, next.0.section), st.buffer, LineItems(st.section, line));
    }
  }

  lemma Regroup(listed: seq<string>, pending: seq<string>, rest: seq<string>, before: seq<string>, own: seq<string>)
    requires listed + pending == before + own
    ensures listed + (pending + rest) == before + (own + rest)
  {
    calc {
      listed + (pending + rest);
      (listed + pending) + rest;
      (before + own) + rest;
    }
  }

  /** Every bullet list the main loop emits is non-empty. */
  lemma {:induction false} MainLists(lines: seq<string>, i: nat, st: State)
    ensures ListsNonEmpty(Main(lines, i, st))
    decreases |lines| - i
  {
    if i >= |lines| {
      FlushCounts(st.buffer);
    } else {
      var line := Strip(lines[i]);
      var next := Step(st, line);
      StepItems(st, line);
      MainLists(lines, i + 1, next.0);
      ListsAppend(next.1, Main(lines, i + 1, next.0));
    }
  }

  // ----- the header block -----

  /** The header loop stops within the first seven lines, at the first blank one. */
  lemma {:induction false} HeaderEndSpec(lines: seq<string>, i: nat)
    requires i <= 7 && i <= |lines|
    ensures HeaderEnd(lines, i) <= 7 && HeaderEnd(lines, i) <= |lines|
    ensures forall k :: i <= k < HeaderEnd(lines, i) ==> Strip(lines[k]) != []
    ensures HeaderEnd(lines, i) < |lines| && HeaderEnd(lines, i) < 7 ==> Strip(lines[HeaderEnd(lines, i)]) == []
    decreases |lines| - i
  {
    if !(i >= |lines| || Strip(lines[i]) == [] || i > 6) {
      HeaderEndSpec(lines, i + 1);
    }
  }

  /**
    The first line is the main title exactly when it is bold. Its text is then the content
    of the span up to the first closing marker, followed by the rest of the line with
    each further bold span reduced to its content; with no `*` inside, that is the line
    without its markers. The second line is always the job title; every other one is
    contact information.
   */
  lemma HeaderLineSpec(i: nat, line: string)
    ensures HeaderLine(i, line).Para?
    ensures HeaderLine(i, line).style == MainTitle <==> i == 0 && BoldLine(line)
    ensures HeaderLine(i, line).style == JobTitle <==> i == 1
    ensures HeaderLine(i, line).style == HeaderInfo <==> !(i == 0 && BoldLine(line)) && i != 1
    ensures i == 0 && BoldLine(line) ==>
              exists c: nat :: Closes(line, c) && (forall k: nat :: k < c ==> !Closes(line, k)) &&
                HeaderLine(i, line).text == line[2..c] + UnboldLazy(line[c + 2..])
    ensures i == 0 && BoldLine(line) && (forall j :: 2 <= j < |line| - 2 ==> line[j] != '*') ==>
              HeaderLine(i, line).text == line[2..|line| - 2]
  {
    if i == 0 && BoldLine(line) {
      UnboldLazyBoldLine(line);
      if forall j :: 2 <= j < |line| - 2 ==> line[j] != '*' {
        UnboldLazyLine(line);
      }
    }
  }

  lemma HeaderQuiet(lines: seq<string>, n: nat)
    requires n <= |lines|
    ensures Quiet(Header(lines, n))
  {
  }

  // ----- the whole document -----

  /** The header block ends, within seven lines, at the first blank line. */
  lemma CvHeaderLength(text: string)
    ensures var lines := SplitLines(text);
            var h := HeaderEnd(lines, 0);
            h <= 7 && h <= |lines| &&
            (forall k :: 0 <= k < h ==> Strip(lines[k]) != []) &&
            (h < |lines| && h < 7 ==> Strip(lines[h]) == [])
  {
    HeaderEndSpec(SplitLines(text), 0);
  }

  /** The document opens with one paragraph per header line, then exactly one header spacer. */
  lemma CvHeaderBlocks(text: string)
    ensures var lines := SplitLines(text);
            var h := HeaderEnd(lines, 0);
            var content := CvContent(text);
            h < |content| && content[h] == Spacer(20) &&
            forall k :: 0 <= k < h ==> content[k] == HeaderLine(k, Strip(lines[k]))
  {
    var lines := SplitLines(text);
    var h := HeaderEnd(lines, 0);
    var head := Header(lines, h);
    var content := head + [Spacer(20)] + Main(lines, h, Start);
    assert content == CvContent(text);
    assert content[h] == Spacer(20);
    forall k | 0 <= k < h ensures content[k] == HeaderLine(k, Strip(lines[k])) {
      assert content[k] == head[k];
    }
  }

  /** Empty text gives nothing but the header spacer. */
  lemma CvEmpty()
    ensures CvContent("") == [Spacer(20)]
  {
    assert SplitOn("", '\n') == [""];
    assert SplitLines("") == [];
  }

  /** Horizontal rules separate sections: one fewer than the section headings, or none. */
  lemma CvRules(text: string)
    ensures var content := CvContent(text);
            Rules(content) == (if Headings(content) > 0 then Headings(content) - 1 else 0)
  {
    var lines := SplitLines(text);
    var h := HeaderEnd(lines, 0);
    var head := Header(lines, h);
    HeaderQuiet(lines, h);
    QuietCounts(head);
    QuietCounts([Spacer(20)]);
    MainCounts(lines, h, Start);
    CountsAppend(head, [Spacer(20)]);
    CountsAppend(head + [Spacer(20)], Main(lines, h, Start));
  }

  /**
    The items of the document's bullet lists are exactly the bullet texts of the grouped
    sections, in order: none is lost, repeated or moved.
   */
  lemma CvItems(text: string)
    ensures var lines := SplitLines(text);
            Items(CvContent(text)) == Gathered(lines, HeaderEnd(lines, 0), None)
  {
    var lines := SplitLines(text);
    var h := HeaderEnd(lines, 0);
    var head := Header(lines, h);
    HeaderQuiet(lines, h);
    QuietCounts(head);
    QuietCounts([Spacer(20)]);
    MainItems(lines, h, Start);
    CountsAppend(head, [Spacer(20)]);
    CountsAppend(head + [Spacer(20)], Main(lines, h, Start));
  }

  /** The document never holds an empty bullet list. */
  lemma CvLists(text: string)
    ensures ListsNonEmpty(CvContent(text))
  {
    var lines := SplitLines(text);
    var h := HeaderEnd(lines, 0);
    var head := Header(lines, h);
    HeaderQuiet(lines, h);
    MainLists(lines, h, Start);
    ListsAppend(head, [Spacer(20)]);
    ListsAppend(head + [Spacer(20)], Main(lines, h, Start));
  }

  // ----- section names and line shapes -----

  lemma NamesRoundTrip(sec: Section)
    ensures SectionNamed(NameOf(sec)) == Some(sec)
  {
  }

  /** Only the seven names themselves are recognised. */
  lemma NamedOnlyByName(name: string)
    ensures SectionNamed(name).Some? ==> NameOf(SectionNamed(name).value) == name
  {
  }

  /** A section header is a bold line whose title, lower-cased, is one of the seven names. */
  lemma SectionHeaderSpec(line: string, sec: Section)
    ensures SectionHeader(line) == Some(sec) <==> BoldLine(line) && Lower(HeaderTitle(line)) == NameOf(sec)
  {
    NamesRoundTrip(sec);
    if BoldLine(line) {
      NamedOnlyByName(Lower(HeaderTitle(line)));
    }
  }

  /** A bullet line is neither a section header nor the start of a bold span. */
  lemma BulletNotHeader(line: string)
    requires IsBullet(line)
    ensures !BoldLine(line) && SectionHeader(line).None? && LazyBoldAt(line).None?
  {
    assert line[1] == ' ';
  }

  /**
    A blank line between two bullets of a grouped section does not end the list: both
    bullets wait in the same pending list, and only the blank line's spacer is emitted.
   */
  lemma BulletsMergeAcrossBlank(lines: seq<string>, i: nat, st: State)
    requires i + 2 < |lines| && Grouped(st.section)
    requires IsBullet(Strip(lines[i])) && Strip(lines[i + 1]) == [] && IsBullet(Strip(lines[i + 2]))
    ensures Main(lines, i, st) ==
            [Spacer(10)] + Main(lines, i + 3, st.(buffer := st.buffer + [BulletText(Strip(lines[i])), BulletText(Strip(lines[i + 2]))]))
  {
    var a := Strip(lines[i]);
    var c := Strip(lines[i + 2]);
    BulletNotHeader(a);
    BulletNotHeader(c);
    StepBullet(st, a);
    var st1 := st.(buffer := st.buffer + [BulletText(a)]);
    StepBlank(st1);
    StepBullet(st1, c);
    var st2 := st1.(buffer := st1.buffer + [BulletText(c)]);
    assert Main(lines, i, st) == Main(lines, i + 1, st1);
    assert Main(lines, i + 1, st1) == [Spacer(10)] + Main(lines, i + 2, st1);
    assert Main(lines, i + 2, st1) == Main(lines, i + 3, st2);
    assert st2.buffer == st.buffer + [BulletText(a), BulletText(c)];
  }

  /**
    A project line opening with a bold span: the span's text, stripped, is the project
    title (the span ends at the first closing marker), and the description after it, if
    not empty, follows as a normal paragraph.
   */
  lemma ProjectLineTitle(line: string, h: Hit)
    requires LazyBoldAt(line) == Some(h)
    ensures h.len <= |line| && line[..h.len] == "**" + h.group + "**"
    ensures forall k: nat :: k < h.len - 2 ==> !Closes(line, k)
    ensures var desc := Strip(ProjectDescription(line[h.len..]));
            ProjectLine(line) ==
            [Para(ProjectTitle, Strip(h.group))] + (if desc == [] then [] else [Para(Normal, Inline(desc))])
  {
    LazyBoldSpec(line);
    SpanShape(line, 0, h.len);
  }

  /** A project bullet is a dash-bullet paragraph of its own, starting with an en dash. */
  lemma ProjectLineBullet(line: string)
    requires IsBullet(line)
    ensures ProjectLine(line) == [Para(DashBullet, EnDashSpace + BulletText(line))]
  {
    BulletNotHeader(line);
  }

  /** An education line opening with a bold span: the degree, then the rest as a sub-line if not empty. */
  lemma EducationLineDegree(line: string, h: Hit)
    requires LazyBoldAt(line) == Some(h)
    ensures line[..h.len] == "**" + h.group + "**"
    ensures var rest := Strip(DegreeRest(line[h.len..]));
            EducationLine(line) ==
            [Para(ProjectTitle, Strip(h.group))] + (if rest == [] then [] else [Para(EduSub, Inline(rest))])
  {
    LazyBoldSpec(line);
    SpanShape(line, 0, h.len);
  }

  /** In the education section a bullet keeps its marker: the whole line is a sub-line. */
  lemma EducationLineBullet(line: string)
    requires IsBullet(line)
    ensures EducationLine(line) == [Para(EduSub, Inline(line))]
  {
    BulletNotHeader(line);
  }
}
