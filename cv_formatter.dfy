/**
  `format_cv_to_pdf` of utils/test/cv_pdf_formatter3.py, up to the list of flowables it
  hands to ReportLab: a header loop over the first lines, then a main loop that is a
  small state machine over the remaining lines (current section, whether a section has
  been seen, pending dash bullets).

  The loops see each line after `strip()`. The section pattern `^\s*\*\*(.+?)\*\*\s*$`
  and the title pattern `^\*\*.+\*\*$` are only ever tried on such a line, which has no
  whitespace at either end and no line break; there both accept exactly a `BoldLine`,
  and the section pattern's group is everything between the outer markers.
 */
module CvFormatter {
  import opened Wrappers
  import opened Text
  import opened Patterns
  import opened InlineMarkup

  /** The paragraph styles the formatter uses. */
  datatype Style = MainTitle | JobTitle | HeaderInfo | SectionHeading | Normal | DashBullet | ProjectTitle | EduSub

  /**
    One flowable of `content`: a paragraph, a dash-bullet list (the texts of its items),
    a spacer (its height in hundredths of an inch) or the horizontal rule `HR()`.
   */
  datatype Block = Para(style: Style, text: string) | BulletList(items: seq<string>) | Spacer(hundredths: nat) | Rule

  /** The seven names in `section_names`. */
  datatype Section = Summary | Skills | Experience | Education | Certifications | Projects | Awards

  /** The main loop's `current_section`, `first_section` and `buffer_bullets`. */
  datatype State = State(section: Option<Section>, firstSection: bool, buffer: seq<string>)

  /** The state before the first line of the main loop. */
  const Start: State := State(None, true, [])

  /** Bullets are pending only in the sections that gather them. */
  predicate Valid(st: State) {
    st.buffer != [] ==> Grouped(st.section)
  }

  /** The prefix of a project bullet paragraph: an en dash and a space. */
  const EnDashSpace: string := "\U{2013} "

  function NameOf(sec: Section): string {
    match sec
    case Summary => "summary"
    case Skills => "skills"
    case Experience => "experience"
    case Education => "education"
    case Certifications => "certifications"
    case Projects => "projects"
    case Awards => "awards"
  }

  /** Membership of a lower-cased title in `section_names`. */
  function SectionNamed(name: string): Option<Section> {
    if name == "summary" then Some(Summary)
    else if name == "skills" then Some(Skills)
    else if name == "experience" then Some(Experience)
    else if name == "education" then Some(Education)
    else if name == "certifications" then Some(Certifications)
    else if name == "projects" then Some(Projects)
    else if name == "awards" then Some(Awards)
    else None
  }

  /** The section a stripped line opens, if it is a recognised section header. */
  function SectionHeader(line: string): Option<Section> {
    if BoldLine(line) then SectionNamed(Lower(Strip(line[2..|line| - 2]))) else None
  }

  /** `section_title`: the header's group, stripped, in its own case. */
  function HeaderTitle(line: string): string
    requires BoldLine(line)
  {
    Strip(line[2..|line| - 2])
  }

  predicate IsBullet(line: string) {
    StartsWith(line, "* ") || StartsWith(line, "- ")
  }

  /** The text of a bullet line: the rest after the marker, stripped, then the inline passes. */
  function BulletText(line: string): string
    requires IsBullet(line)
  {
    Inline(Strip(line[2..]))
  }

  /** The sections whose bullets are gathered into one list, and the state before any section. */
  predicate Grouped(sec: Option<Section>) {
    sec != Some(Summary) && sec != Some(Projects) && sec != Some(Education)
  }

  /** `ListFlowable(buffer_bullets, ...)` when the buffer is not empty; nothing otherwise. */
  function Flush(buffer: seq<string>): seq<Block> {
    if buffer == [] then [] else [BulletList(buffer)]
  }

  /** `\s*:?\s*(.*)` after a project title: the description, up to the end of the line. */
  function ProjectDescription(rest: string): string {
    var a := Run(rest, IsSpace);
    var b := if a < |rest| && rest[a] == ':' then a + 1 else a;
    var c := b + Run(rest[b..], IsSpace);
    rest[c..LineEnd(rest, c)]
  }

  /** A line of the projects section (utils/test/cv_pdf_formatter3.py:228-243). */
  function ProjectLine(line: string): seq<Block> {
    match LazyBoldAt(line)
    case Some(h) =>
      var desc := Strip(ProjectDescription(line[h.len..]));
      [Para(ProjectTitle, Strip(h.group))] + (if desc == [] then [] else [Para(Normal, Inline(desc))])
    case None =>
      if IsBullet(line) then [Para(DashBullet, EnDashSpace + BulletText(line))]
      else [Para(Normal, Inline(line))]
  }

  /** `\s*(.+)?` after a degree: group 2, empty when nothing but whitespace follows. */
  function DegreeRest(after: string): string {
    var a := Run(after, IsSpace);
    after[a..LineEnd(after, a)]
  }

  /** A line of the education section (utils/test/cv_pdf_formatter3.py:245-256). */
  function EducationLine(line: string): seq<Block> {
    match LazyBoldAt(line)
    case Some(h) =>
      var rest := Strip(DegreeRest(line[h.len..]));
      [Para(ProjectTitle, Strip(h.group))] + (if rest == [] then [] else [Para(EduSub, Inline(rest))])
    case None => [Para(EduSub, Inline(line))]
  }

  /** The heading blocks of a section header; the separator comes before all but the first. */
  function HeaderBlocks(firstSection: bool, title: string): seq<Block> {
    Separator(firstSection) + [Para(SectionHeading, title), Spacer(8)]
  }

  /** The spacers and rule that close the previous section. */
  function Separator(firstSection: bool): seq<Block> {
    if firstSection then [] else [Spacer(23), Rule, Spacer(12)]
  }

  /**
    One pass of the main loop on a stripped line: the new state and the blocks it
    appends (utils/test/cv_pdf_formatter3.py:191-287).
   */
  function Step(st: State, line: string): (State, seq<Block>) {
    if line == [] then (st, [Spacer(10)])
    else match SectionHeader(line)
      case Some(sec) =>
        (State(Some(sec), false, []), Flush(st.buffer) + HeaderBlocks(st.firstSection, HeaderTitle(line)))
      case None =>
        if st.section == Some(Summary) then (st, [Para(Normal, Inline(line))])
        else if st.section == Some(Projects) then (st, ProjectLine(line))
        else if st.section == Some(Education) then (st, EducationLine(line))
        else if IsBullet(line) then (st.(buffer := st.buffer + [BulletText(line)]), [])
        else (st.(buffer := []), Flush(st.buffer) + [Para(Normal, Inline(line))])
  }

  /** The main loop over the remaining lines, then the final flush. */
  function Main(lines: seq<string>, i: nat, st: State): seq<Block>
    decreases |lines| - i
  {
    if i >= |lines| then Flush(st.buffer)
    else
      var next := Step(st, Strip(lines[i]));
      next.1 + Main(lines, i + 1, next.0)
  }

  /** The index at which the header loop stops, searching from `i`. */
  function HeaderEnd(lines: seq<string>, i: nat): (e: nat)
    ensures i <= e && (i <= |lines| ==> e <= |lines|)
    decreases |lines| - i
  {
    if i >= |lines| || Strip(lines[i]) == [] || i > 6 then i else HeaderEnd(lines, i + 1)
  }

  /** The paragraph the header loop makes of the stripped line `line` at index `i`. */
  function HeaderLine(i: nat, line: string): Block {
    if i == 0 && BoldLine(line) then Para(MainTitle, UnboldLazy(line))
    else if i == 1 then Para(JobTitle, ParseInlineBold(line))
    else Para(HeaderInfo, ParseHyperlinks(line))
  }

  /** The paragraphs of the first `n` lines. */
  function Header(lines: seq<string>, n: nat): seq<Block>
    requires n <= |lines|
  {
    seq(n, k requires 0 <= k < n => HeaderLine(k, Strip(lines[k])))
  }

  /** The whole `content` list for the lines of a CV. */
  function FormatLines(lines: seq<string>): seq<Block> {
    var h := HeaderEnd(lines, 0);
    Header(lines, h) + [Spacer(20)] + Main(lines, h, Start)
  }

  /** The `content` list `format_cv_to_pdf` builds from `text`. */
  function CvContent(text: string): seq<Block> {
    FormatLines(SplitLines(text))
  }

  /**
    `format_cv_to_pdf` up to `doc.build`: the header loop, the header spacer, then the
    main loop (`FormatSections`), building the list of flowables step by step.
   */
  method FormatCvToPdf(text: string) returns (content: seq<Block>)
    ensures content == CvContent(text)
  {
    var lines := SplitLines(text);
    var i;
    content, i := FormatHeader(lines);
    content := content + [Spacer(20)];
    content := FormatSections(lines, i, content);
  }

  /**
    The header loop of `format_cv_to_pdf`: a paragraph for each of the first lines, up to
    the first blank line and at most seven; `i` is where the main loop takes over.
   */
  method FormatHeader(lines: seq<string>) returns (content: seq<Block>, i: nat)
    ensures i == HeaderEnd(lines, 0) && i <= |lines|
    ensures content == Header(lines, i)
  {
    content := [];
    i := 0;
    HeaderEndFrom(lines, 0);
    while i < |lines|
      invariant i <= HeaderEnd(lines, 0) && HeaderEnd(lines, i) == HeaderEnd(lines, 0)
      invariant content == Header(lines, i)
    {
      var line := Strip(lines[i]);
      HeaderEndFrom(lines, i);
      if line == [] || i > 6 {
        break;
      }
      var b := HeaderParagraph(i, line);
      HeaderSnoc(lines, i);
      content := content + [b];
      i := i + 1;
    }
    HeaderEndFrom(lines, i);
  }

  /** The header paragraphs of one more line. */
  lemma HeaderSnoc(lines: seq<string>, i: nat)
    requires i < |lines|
    ensures Header(lines, i + 1) == Header(lines, i) + [HeaderLine(i, Strip(lines[i]))]
  {
    var a, b := Header(lines, i + 1), Header(lines, i);
    forall k | 0 <= k <= i ensures a[k] == (b + [HeaderLine(i, Strip(lines[i]))])[k] {
      if k < i {
        assert a[k] == b[k];
      }
    }
  }

  /** The body of the header loop for a non-blank stripped line at index `i`. */
  method HeaderParagraph(i: nat, line: string) returns (b: Block)
    requires line != []
    ensures b == HeaderLine(i, line)
  {
    if i == 0 && BoldLine(line) {
      var name := UnboldLazy(line);
      b := Para(MainTitle, name);
    } else if i == 1 && line != [] {
      b := Para(JobTitle, ParseInlineBold(line));
    } else {
      b := Para(HeaderInfo, ParseHyperlinks(line));
    }
  }

  /**
    The main loop of `format_cv_to_pdf`: from line `h` on, appends to `content0` the
    blocks of every line and, at the end, the pending bullet list.
   */
  method FormatSections(lines: seq<string>, h: nat, content0: seq<Block>) returns (content: seq<Block>)
    requires h <= |lines|
    ensures content == content0 + Main(lines, h, Start)
  {
    var i := h;
    content := content0;
    var section: Option<Section> := None;
    var buffer: seq<string> := [];
    var firstSection := true;
    ghost var goal := content0 + Main(lines, h, Start);
    while i < |lines|
      invariant h <= i <= |lines|
      invariant content + Main(lines, i, State(section, firstSection, buffer)) == goal
      invariant Valid(State(section, firstSection, buffer))
    {
      ghost var st := State(section, firstSection, buffer);
      ghost var before := content;
      section, firstSection, buffer, content := LineStep(Strip(lines[i]), section, firstSection, buffer, content);
      MainAdvance(lines, i, st, State(section, firstSection, buffer), before, content, goal);
      StepValid(st, Strip(lines[i]));
      i := i + 1;
    }
    if buffer != [] {
      content := content + [BulletList(buffer)];
    }
  }

  /**
    The body of the main loop for a stripped line: a blank line, a section header, or a
    line handled by the current section.
   */
  method LineStep(line: string, section0: Option<Section>, firstSection0: bool, buffer0: seq<string>,
                     content0: seq<Block>)
    returns (section: Option<Section>, firstSection: bool, buffer: seq<string>, content: seq<Block>)
    ensures Step(State(section0, firstSection0, buffer0), line).0 == State(section, firstSection, buffer)
    ensures content == content0 + Step(State(section0, firstSection0, buffer0), line).1
  {
    ghost var st := State(section0, firstSection0, buffer0);
    section, firstSection, buffer, content := section0, firstSection0, buffer0, content0;
    if line == [] {
      content := content + [Spacer(10)];
      StepBlank(st);
    } else if SectionHeader(line).Some? {
      ghost var added: seq<Block> := [];
      if buffer != [] {
        content := content + [BulletList(buffer)];
        added := [BulletList(buffer)];
        buffer := [];
      }
      assert content == content0 + added;
      if !firstSection {
        AppendAssoc(content0, added, [Spacer(23), Rule, Spacer(12)]);
        content := content + [Spacer(23), Rule, Spacer(12)];
        added := added + [Spacer(23), Rule, Spacer(12)];
      }
      firstSection := false;
      var title := HeaderTitle(line);
      AppendAssoc(content0, added, [Para(SectionHeading, title)]);
      content := content + [Para(SectionHeading, title)];
      added := added + [Para(SectionHeading, title)];
      section := SectionHeader(line);
      AppendAssoc(content0, added, [Spacer(8)]);
      content := content + [Spacer(8)];
      added := added + [Spacer(8)];
      HeadingShape(st.buffer, st.firstSection, title, added);
      StepHeading(st, line);
    } else if section == Some(Summary) {
      content := content + [Para(Normal, Inline(line))];
      StepPlain(st, line);
    } else if section == Some(Projects) {
      content := content + ProjectLine(line);
      StepProjects(st, line);
    } else if section == Some(Education) {
      content := content + EducationLine(line);
      StepEducation(st, line);
    } else if IsBullet(line) {
      buffer := buffer + [BulletText(line)];
      StepBullet(st, line);
    } else {
      ghost var out: seq<Block> := [];
      if buffer != [] {
        content := content + [BulletList(buffer)];
        out := [BulletList(buffer)];
        buffer := [];
      }
      AppendAssoc(content0, out, [Para(Normal, Inline(line))]);
      content := content + [Para(Normal, Inline(line))];
      StepOther(st, line);
    }
  }

  /** A step keeps pending bullets out of the summary, projects and education sections. */
  lemma StepValid(st: State, line: string)
    requires Valid(st)
    ensures Valid(Step(st, line).0)
  {
  }

  /** Taking one step of the main loop keeps the blocks still to come. */
  lemma MainAdvance(lines: seq<string>, i: nat, st: State, next: State,
                    before: seq<Block>, content: seq<Block>, goal: seq<Block>)
    requires i < |lines| && before + Main(lines, i, st) == goal
    requires Step(st, Strip(lines[i])).0 == next && content == before + Step(st, Strip(lines[i])).1
    ensures content + Main(lines, i + 1, next) == goal
  {
  }

  /** A blank line adds a small spacer and changes nothing else: the pending bullets stay pending. */
  lemma StepBlank(st: State)
    ensures Step(st, []) == (st, [Spacer(10)])
  {
  }

  /**
    A recognised section header flushes the pending bullets, adds the separator unless it
    is the first header, then the heading and its spacer; it opens the new section.
   */
  lemma StepHeading(st: State, line: string)
    requires line != [] && SectionHeader(line).Some?
    ensures Step(st, line) ==
            (State(SectionHeader(line), false, []), Flush(st.buffer) + HeaderBlocks(st.firstSection, HeaderTitle(line)))
  {
  }

  /** In the summary every other line is a normal paragraph; the state is kept. */
  lemma StepPlain(st: State, line: string)
    requires line != [] && SectionHeader(line).None? && st.section == Some(Summary)
    ensures Step(st, line) == (st, [Para(Normal, Inline(line))])
  {
  }

  /** In the projects section a line becomes the blocks of `ProjectLine`; the state is kept. */
  lemma StepProjects(st: State, line: string)
    requires line != [] && SectionHeader(line).None? && st.section == Some(Projects)
    ensures Step(st, line) == (st, ProjectLine(line))
  {
  }

  /** In the education section a line becomes the blocks of `EducationLine`; the state is kept. */
  lemma StepEducation(st: State, line: string)
    requires line != [] && SectionHeader(line).None? && st.section == Some(Education)
    ensures Step(st, line) == (st, EducationLine(line))
  {
  }

  /** In a grouped section a bullet line adds nothing yet: its text joins the pending bullets. */
  lemma StepBullet(st: State, line: string)
    requires line != [] && SectionHeader(line).None? && Grouped(st.section) && IsBullet(line)
    ensures Step(st, line) == (st.(buffer := st.buffer + [BulletText(line)]), [])
  {
  }

  /** In a grouped section any other line flushes the pending bullets, then is a normal paragraph. */
  lemma StepOther(st: State, line: string)
    requires line != [] && SectionHeader(line).None? && Grouped(st.section) && !IsBullet(line)
    ensures Step(st, line) == (st.(buffer := []), Flush(st.buffer) + [Para(Normal, Inline(line))])
  {
  }

  /** Appending in steps is appending once. */
  lemma AppendAssoc(a: seq<Block>, b: seq<Block>, c: seq<Block>)
    ensures a + b + c == a + (b + c)
  {
  }

  /** The blocks the heading branch appends one by one are those of `Step`. */
  lemma HeadingShape(buffer: seq<string>, first: bool, title: string, added: seq<Block>)
    requires added == Flush(buffer) + Separator(first) + [Para(SectionHeading, title)] + [Spacer(8)]
    ensures added == Flush(buffer) + HeaderBlocks(first, title)
  {
  }

  /** One step of `HeaderEnd`: it goes on past a non-blank line among the first seven, and stops otherwise. */
  lemma {:induction false} HeaderEndFrom(lines: seq<string>, i: nat)
    ensures i <= HeaderEnd(lines, i)
    ensures i < |lines| && Strip(lines[i]) != [] && i <= 6 ==> HeaderEnd(lines, i) == HeaderEnd(lines, i + 1)
    ensures i >= |lines| || Strip(lines[i]) == [] || i > 6 ==> HeaderEnd(lines, i) == i
    decreases |lines| - i
  {
    if !(i >= |lines| || Strip(lines[i]) == [] || i > 6) {
      HeaderEndFrom(lines, i + 1);
    }
  }
}
