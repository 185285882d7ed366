# CV formatting and job-match results, modelled in Dafny

This project models the text-processing core of a local command-line assistant. The assistant sends a CV and job descriptions to a language model, then turns what comes back into PDF documents and a ranked list of job matches. Three parts are modelled:

- **The CV formatter** (`format_cv_to_pdf` in `utils/test/cv_pdf_formatter3.py`). It turns a Markdown-like CV text into the list of flowables handed to ReportLab. There are two loops:
  - a header loop over the first lines (name, job title, contact lines);
  - a main loop that works as a state machine. Its state is the current section, whether a section has been seen, and the dash bullets still waiting to be gathered into one list.
  - It also covers the two inline passes, `parse_inline_bold` and `parse_hyperlinks`.
- **The simple formatter** (`format_cv_to_pdf` in `utils/test/cv_pdf_formatter3.1.py`). It maps each line to a heading, a bullet, a normal paragraph or a spacer.
- **The job-match result handling in `main.py`**:
  - `extract_score_and_missing_skills` reads a score and the missing skills out of the model's answer;
  - each answer is recorded with a score of 0 when none was found;
  - results are ordered by score, highest first, and the sort is stable;
  - each label has its spaces replaced by underscores for file names.

Every regular expression of the core is a hand-written matcher that runs at the start of a text (`Patterns`). Python's `re.search` and `re.sub` are generic functions over such a matcher: `Search` finds the leftmost match, and `Sub` replaces matches from left to right. For each matcher a lemma states what it accepts, in both directions: the lazy `(.+?)` and greedy `(.+)` bold spans, URLs, e-mail addresses (local part, `@`, domain, `.`, top-level part), the two score patterns (up to three digits, then `/100` or `%` with optional whitespace), and the four case-insensitive skills headings (two fixed phrases, and two phrases that run through the first colon). Further lemmas state that `Search` reports the leftmost match and how `Sub` proceeds.

Modules:

- `Wrappers`: `Option`.
- `Text`: `strip`, `strip(chars)`, `lower`, `splitlines`, `replace` and `startswith`.
- `Patterns`: the matchers, plus `Search` and `Sub`.
- `InlineMarkup`: the inline passes.
- `CvFormatter`: the flowable list as a specification function (`CvContent`), and the formatter as imperative methods proved equal to it.
- `CvProperties`: the document-level properties.
- `SimpleFormatter`: the simple formatter.
- `JobMatch`: the job-match result handling.

Two behaviours of the code worth knowing:

- `parse_inline_bold` and `parse_hyperlinks` use raw-string replacement templates with a doubled backslash, such as `r"<b>\\1</b>"`. `re.sub` reads `\\` as one literal backslash, so every bold span becomes the fixed text `<b>\1</b>` rather than the span's text in bold. Links likewise become fixed anchor text. The model uses these literal templates (`BoldTemplate`, `UrlTemplate`, `MailTemplate`).
- An empty CV text does not give an empty document. The header loop always appends its spacer, so the content is a single `Spacer(20)` (`CvProperties.CvEmpty`).

## Model

| member | source | states |
|---|---|---|
| Text.Strip | utils/test/cv_pdf_formatter3.py:176 | `strip()` leaves no whitespace at either end and never lengthens the line |
| Text.StripSpec | utils/test/cv_pdf_formatter3.py:192-193 | a stripped line is empty exactly when every character of it is whitespace, it holds no character the line did not, and it is a slice of the line with only whitespace before and after it |
| Text.StripSetSlice | main.py:98 | `strip(chars)` keeps a slice of the text and removes only characters of the set, from both ends |
| Text.StripSet | main.py:98 | `strip(chars)` leaves no character of the set at either end and never lengthens the text |
| Text.StripSetSpec | main.py:98 | the result is empty exactly when every character is in the set (the lines the comprehension drops); it holds only characters of the text |
| Text.DropLeftSpec | main.py:98 | the left strip removes a prefix made only of set characters |
| Text.DropRightSpec | main.py:98 | the right strip removes a suffix made only of set characters |
| Text.Run | main.py:87 | a run of matching characters never runs past the text |
| Text.RunSpec | main.py:87 | every character of the run matches, and the run cannot be extended |
| Text.RunFrom | main.py:87 | (proof helper) a run taken from an index covers only matching characters and stops at the end or at a non-matching one |
| Text.RunFromExact | main.py:87 | (proof helper) a stretch of matching characters that stops at the end or at a non-matching one is the run from its start |
| Text.RunEnd | utils/test/cv_pdf_formatter3.py:229 | a run taken from an index ends at the end of the text or before a non-matching character |
| Text.LineEnd | utils/test/cv_pdf_formatter3.py:229 | where `.` stops matching lies between the start index and the end of the text |
| Text.LineEndSpec | utils/test/cv_pdf_formatter3.py:229 | `.` runs over no line break and stops only at one or at the end |
| Text.IndexOf | utils/test/cv_pdf_formatter3.py:172 | the index found is in bounds and holds the separator, unless it is the end |
| Text.IndexOfSpec | utils/test/cv_pdf_formatter3.py:172 | no separator comes before the index found |
| Text.IndexOfExact | utils/test/cv_pdf_formatter3.py:172 | any index with no separator before it and the separator or the end at it is the one found |
| Text.Lower | utils/test/cv_pdf_formatter3.py:199 | lower-casing keeps the length |
| Text.SplitOn | utils/test/cv_pdf_formatter3.py:172 | a split always yields at least one piece |
| Text.SplitOnSpec | utils/test/cv_pdf_formatter3.py:172 | no piece holds the separator |
| Text.SplitOnJoin | utils/test/cv_pdf_formatter3.py:172 | joining the pieces with the separator restores the text |
| Text.SplitOnLastEmpty | utils/test/cv_pdf_formatter3.py:172 | the last piece is empty exactly when the text is empty or ends with the separator |
| Text.JoinDropEmptyLast | utils/test/cv_pdf_formatter3.py:172 | dropping an empty last piece removes exactly the separator before it from the joined text |
| Text.SplitLinesSpec | utils/test/cv_pdf_formatter3.py:172 | no line returned by `splitlines` holds a line break |
| Text.SplitLinesJoin | utils/test/cv_pdf_formatter3.py:172 | `splitlines` loses only a final line break: joining the lines and adding that break back gives the text |
| Text.ReplaceChar | main.py:338 | `replace` keeps the length and swaps exactly the target characters, index by index |
| Patterns.LazyClose | utils/test/cv_pdf_formatter3.py:23 | a closing marker found by the lazy group lies at or after the start and inside the text |
| Patterns.LazyCloseSpec | utils/test/cv_pdf_formatter3.py:23 | the lazy group stops at a closing marker, and no closing marker comes before it |
| Patterns.LazyBoldAt | utils/test/cv_pdf_formatter3.py:23 | a `\*\*(.+?)\*\*` match spans at least five characters, and its group is the text between the markers |
| Patterns.LazyBoldSpec | utils/test/cv_pdf_formatter3.py:23 | the lazy pattern matches exactly when an opening marker has a closing one on its line, and then it ends at the first such marker |
| Patterns.GreedyClose | utils/test/cv_pdf_formatter3.1.py:61-62 | a marker found by the greedy group lies within the bound |
| Patterns.GreedyCloseSpec | utils/test/cv_pdf_formatter3.1.py:61-62 | the greedy group stops at the last marker before the bound |
| Patterns.GreedyBoldAt | utils/test/cv_pdf_formatter3.1.py:61-62 | a `\*\*(.+)\*\*` match spans at least five characters, and its group is the text between the markers |
| Patterns.GreedyBoldSpec | utils/test/cv_pdf_formatter3.1.py:61-62 | the greedy pattern matches exactly when an opening marker has a closing one on its line, and then it ends at the last such marker |
| Patterns.UrlAt | utils/test/cv_pdf_formatter3.py:27 | a URL match is longer than its scheme and inside the text |
| Patterns.UrlSpec | utils/test/cv_pdf_formatter3.py:27 | a URL matches exactly at `http://` or `https://` followed by a URL character; the match is the longest run of URL characters |
| Patterns.EmailAt | utils/test/cv_pdf_formatter3.py:28 | an address match is non-empty and inside the text |
| Patterns.EmailLength | utils/test/cv_pdf_formatter3.py:28 | an address never runs past the text |
| Patterns.EmailDomain | utils/test/cv_pdf_formatter3.py:28 | the domain and top-level part, when they match, end past their start and inside the text |
| Patterns.EmailTld | utils/test/cv_pdf_formatter3.py:28 | the top-level part, when it matches, ends past its start and inside the text |
| Patterns.EmailTldSpec | utils/test/cv_pdf_formatter3.py:28 | the top-level part matches exactly a non-empty maximal run of its characters |
| Patterns.EmailTldSplit | utils/test/cv_pdf_formatter3.py:28 | (proof helper) a top-level match is a non-empty maximal run of its characters |
| Patterns.EmailDomainSplit | utils/test/cv_pdf_formatter3.py:28 | (proof helper) a domain match is a non-empty run of domain characters, then `.`, then the top-level part |
| Patterns.EmailDomainFrom | utils/test/cv_pdf_formatter3.py:28 | (proof helper) domain characters up to a `.` are matched by the domain part, and the match goes on with the top-level part |
| Patterns.EmailLocalSplit | utils/test/cv_pdf_formatter3.py:28 | (proof helper) an address match is a non-empty run of local characters, then `@`, then the domain part |
| Patterns.EmailPartsAt | utils/test/cv_pdf_formatter3.py:28 | (proof helper) the pieces found by the matcher form an address |
| Patterns.EmailStart | utils/test/cv_pdf_formatter3.py:28 | an address is a non-empty local part, then `@`; a match splits into local part, `@`, domain, `.` and a maximal top-level part |
| Patterns.EmailFromParts | utils/test/cv_pdf_formatter3.py:28 | local part, `@`, domain, `.` and a maximal top-level part are matched, with exactly that length |
| Patterns.EmailSpec | utils/test/cv_pdf_formatter3.py:28 | an address of length n matches exactly when the text splits into local part, `@`, domain, `.` and a maximal top-level part ending at n |
| Patterns.EmailEnd | utils/test/cv_pdf_formatter3.py:28 | an address ends where its top-level part can grow no further |
| Patterns.ScoreAt | main.py:87-93 | a score match's group is one to three characters at the start of the match |
| Patterns.ScoreDigits | main.py:87-93 | `(\d{1,3})` takes at most three characters, and never more than the text |
| Patterns.SlashEnd | main.py:87 | `\s*/\s*100`, when it matches, ends past its start and inside the text |
| Patterns.PercentEnd | main.py:91 | `\s*%`, when it matches, ends past its start and inside the text |
| Patterns.SlashEndSplit | main.py:87 | (proof helper) a `\s*/\s*100` match is whitespace, `/`, whitespace and `100` |
| Patterns.SlashEndFrom | main.py:87 | (proof helper) whitespace, `/`, whitespace and `100` are matched, through the `100` |
| Patterns.PercentEndSplit | main.py:91 | (proof helper) a `\s*%` match is whitespace and `%` |
| Patterns.PercentEndFrom | main.py:91 | (proof helper) whitespace and `%` are matched, through the `%` |
| Patterns.SlashScoreSpec | main.py:87 | `N/100` matches exactly when the digits are followed by whitespace, `/`, whitespace and `100`, and the match ends after `100` |
| Patterns.PercentScoreSpec | main.py:91 | `N%` matches exactly when the digits are followed by whitespace and `%`, and the match ends after `%` |
| Patterns.ScoreSpec | main.py:87-93 | the score group is the whole digit run, or its first three digits if longer; the pattern matches exactly when `/100` (or `%`), with optional whitespace, follows those digits, and the match ends there |
| Patterns.ThroughColon | main.py:95 | `.*?:` ends past its start and inside the text |
| Patterns.ThroughColonSpec | main.py:95 | `.*?:` ends just after the first colon, and fails only when no colon follows |
| Patterns.ThroughColonExact | main.py:95 | a stretch ending at the first colon is exactly what `.*?:` matches |
| Patterns.ReachTrigger | main.py:95 | the "To reach N/100 ...:" heading is longer than its fixed words |
| Patterns.ReachSplit | main.py:95 | (proof helper) a "To reach" match is the phrase, digits, `/100`, then text through the first colon |
| Patterns.ReachFromParts | main.py:95 | (proof helper) the phrase, digits, `/100` and text through a colon are matched up to that colon |
| Patterns.ReachSpec | main.py:95 | "To reach [\d]+/100.*?:" matches exactly the phrase in any case, digits, `/100` and the text through the first colon after it, and ends at that colon |
| Patterns.IncreaseTrigger | main.py:95 | the "To increase your score ...:" heading is longer than its fixed words |
| Patterns.IncreaseSpec | main.py:95 | "To increase your score.*?:" matches exactly the phrase in any case and the text through the first colon after it, and ends at that colon |
| Patterns.TriggerAt | main.py:95 | a heading match is at least as long as the shortest heading |
| Patterns.TriggerSpec | main.py:95 | a heading matches exactly when one of the four alternatives does: "Missing Skills" or "Areas for Improvement" (matching just the phrase), or the "To reach" or "To increase your score" forms (matching through the first colon); they are tried in that order |
| Patterns.FoldedFirst | main.py:95 | (proof helper) a text that starts with a phrase in any case starts with its first letter in either case |
| Patterns.Search | main.py:87 | `re.search` reports an index inside the text at which the pattern matches |
| Patterns.SearchSpec | main.py:87 | `re.search` reports the leftmost match, and reports none exactly when the pattern occurs nowhere |
| Patterns.SearchNoEarlier | main.py:95 | no match starts before the index `re.search` reports |
| Patterns.SearchFinds | main.py:95 | `re.search` fails exactly when the pattern occurs nowhere |
| Patterns.SearchLeftmost | main.py:87 | `re.search` reports an index exactly when the leftmost match starts there |
| Patterns.SubWithoutMatch | utils/test/cv_pdf_formatter3.py:23 | `re.sub` leaves a text in which the pattern never matches unchanged |
| Patterns.SubAtLeftmost | utils/test/cv_pdf_formatter3.py:23 | `re.sub` copies the text before the leftmost match, replaces that match and goes on after it |
| Patterns.SubLeftmostLast | utils/test/cv_pdf_formatter3.py:23 | when the leftmost match ends the text, the result is the text before it and the replacement |
| Patterns.SubHere | utils/test/cv_pdf_formatter3.py:23 | a leftmost match at the start is replaced first |
| Patterns.SkipFirst | utils/test/cv_pdf_formatter3.py:23 | a leftmost match after the first character is the tail's leftmost match |
| Patterns.SubPrepend | utils/test/cv_pdf_formatter3.py:23 | `re.sub` copies an unmatched first character in front of the tail's result |
| Patterns.SubSkip | utils/test/cv_pdf_formatter3.py:23 | an unmatched first character is copied unchanged |
| Patterns.SubAtSearch | utils/test/cv_pdf_formatter3.py:23 | the first replacement of `re.sub` happens where `re.search` reports the match |
| Patterns.SubLiteralAtSearch | utils/test/cv_pdf_formatter3.py:29 | with a literal template, the result is the text before the match found by `re.search`, the literal, then the rest replaced |
| Patterns.SubMatchStep | utils/test/cv_pdf_formatter3.py:23 | a match at the start is replaced, then the text after it is processed |
| Patterns.SubSkipStep | utils/test/cv_pdf_formatter3.py:23 | a character where nothing matches is copied, then the rest is processed |
| Patterns.SubWhole | utils/test/cv_pdf_formatter3.1.py:62 | a match covering the whole text leaves only the replacement |
| Patterns.SubLiteralChanges | utils/test/cv_pdf_formatter3.py:23 | a literal replacement that cannot start a match changes the text exactly when the pattern occurs |
| Patterns.SubGroupShorter | utils/test/cv_pdf_formatter3.1.py:69 | `re.sub` with template `\1` never lengthens a text, and shortens it whenever the pattern occurs |
| Patterns.SubGroupUnchanged | utils/test/cv_pdf_formatter3.1.py:69 | `re.sub` with `\1` leaves a text as it is exactly when the pattern does not occur |
| Patterns.LazyBoldConsumes | utils/test/cv_pdf_formatter3.py:23 | every lazy bold match consumes text, is longer than its group, and starts with `*` |
| Patterns.GreedyBoldConsumes | utils/test/cv_pdf_formatter3.1.py:62 | every greedy bold match consumes text and is longer than its group |
| Patterns.UrlConsumes | utils/test/cv_pdf_formatter3.py:29 | every URL match consumes text and starts with `h` |
| Patterns.EmailConsumes | utils/test/cv_pdf_formatter3.py:30 | every address match consumes text and cannot start with `<` |
| Patterns.TriggerConsumes | main.py:95 | every heading match consumes text |
| Patterns.ScoreConsumes | main.py:87-93 | every score match consumes text |
| InlineMarkup.UnboldLazy | utils/test/cv_pdf_formatter3.py:180 | removing markers never lengthens a text |
| InlineMarkup.UnboldGreedy | utils/test/cv_pdf_formatter3.1.py:62 | removing markers greedily never lengthens a text |
| InlineMarkup.InlineBoldChanges | utils/test/cv_pdf_formatter3.py:21-23 | `parse_inline_bold` changes a text exactly when it holds a `**…**` span on one line |
| InlineMarkup.InlineBoldAtLeftmost | utils/test/cv_pdf_formatter3.py:21-23 | the leftmost span is replaced by the literal `<b>\1</b>`, the text before it is kept, and the rest is processed the same way |
| InlineMarkup.BoldSpanShape | utils/test/cv_pdf_formatter3.py:23 | the replaced span is exactly `**`, the group, `**` |
| InlineMarkup.SpanShape | utils/test/cv_pdf_formatter3.py:23 | a slice opening and closing with markers is `**`, its inside, `**` |
| InlineMarkup.BoldOccurs | utils/test/cv_pdf_formatter3.py:23 | the lazy bold pattern occurs exactly where two markers enclose a non-empty one-line span |
| InlineMarkup.LinkUrlsChanges | utils/test/cv_pdf_formatter3.py:29 | the URL pass changes a text exactly when `http://` or `https://` followed by a URL character occurs in it |
| InlineMarkup.UrlOccurs | utils/test/cv_pdf_formatter3.py:27 | the URL pattern occurs exactly where a scheme is followed by a URL character |
| InlineMarkup.LinkUrlsAtLeftmost | utils/test/cv_pdf_formatter3.py:29 | the leftmost URL is replaced by the fixed anchor, the text before it is kept, and the rest is processed |
| InlineMarkup.UrlTokenAt | utils/test/cv_pdf_formatter3.py:27 | the replaced URL is a maximal run of URL characters after its scheme |
| InlineMarkup.LinkMailsChanges | utils/test/cv_pdf_formatter3.py:30 | the e-mail pass changes a text exactly when an address occurs, so never without an `@` |
| InlineMarkup.MailNeedsAt | utils/test/cv_pdf_formatter3.py:28 | an e-mail address holds an `@` |
| InlineMarkup.HyperlinksWithoutLinks | utils/test/cv_pdf_formatter3.py:26-31 | `parse_hyperlinks` leaves text with no URL and no `@` unchanged |
| InlineMarkup.UrlPassFirst | utils/test/cv_pdf_formatter3.py:26-31 | a text that is one URL becomes exactly the URL anchor: the e-mail pass, run second, does not touch it |
| InlineMarkup.MailPassKeepsLink | utils/test/cv_pdf_formatter3.py:29-30 | the e-mail pass leaves the URL anchor alone |
| InlineMarkup.UnboldLazyChanges | utils/test/cv_pdf_formatter3.py:180 | removing markers lazily changes a text exactly when it holds a bold span, and then shortens it |
| InlineMarkup.UnboldLazyBoldLine | utils/test/cv_pdf_formatter3.py:179-180 | on a whole-line `**X**` the non-greedy substitution replaces the span up to the first closing marker by its content, then processes the rest |
| InlineMarkup.UnboldLazyLine | utils/test/cv_pdf_formatter3.py:179-181 | a whole-line `**X**` with no `*` inside loses exactly its outer markers |
| InlineMarkup.UnboldGreedyLine | utils/test/cv_pdf_formatter3.1.py:61-62 | a whole-line `**X**` loses exactly its outer markers under the greedy substitution |
| InlineMarkup.LazyBoldFirst | utils/test/cv_pdf_formatter3.py:23 | `**X**` with plain `X` is matched up to its own closing marker, whatever follows |
| InlineMarkup.UnboldGreedyTwoSpans | utils/test/cv_pdf_formatter3.1.py:62 | on `**X**Y**Z**` the greedy substitution keeps the inner markers |
| InlineMarkup.UnboldLazyTwoSpans | utils/test/cv_pdf_formatter3.1.py:69 | on `**X**Y**Z**` the lazy substitution removes every pair of markers |
| InlineMarkup.UnboldLazyPlainPrefix | utils/test/cv_pdf_formatter3.1.py:69 | plain text before a span is copied, and the span loses its markers |
| InlineMarkup.NoSpanInPlain | utils/test/cv_pdf_formatter3.py:23 | no bold span starts inside plain text |
| CvFormatter.FormatCvToPdf | utils/test/cv_pdf_formatter3.py:172-290 | the method builds exactly the flowable list `CvContent` of the text: header paragraphs, header spacer, then the main loop's blocks |
| CvFormatter.FormatHeader | utils/test/cv_pdf_formatter3.py:175-187 | the header loop stops at `HeaderEnd` and has appended one `HeaderLine` paragraph per line before it |
| CvFormatter.HeaderParagraph | utils/test/cv_pdf_formatter3.py:179-186 | the paragraph built for a non-blank header line is `HeaderLine` |
| CvFormatter.HeaderSnoc | utils/test/cv_pdf_formatter3.py:181-187 | (proof helper) one more header line appends exactly its paragraph |
| CvFormatter.HeaderEnd | utils/test/cv_pdf_formatter3.py:175-178 | the header loop ends at or after its start, inside the lines |
| CvFormatter.HeaderEndFrom | utils/test/cv_pdf_formatter3.py:175-178 | the header loop goes on past a non-blank line among the first seven and stops otherwise |
| CvFormatter.FormatSections | utils/test/cv_pdf_formatter3.py:191-290 | the main loop appends exactly the blocks of `Main`, including the final flush of pending bullets |
| CvFormatter.LineStep | utils/test/cv_pdf_formatter3.py:192-287 | one pass of the loop body yields the state and the appended blocks of `Step` |
| CvFormatter.StepValid | utils/test/cv_pdf_formatter3.py:215-274 | a step keeps bullets from waiting while the summary, projects or education section is open; `FormatSections` keeps this as a loop invariant |
| CvFormatter.MainAdvance | utils/test/cv_pdf_formatter3.py:191-287 | (proof helper) after one step of the main loop, the blocks still to come are unchanged |
| CvFormatter.StepBlank | utils/test/cv_pdf_formatter3.py:193-196 | (proof helper) a blank line adds a small spacer and keeps the state, so pending bullets stay pending |
| CvFormatter.StepHeading | utils/test/cv_pdf_formatter3.py:198-213 | (proof helper) a recognised header flushes pending bullets, adds the separator except before the first section, then the heading and its spacer, and opens the section |
| CvFormatter.StepPlain | utils/test/cv_pdf_formatter3.py:271-274 | (proof helper) in the summary a line is a normal paragraph and the state is kept |
| CvFormatter.StepProjects | utils/test/cv_pdf_formatter3.py:228-243 | (proof helper) in the projects section a line gives the blocks of `ProjectLine` |
| CvFormatter.StepEducation | utils/test/cv_pdf_formatter3.py:245-256 | (proof helper) in the education section a line gives the blocks of `EducationLine` |
| CvFormatter.StepBullet | utils/test/cv_pdf_formatter3.py:215-219 | (proof helper) in a grouped section a bullet adds nothing yet; its text joins the pending bullets |
| CvFormatter.StepOther | utils/test/cv_pdf_formatter3.py:283-287 | (proof helper) in a grouped section another line flushes the pending bullets, then is a normal paragraph |
| CvFormatter.HeadingShape | utils/test/cv_pdf_formatter3.py:200-211 | (proof helper) the blocks a header appends one by one are the flush followed by the heading blocks |
| CvProperties.QuietCounts | utils/test/cv_pdf_formatter3.py:228-256 | blocks without headings, rules or lists add no heading, rule or bullet |
| CvProperties.ListsAppend | utils/test/cv_pdf_formatter3.py:201 | two block lists with only non-empty bullet lists concatenate to one |
| CvProperties.FlushCounts | utils/test/cv_pdf_formatter3.py:200-202 | a flush adds one list holding exactly the pending bullets, or nothing when none are pending |
| CvProperties.ProjectLineQuiet | utils/test/cv_pdf_formatter3.py:228-243 | a project line adds no heading, rule or list |
| CvProperties.EducationLineQuiet | utils/test/cv_pdf_formatter3.py:245-256 | an education line adds no heading, rule or list |
| CvProperties.QuietTitle | utils/test/cv_pdf_formatter3.py:233-235 | a title paragraph followed by at most one non-heading paragraph adds no heading, rule or list |
| CvProperties.HeaderBlocksCounts | utils/test/cv_pdf_formatter3.py:203-211 | a section header adds one heading, and a rule unless it opens the first section |
| CvProperties.StepSection | utils/test/cv_pdf_formatter3.py:198-213 | only a recognised header changes the current section, and it clears the first-section flag |
| CvProperties.StepCounts | utils/test/cv_pdf_formatter3.py:198-213 | a step adds a heading exactly at a header, and a rule at every header but the first |
| CvProperties.StepItems | utils/test/cv_pdf_formatter3.py:200-287 | no bullet is lost or repeated by a step: listed plus pending bullets after it are the pending ones before it plus the line's own bullet |
| CvProperties.MainCounts | utils/test/cv_pdf_formatter3.py:191-290 | the main loop's rules are its headings less one when no section was open yet |
| CvProperties.MainItems | utils/test/cv_pdf_formatter3.py:191-290 | the main loop's lists hold the pending bullets, then every grouped bullet text, in order |
| CvProperties.MainLists | utils/test/cv_pdf_formatter3.py:191-290 | the main loop never emits an empty bullet list |
| CvProperties.HeaderEndSpec | utils/test/cv_pdf_formatter3.py:175-178 | the header loop stops within the first seven lines, at the first blank line |
| CvProperties.HeaderLineSpec | utils/test/cv_pdf_formatter3.py:179-186 | the first line is the main title exactly when it is bold; its text is then the content of the span up to the first closing marker followed by the rest of the line with each further span reduced to its content, so a line with no `*` inside just loses its markers; the second line is the job title; every other line is contact information |
| CvProperties.HeaderQuiet | utils/test/cv_pdf_formatter3.py:175-187 | the header paragraphs add no heading, rule or list |
| CvProperties.CvHeaderLength | utils/test/cv_pdf_formatter3.py:175-178 | the header ends within seven lines, at the first blank line of the text |
| CvProperties.CvHeaderBlocks | utils/test/cv_pdf_formatter3.py:175-188 | the document opens with one paragraph per header line, then the header spacer |
| CvProperties.CvEmpty | utils/test/cv_pdf_formatter3.py:188 | an empty text gives only the header spacer |
| CvProperties.CvRules | utils/test/cv_pdf_formatter3.py:203-206 | horizontal rules separate sections: one fewer than the headings, or none |
| CvProperties.CvItems | utils/test/cv_pdf_formatter3.py:215-290 | the items of the document's bullet lists are exactly the grouped bullet texts, in order |
| CvProperties.CvLists | utils/test/cv_pdf_formatter3.py:200-290 | the document never holds an empty bullet list |
| CvProperties.NamesRoundTrip | utils/test/cv_pdf_formatter3.py:163-165 | each section's name is recognised as that section |
| CvProperties.NamedOnlyByName | utils/test/cv_pdf_formatter3.py:199 | only the seven names themselves are recognised |
| CvProperties.SectionHeaderSpec | utils/test/cv_pdf_formatter3.py:198-199 | a line opens a section exactly when it is bold and its stripped, lower-cased title is that section's name |
| CvProperties.BulletNotHeader | utils/test/cv_pdf_formatter3.py:216 | a bullet line is neither a section header nor the start of a bold span |
| CvProperties.BulletsMergeAcrossBlank | utils/test/cv_pdf_formatter3.py:193-219 | a blank line between two bullets does not end the list: both wait together and only a spacer is emitted |
| CvProperties.ProjectLineTitle | utils/test/cv_pdf_formatter3.py:229-235 | a project line opening with a bold span yields the span's stripped text as title, ending at the first closing marker, then the description if not empty |
| CvProperties.ProjectLineBullet | utils/test/cv_pdf_formatter3.py:236-239 | a project bullet is a dash-bullet paragraph starting with an en dash |
| CvProperties.EducationLineDegree | utils/test/cv_pdf_formatter3.py:246-252 | an education line opening with a bold span yields the degree, then the rest as a sub-line if not empty |
| CvProperties.EducationLineBullet | utils/test/cv_pdf_formatter3.py:253-254 | in the education section a bullet keeps its marker: the whole line is a sub-line |
| SimpleFormatter.FormatCvToPdf | utils/test/cv_pdf_formatter3.1.py:52-70 | the loop gives one flowable per line, in order, each that of the stripped line |
| SimpleFormatter.FormatLine | utils/test/cv_pdf_formatter3.1.py:55-70 | the loop body builds exactly the flowable of the line |
| SimpleFormatter.LineFlowableKinds | utils/test/cv_pdf_formatter3.1.py:56-70 | a line is a spacer exactly when blank, a heading exactly when a short bold line, a bullet exactly when it starts with a marker otherwise, and normal in every other case |
| SimpleFormatter.HeadingNotBullet | utils/test/cv_pdf_formatter3.1.py:61-64 | a bold line never starts with a bullet marker |
| SimpleFormatter.HeadingTitle | utils/test/cv_pdf_formatter3.1.py:61-63 | a heading's text is its line without the two outer markers |
| SimpleFormatter.BulletParagraph | utils/test/cv_pdf_formatter3.1.py:64-66 | a bullet paragraph is the bullet sign, then the text after the marker with its surrounding whitespace removed: a slice of it with only whitespace around it and none at its ends |
| SimpleFormatter.NormalParagraph | utils/test/cv_pdf_formatter3.1.py:67-70 | a normal line keeps its text exactly when it has no bold span, and is shortened otherwise |
| SimpleFormatter.TwoSpanLine | utils/test/cv_pdf_formatter3.1.py:61-70 | `**X**Y**Z**` as a heading keeps its inner markers; when too long for a heading, all markers go |
| SimpleFormatter.BlankLinesAreSpacers | utils/test/cv_pdf_formatter3.1.py:54-58 | a flowable is a spacer exactly when its line is all whitespace |
| JobMatch.DigitsBound | main.py:89 | a number written with n digits is below 10^n |
| JobMatch.ScoreBound | main.py:86-93 | an extracted score has at most three digits, so it is below 1000 |
| JobMatch.FirstScoreBound | main.py:87-93 | the leftmost match of a pattern with at most three digits gives a number below 1000 |
| JobMatch.ScoreFound | main.py:86-93 | there is a score exactly when either pattern occurs somewhere |
| JobMatch.SlashScoreWins | main.py:87-89 | the leftmost `N/100` gives the score, even when an `N%` occurs earlier |
| JobMatch.PercentScoreFallback | main.py:90-93 | without any `N/100`, the leftmost `N%` gives the score |
| JobMatch.BlockEnd | main.py:95 | the block ends between its start and the end of the text |
| JobMatch.BlockEndSpec | main.py:95 | `(.*?)(\n\n\|\Z)` stops at the first blank line at or after its start, or at the end |
| JobMatch.BlockAfterSpec | main.py:95-97 | the block is the text after the leftmost heading, up to the first blank line or the end, and holds no blank line |
| JobMatch.BlockFrom | main.py:95 | the block ends at a blank line or the end, and holds no blank line |
| JobMatch.BlockHasNoBlankLine | main.py:95 | the block holds no two line breaks in a row |
| JobMatch.SkillsBlockFound | main.py:95-96 | there is a block exactly when one of the four headings occurs; otherwise no skills are missing |
| JobMatch.TwoPassesOneFilter | main.py:98-99 | the two list comprehensions together are one filter over the lines |
| JobMatch.LongItemsAppend | main.py:99 | the length filter keeps order across concatenation |
| JobMatch.KeptItemsAppend | main.py:98-99 | the items of two runs of lines are those of each, in turn |
| JobMatch.KeptItemsSpec | main.py:98-99 | every kept item is a line stripped of `-*• \t` and longer than two characters |
| JobMatch.MissingSkillsSpec | main.py:94-99 | every missing skill is longer than two characters, has no trim character at either end and holds no line break |
| JobMatch.TriggerAtStart | main.py:95 | a text starting with "Missing Skills" matches that heading at once |
| JobMatch.BlockToEnd | main.py:95 | without a blank line the block runs to the end of the text |
| JobMatch.HeadingLineJoinsBlock | main.py:95-97 | the rest of the heading's own line belongs to the block |
| JobMatch.StripPadded | main.py:98 | stripping a block removes only its outer padding |
| JobMatch.FirstLine | main.py:98 | the first line of a block is the text up to its first line break |
| JobMatch.HeadingBlockItems | main.py:95-99 | the items under a "Missing Skills" heading come from the heading line's tail and the lines after it |
| JobMatch.HeadingRestIsFirstItem | main.py:95-99 | the tail of the heading line, stripped, is the first missing skill |
| JobMatch.KeptFirst | main.py:98-99 | a first line that survives the filter is the first item |
| JobMatch.RecordScore | main.py:295-300 | a recorded score is the extracted one, or 0 when there is none; it is below 1000, and the missing skills are recorded as extracted |
| JobMatch.InsertElements | main.py:303 | inserting keeps every entry and adds exactly the new one |
| JobMatch.InsertDescending | main.py:303 | inserting into a descending list keeps it descending |
| JobMatch.InsertWithScore | main.py:303 | an inserted entry goes before every entry with its score |
| JobMatch.SortByScoreOrders | main.py:303 | the sorted results are in descending score order and are a permutation of the results |
| JobMatch.SortByScoreDescending | main.py:303 | the sorted results never increase in score |
| JobMatch.SortByScorePermutes | main.py:303 | sorting keeps every entry, as many times as before |
| JobMatch.SortByScoreStable | main.py:303 | entries with equal scores keep their original order |
| JobMatch.SaveLabelSpec | main.py:338 | a save label has no spaces, the same length, is unchanged by a second pass, and equals the label when it had no spaces |

## Left out

- ReportLab. Paragraph styles, fonts, list styles, the `HR` drawing, page numbers and `doc.build` are not modelled. Flowables are a datatype: a paragraph is its style and text, a bullet list is its item texts, a spacer is its height in hundredths of an inch, and a rule is one constructor. The `ListItem` and `Paragraph` objects inside a list are their texts.
- Output and the file system: `os.makedirs`, the output file name and the final `print` are not modelled.
- Characters:
  - whitespace is the six ASCII whitespace characters;
  - `lower()`, `IGNORECASE` and `\d` are their ASCII parts, so Unicode case folding and non-ASCII digits are not modelled;
  - `splitlines` splits on `\n` only, so `\r\n`, `\r` and the other Unicode line boundaries are not separators in the model.
- The rest of `main.py` is not part of this model: menus, the `ascii_bar` graph, reading and writing files, the save-path choices with their `i+1` numbering, and `ask_gemini`. The model's answer text is a parameter of the modelled functions. `modules/job_matcher.py`, `modules/cv_enhancer.py` and `utils/test/gemini_api1.py` are not part of this model.
- JobMatch.SortByScore is an insertion sort that is proved equal in effect to Python's `sorted(..., reverse=True)`: descending, a permutation, and stable. Python's sort algorithm itself is not modelled.
- JobMatch.BlockAfter guards the slice with `start <= |text|`. A match never runs past the text, so the guard is always true for the matchers used. The `None` it would give otherwise is unreachable.
