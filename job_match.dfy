/**
  The result handling of the job-match flow in main.py: `extract_score_and_missing_skills`
  reads a score and a list of missing skills out of the model's answer, each answer is
  recorded with its score (0 when none was found), the records are ordered by score,
  highest first, and each label is made fit for a file name.
 */
module JobMatch {
  import opened Wrappers
  import opened Text
  import opened Patterns

  // ---------------------------------------------------------------- the score

  // `(\d{1,3})\s*/\s*100` at the start of a text.
  function SlashScoreAt(s: string): Option<Hit> {
    ScoreAt(s, true)
  }

  /** `(\d{1,3})\s*%` at the start of a text. */
  function PercentScoreAt(s: string): Option<Hit> {
    ScoreAt(s, false)
  }

  function DigitValue(c: char): nat {
    if IsDigit(c) then c as int - '0' as int else 0
  }

  /** `int(ds)` for a string of decimal digits. */
  function DigitsValue(ds: string): nat {
    if ds == [] then 0 else 10 * DigitsValue(ds[..|ds| - 1]) + DigitValue(ds[|ds| - 1])
  }

  function Pow10(n: nat): nat {
    if n == 0 then 1 else 10 * Pow10(n - 1)
  }

  /** The number of the leftmost match of `m` in `text`, if there is one. */
  function FirstScore(m: Matcher, text: string): Option<nat> {
    match Search(m, text)
    case Some(k) => Some(DigitsValue(m(text[k..]).value.group))
    case None => None
  }

  /** The score: the leftmost `N/100` if there is one, otherwise the leftmost `N%`. */
  function ExtractScore(text: string): Option<nat> {
    match FirstScore(SlashScoreAt, text)
    case Some(v) => Some(v)
    case None => FirstScore(PercentScoreAt, text)
  }

  // ---------------------------------------------------------------- the missing skills

  /** The characters `strip("-*• \t")` removes from each line of the block. */
  const SkillTrim: set<char> := {'-', '*', '\U{2022}', ' ', '\t'}

  /**
    Where `(.*?)(\n\n|\Z)` stops, searching from `from`: at the first blank line
    (two line breaks in a row), or at the end of the text.
   */
  function BlockEnd(s: string, from: nat): (e: nat)
    requires from <= |s|
    ensures from <= e <= |s|
    decreases |s| - from
  {
    if from == |s| then from
    else if from + 1 < |s| && s[from] == '\n' && s[from + 1] == '\n' then from
    else BlockEnd(s, from + 1)
  }

  /** `s[k..]` begins with two line breaks. */
  predicate BlankLineAt(s: string, k: int) {
    0 <= k && k + 1 < |s| && s[k] == '\n' && s[k + 1] == '\n'
  }

  /** Group 2 of the missing-skills search: the text after the leftmost heading, up to a blank line. */
  function SkillsBlock(text: string): Option<string> {
    BlockAfter(TriggerAt, text)
  }

  /**
    The text after the leftmost match of `m`, up to a blank line. A match never runs
    past the text it reads, so the guard only keeps the slice in bounds.
   */
  function BlockAfter(m: Matcher, text: string): Option<string> {
    match Search(m, text)
    case Some(k) =>
      var start := k + m(text[k..]).value.len;
      if start <= |text| then Some(text[start..BlockEnd(text, start)]) else None
    case None => None
  }

  /** `ms_lines`: each line stripped of `SkillTrim`, dropping those left empty. */
  function TrimmedLines(lines: seq<string>): seq<string> {
    if lines == [] then []
    else
      var t := StripSet(lines[0], SkillTrim);
      (if t == [] then [] else [t]) + TrimmedLines(lines[1..])
  }

  /** The list comprehension keeping the items longer than two characters. */
  function LongItems(items: seq<string>): seq<string> {
    if items == [] then []
    else (if |items[0]| > 2 then [items[0]] else []) + LongItems(items[1..])
  }

  /** `missing_skills`. */
  function MissingSkills(text: string): seq<string> {
    match SkillsBlock(text)
    case Some(block) => LongItems(TrimmedLines(SplitLines(Strip(block))))
    case None => []
  }

  /** `extract_score_and_missing_skills(text)`. */
  function ExtractScoreAndMissingSkills(text: string): (Option<nat>, seq<string>) {
    (ExtractScore(text), MissingSkills(text))
  }

  // ---------------------------------------------------------------- results

  /** One entry of `results`. */
  datatype MatchResult = MatchResult(jobLabel: string, result: string, score: nat, missingSkills: seq<string>)

  /** The entry recorded for an answer: a missing score counts as 0. */
  function Record(jobLabel: string, result: string): MatchResult {
    var (score, skills) := ExtractScoreAndMissingSkills(result);
    MatchResult(jobLabel, result, if score.Some? then score.value else 0, skills)
  }

  /** Puts `r` before the first entry whose score is not higher, so it precedes its equals. */
  function Insert(r: MatchResult, sorted: seq<MatchResult>): seq<MatchResult> {
    if sorted == [] || sorted[0].score <= r.score then [r] + sorted
    else [sorted[0]] + Insert(r, sorted[1..])
  }

  /** `sorted(results, key=lambda x: x["score"], reverse=True)`. */
  function SortByScore(results: seq<MatchResult>): seq<MatchResult> {
    if results == [] then [] else Insert(results[0], SortByScore(results[1..]))
  }

  /** `res['label'].replace(' ', '_')`. */
  function SaveLabel(jobLabel: string): string {
    ReplaceChar(jobLabel, ' ', '_')
  }

  // ---------------------------------------------------------------- lemmas: the score

  /** A number written with `n` digits is below `10^n`. */
  lemma {:induction false} DigitsBound(ds: string)
    ensures DigitsValue(ds) < Pow10(|ds|)
  {
    if ds != [] {
      DigitsBound(ds[..|ds| - 1]);
    }
  }

  /** A score has at most three digits, so it is below 1000. */
  lemma ScoreBound(text: string)
    ensures ExtractScore(text).Some? ==> ExtractScore(text).value < 1000
  {
    FirstScoreBound(SlashScoreAt, text);
    FirstScoreBound(PercentScoreAt, text);
  }

  lemma FirstScoreBound(m: Matcher, text: string)
    requires forall s :: m(s).Some? ==> |m(s).value.group| <= 3
    ensures FirstScore(m, text).Some? ==> FirstScore(m, text).value < 1000
  {
    if Search(m, text).Some? {
      var g := m(text[Search(m, text).value..]).value.group;
      DigitsBound(g);
      assert Pow10(|g|) <= 1000 by {
        assert Pow10(0) == 1 && Pow10(1) == 10 && Pow10(2) == 100 && Pow10(3) == 1000;
      }
    }
  }

  /** There is a score exactly when either pattern occurs somewhere. */
  lemma ScoreFound(text: string)
    ensures ExtractScore(text).None? <==> !Occurs(SlashScoreAt, text) && !Occurs(PercentScoreAt, text)
  {
    SearchSpec(SlashScoreAt, text);
    SearchSpec(PercentScoreAt, text);
  }

  /** The leftmost `N/100` gives the score, wherever a `N%` occurs. */
  lemma SlashScoreWins(text: string, k: nat, h: Hit)
    requires LeftmostAt(SlashScoreAt, text, k, h)
    ensures ExtractScore(text) == Some(DigitsValue(h.group))
  {
    SearchLeftmost(SlashScoreAt, text, k);
  }

  /** Without any `N/100`, the leftmost `N%` gives the score. */
  lemma PercentScoreFallback(text: string, k: nat, h: Hit)
    requires !Occurs(SlashScoreAt, text) && LeftmostAt(PercentScoreAt, text, k, h)
    ensures ExtractScore(text) == Some(DigitsValue(h.group))
  {
    SearchSpec(SlashScoreAt, text);
    SearchLeftmost(PercentScoreAt, text, k);
  }

  // ---------------------------------------------------------------- lemmas: the missing skills

  /** `BlockEnd` stops at the first blank line at or after `from`, or at the end. */
  lemma {:induction false} BlockEndSpec(s: string, from: nat)
    requires from <= |s|
    ensures forall k :: from <= k < BlockEnd(s, from) ==> !BlankLineAt(s, k)
    ensures BlockEnd(s, from) == |s| || BlankLineAt(s, BlockEnd(s, from))
    decreases |s| - from
  {
    if from < |s| && !BlankLineAt(s, from) {
      BlockEndSpec(s, from + 1);
    }
  }

  /** A text with no two line breaks in a row. */
  predicate NoBlankLine(b: string) {
    forall j :: 0 <= j < |b| - 1 ==> !(b[j] == '\n' && b[j + 1] == '\n')
  }

  /** There is a block exactly when one of the four headings occurs. */
  lemma SkillsBlockFound(text: string)
    ensures SkillsBlock(text).None? <==> !Occurs(TriggerAt, text)
    ensures !Occurs(TriggerAt, text) ==> MissingSkills(text) == []
  {
    SearchSpec(TriggerAt, text);
  }

  /**
    The block starts right after the leftmost match and runs to the first blank line
    after it, or to the end of the text; it holds no blank line itself. With the
    heading matcher `TriggerAt` this is `SkillsBlock`.
   */
  lemma BlockAfterSpec(m: Matcher, text: string, k: nat, h: Hit)
    requires LeftmostAt(m, text, k, h) && k + h.len <= |text|
    ensures var e := BlockEnd(text, k + h.len);
            BlockAfter(m, text) == Some(text[k + h.len..e]) &&
            (e == |text| || BlankLineAt(text, e)) &&
            NoBlankLine(text[k + h.len..e])
  {
    SearchLeftmost(m, text, k);
    BlockFrom(text, k + h.len);
  }

  /** The block from `start` ends at a blank line or at the end of the text, and holds no blank line. */
  lemma BlockFrom(s: string, start: nat)
    requires start <= |s|
    ensures var e := BlockEnd(s, start);
            (e == |s| || BlankLineAt(s, e)) && NoBlankLine(s[start..e])
  {
    BlockEndSpec(s, start);
    BlockHasNoBlankLine(s, start);
  }

  lemma BlockHasNoBlankLine(s: string, start: nat)
    requires start <= |s|
    ensures NoBlankLine(s[start..BlockEnd(s, start)])
  {
    var e := BlockEnd(s, start);
    BlockEndSpec(s, start);
    var b := s[start..e];
    forall j | 0 <= j < |b| - 1 ensures !(b[j] == '\n' && b[j + 1] == '\n') {
      assert !BlankLineAt(s, start + j);
      assert b[j] == s[start + j] && b[j + 1] == s[start + j + 1];
    }
  }

  /** The missing skills as one filter: each line stripped of `SkillTrim`, kept if longer than two. */
  function KeptItems(lines: seq<string>): seq<string> {
    if lines == [] then []
    else
      var t := StripSet(lines[0], SkillTrim);
      (if |t| > 2 then [t] else []) + KeptItems(lines[1..])
  }

  /** The two list comprehensions of the source together are the one filter `KeptItems`. */
  lemma {:induction false} TwoPassesOneFilter(lines: seq<string>)
    ensures LongItems(TrimmedLines(lines)) == KeptItems(lines)
  {
    if lines != [] {
      TwoPassesOneFilter(lines[1..]);
      LongItemsAppend(if StripSet(lines[0], SkillTrim) == [] then [] else [StripSet(lines[0], SkillTrim)],
                      TrimmedLines(lines[1..]));
    }
  }

  lemma {:induction false} LongItemsAppend(a: seq<string>, b: seq<string>)
    ensures LongItems(a + b) == LongItems(a) + LongItems(b)
  {
    if a == [] {
      assert a + b == b;
    } else {
      assert (a + b)[0] == a[0] && (a + b)[1..] == a[1..] + b;
      LongItemsAppend(a[1..], b);
    }
  }

  /** The filter keeps line order: the items of two runs of lines are those of each, in turn. */
  lemma {:induction false} KeptItemsAppend(a: seq<string>, b: seq<string>)
    ensures KeptItems(a + b) == KeptItems(a) + KeptItems(b)
  {
    if a == [] {
      assert a + b == b;
    } else {
      assert (a + b)[0] == a[0] && (a + b)[1..] == a[1..] + b;
      KeptItemsAppend(a[1..], b);
    }
  }

  /** Every kept item is a line stripped of `SkillTrim`, longer than two characters. */
  lemma {:induction false} KeptItemsSpec(lines: seq<string>)
    ensures forall i :: 0 <= i < |KeptItems(lines)| ==>
              |KeptItems(lines)[i]| > 2 && exists j :: 0 <= j < |lines| && KeptItems(lines)[i] == StripSet(lines[j], SkillTrim)
  {
    if lines != [] {
      KeptItemsSpec(lines[1..]);
      var t := StripSet(lines[0], SkillTrim);
      var head: seq<string> := if |t| > 2 then [t] else [];
      forall i | 0 <= i < |KeptItems(lines)|
        ensures |KeptItems(lines)[i]| > 2 && exists j :: 0 <= j < |lines| && KeptItems(lines)[i] == StripSet(lines[j], SkillTrim)
      {
        if i < |head| {
          assert KeptItems(lines)[i] == StripSet(lines[0], SkillTrim);
        } else {
          var x := KeptItems(lines[1..])[i - |head|];
          assert KeptItems(lines)[i] == x;
          var j :| 0 <= j < |lines[1..]| && x == StripSet(lines[1..][j], SkillTrim);
          assert x == StripSet(lines[j + 1], SkillTrim);
        }
      }
    }
  }

  /**
    Every missing skill is longer than two characters, has no `-`, `*`, `•`, space or
    tab at either end, and holds no line break.
   */
  lemma MissingSkillsSpec(text: string)
    ensures forall x :: x in MissingSkills(text) ==>
              |x| > 2 && x[0] !in SkillTrim && x[|x| - 1] !in SkillTrim && '\n' !in x
  {
    if SkillsBlock(text).Some? {
      var lines := SplitLines(Strip(SkillsBlock(text).value));
      TwoPassesOneFilter(lines);
      KeptItemsSpec(lines);
      SplitLinesSpec(Strip(SkillsBlock(text).value));
      forall x | x in MissingSkills(text)
        ensures |x| > 2 && x[0] !in SkillTrim && x[|x| - 1] !in SkillTrim && '\n' !in x
      {
        var i :| 0 <= i < |KeptItems(lines)| && KeptItems(lines)[i] == x;
        var j :| 0 <= j < |lines| && x == StripSet(lines[j], SkillTrim);
        StripSetSpec(lines[j], SkillTrim);
      }
    }
  }

  /** A text starting with the heading "Missing Skills" matches it at once. */
  lemma TriggerAtStart(rest: string)
    ensures LeftmostAt(TriggerAt, "Missing Skills" + rest, 0, Hit(14, "Missing Skills"))
  {
    var text := "Missing Skills" + rest;
    assert text[0..] == text;
    assert text[..14] == "Missing Skills";
    assert Lower("Missing Skills") == "missing skills";
  }

  /** Without a blank line after `from`, the block runs to the end of the text. */
  lemma BlockToEnd(s: string, from: nat)
    requires from <= |s| && NoBlankLine(s[from..])
    ensures BlockEnd(s, from) == |s|
  {
    BlockEndSpec(s, from);
  }

  /**
    The phrase "Missing Skills" is the whole heading match: whatever follows it on the
    heading line belongs to the block.
   */
  lemma HeadingLineJoinsBlock(rest: string)
    requires NoBlankLine(rest)
    ensures SkillsBlock("Missing Skills" + rest) == Some(rest)
  {
    var text := "Missing Skills" + rest;
    TriggerAtStart(rest);
    BlockAfterSpec(TriggerAt, text, 0, Hit(14, "Missing Skills"));
    assert text[14..] == rest;
    BlockToEnd(text, 14);
    assert text[14..|text|] == rest;
  }

  lemma StripPadded(tail: string, items: string)
    requires tail != [] && !IsSpace(tail[0])
    requires items != [] && !IsSpace(items[|items| - 1])
    ensures Strip(" " + tail + "\n" + items) == tail + "\n" + items
  {
    var x := tail + "\n" + items;
    var rest := " " + x;
    assert rest[1..] == x && x[0] == tail[0];
    assert DropLeft(x, Whitespace) == x;
    assert DropLeft(rest, Whitespace) == x;
    assert x[|x| - 1] == items[|items| - 1];
    assert DropRight(x, Whitespace) == x;
    assert StripSet(rest, Whitespace) == x;
    assert " " + tail + "\n" + items == rest;
  }

  lemma FirstLine(tail: string, items: string)
    requires '\n' !in tail
    ensures SplitLines(tail + "\n" + items)[0] == tail
  {
    var x := tail + "\n" + items;
    IndexOfExact(x, '\n', |tail|);
    assert x[..|tail|] == tail;
  }

  /**
    For a heading such as "Missing Skills to reach 90/100:", the rest of the heading line
    (" to reach 90/100:") becomes the first missing skill.
   */
  lemma HeadingRestIsFirstItem(tail: string, items: string)
    requires tail != [] && !IsSpace(tail[0]) && '\n' !in tail
    requires items != [] && !IsSpace(items[|items| - 1])
    requires NoBlankLine(" " + tail + "\n" + items)
    requires |StripSet(tail, SkillTrim)| > 2
    ensures var s := MissingSkills("Missing Skills" + (" " + tail + "\n" + items));
            s != [] && s[0] == StripSet(tail, SkillTrim)
  {
    HeadingBlockItems(tail, items);
    FirstLine(tail, items);
    KeptFirst(SplitLines(tail + "\n" + items));
  }

  /** The items under such a heading are those of the heading's tail line and the lines after it. */
  lemma HeadingBlockItems(tail: string, items: string)
    requires tail != [] && !IsSpace(tail[0])
    requires items != [] && !IsSpace(items[|items| - 1])
    requires NoBlankLine(" " + tail + "\n" + items)
    ensures MissingSkills("Missing Skills" + (" " + tail + "\n" + items)) == KeptItems(SplitLines(tail + "\n" + items))
  {
    HeadingLineJoinsBlock(" " + tail + "\n" + items);
    StripPadded(tail, items);
    TwoPassesOneFilter(SplitLines(tail + "\n" + items));
  }


  lemma KeptFirst(lines: seq<string>)
    requires lines != [] && |StripSet(lines[0], SkillTrim)| > 2
    ensures KeptItems(lines) != [] && KeptItems(lines)[0] == StripSet(lines[0], SkillTrim)
  {
  }


  // ---------------------------------------------------------------- lemmas: results

  /** A recorded score is the extracted one, or 0 when there is none; it is below 1000. */
  lemma RecordScore(jobLabel: string, result: string)
    ensures ExtractScore(result).None? ==> Record(jobLabel, result).score == 0
    ensures ExtractScore(result).Some? ==> Record(jobLabel, result).score == ExtractScore(result).value
    ensures Record(jobLabel, result).score < 1000
    ensures Record(jobLabel, result).missingSkills == MissingSkills(result)
  {
    ScoreBound(result);
  }

  /** Scores never increase along the sequence. */
  predicate Descending(rs: seq<MatchResult>) {
    forall i, j :: 0 <= i < j < |rs| ==> rs[i].score >= rs[j].score
  }

  /** The entries with score `v`, in order. */
  function WithScore(rs: seq<MatchResult>, v: nat): seq<MatchResult> {
    if rs == [] then [] else (if rs[0].score == v then [rs[0]] else []) + WithScore(rs[1..], v)
  }

  lemma {:induction false} InsertElements(r: MatchResult, s: seq<MatchResult>)
    ensures multiset(Insert(r, s)) == multiset(s) + multiset{r}
    ensures forall x :: x in Insert(r, s) <==> x == r || x in s
  {
    if s != [] && s[0].score > r.score {
      InsertElements(r, s[1..]);
      assert s == [s[0]] + s[1..];
    }
  }

  lemma {:induction false} InsertDescending(r: MatchResult, s: seq<MatchResult>)
    requires Descending(s)
    ensures Descending(Insert(r, s))
  {
    if s != [] && s[0].score > r.score {
      InsertDescending(r, s[1..]);
      InsertElements(r, s[1..]);
      var t := Insert(r, s[1..]);
      assert Insert(r, s) == [s[0]] + t;
      forall j | 0 <= j < |t| ensures s[0].score >= t[j].score {
        assert t[j] in t;
      }
    }
  }

  /** `r` goes in front of every entry with its score, so it stays first among its equals. */
  lemma {:induction false} InsertWithScore(r: MatchResult, s: seq<MatchResult>, v: nat)
    ensures WithScore(Insert(r, s), v) == (if r.score == v then [r] else []) + WithScore(s, v)
  {
    if s == [] || s[0].score <= r.score {
      assert ([r] + s)[0] == r && ([r] + s)[1..] == s;
    } else {
      var t := Insert(r, s[1..]);
      InsertWithScore(r, s[1..], v);
      assert ([s[0]] + t)[0] == s[0] && ([s[0]] + t)[1..] == t;
      if r.score == v {
        assert s[0].score != v;
        assert WithScore(Insert(r, s), v) == WithScore(t, v);
        assert WithScore(s, v) == WithScore(s[1..], v);
      } else {
        assert WithScore(t, v) == WithScore(s[1..], v);
      }
    }
  }


  /** The ordering of `results` puts the highest score first and keeps every entry. */
  lemma SortByScoreOrders(rs: seq<MatchResult>)
    ensures Descending(SortByScore(rs))
    ensures multiset(SortByScore(rs)) == multiset(rs)
    ensures |SortByScore(rs)| == |rs|
  {
    SortByScoreDescending(rs);
    SortByScorePermutes(rs);
  }

  lemma {:induction false} SortByScoreDescending(rs: seq<MatchResult>)
    ensures Descending(SortByScore(rs))
  {
    if rs != [] {
      SortByScoreDescending(rs[1..]);
      InsertDescending(rs[0], SortByScore(rs[1..]));
    }
  }

  lemma {:induction false} SortByScorePermutes(rs: seq<MatchResult>)
    ensures multiset(SortByScore(rs)) == multiset(rs)
    ensures |SortByScore(rs)| == |rs|
  {
    if rs != [] {
      SortByScorePermutes(rs[1..]);
      InsertElements(rs[0], SortByScore(rs[1..]));
      assert rs == [rs[0]] + rs[1..];
    }
    assert |SortByScore(rs)| == |multiset(SortByScore(rs))|;
  }


  /**
    The ordering is stable, also in reverse: the entries with any one score come in
    their original order.
   */
  lemma {:induction false} SortByScoreStable(rs: seq<MatchResult>, v: nat)
    ensures WithScore(SortByScore(rs), v) == WithScore(rs, v)
  {
    if rs != [] {
      SortByScoreStable(rs[1..], v);
      InsertWithScore(rs[0], SortByScore(rs[1..]), v);
    }
  }

  /** A save label has no spaces left, the same length, and is unchanged by a second pass. */
  lemma SaveLabelSpec(jobLabel: string)
    ensures ' ' !in SaveLabel(jobLabel)
    ensures |SaveLabel(jobLabel)| == |jobLabel|
    ensures SaveLabel(SaveLabel(jobLabel)) == SaveLabel(jobLabel)
    ensures ' ' !in jobLabel ==> SaveLabel(jobLabel) == jobLabel
  {
    var l := SaveLabel(jobLabel);
    assert forall k :: 0 <= k < |l| ==> l[k] != ' ';
    assert SaveLabel(l) == l;
    if ' ' !in jobLabel {
      assert forall k :: 0 <= k < |jobLabel| ==> jobLabel[k] != ' ';
    }
  }
}
