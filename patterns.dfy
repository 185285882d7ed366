/**
  The regular expressions of the core, each matched by a hand-written function that
  follows Python's `re` backtracking for that one pattern, and `re.search` / `re.sub`
  over them. A matcher says whether its pattern matches at the start of a text and,
  when it does, how long the match is and what group 1 holds. No pattern used with
  `re.search` or `re.sub` has a look-behind or a `^` in it, so trying a pattern at
  index `k` of a text is the same as trying it at the start of the suffix `s[k..]`.

  Each matcher function carries only the bounds on its result that `re.sub` needs; the
  lemma after it states what it matches.
 */
module Patterns {
  import opened Wrappers
  import opened Text

  /** A match at the start of a text: its length and the text of group 1. */
  datatype Hit = Hit(len: nat, group: string)

  /**
    The replacement of a `re.sub`: a fixed text, or group 1 (the template `\1`). The
    raw-string templates `r"<b>\\1</b>"` of the source are fixed texts: the escaped
    backslash stands for itself, so they put a backslash and a `1` in the output.
   */
  datatype Template = Literal(text: string) | Group

  function Expand(t: Template, group: string): string {
    match t
    case Literal(text) => text
    case Group => group
  }

  // ---------------------------------------------------------------- character classes

  /** `[^\s,]` */
  predicate IsUrlChar(c: char) { !IsSpace(c) && c != ',' }

  /** `[a-zA-Z0-9_.+-]` */
  predicate IsLocalChar(c: char) {
    IsAsciiLetter(c) || IsDigit(c) || c == '_' || c == '.' || c == '+' || c == '-'
  }

  /** `[a-zA-Z0-9-]` */
  predicate IsDomainChar(c: char) { IsAsciiLetter(c) || IsDigit(c) || c == '-' }

  /** `[a-zA-Z0-9-.]`: after the range `0-9` the `-` is a literal, as is the `.`. */
  predicate IsTldChar(c: char) { IsDomainChar(c) || c == '.' }

  // ---------------------------------------------------------------- bold markers

  /** `**` at index `k` of `s`. */
  predicate MarkerAt(s: string, k: int) {
    0 <= k && k + 2 <= |s| && s[k] == '*' && s[k + 1] == '*'
  }

  /** No line break in `s[a..b]`: `.` (without DOTALL) can match all of it. */
  predicate NoNewline(s: string, a: nat, b: nat) {
    forall j :: a <= j < b && j < |s| ==> s[j] != '\n'
  }

  /**
    For an opening `**` at index 0: a closing `**` at `k`, with a non-empty group
    `s[2..k]` that `.` can match.
   */
  predicate Closes(s: string, k: nat) {
    3 <= k && MarkerAt(s, k) && NoNewline(s, 2, k)
  }

  /**
    A whole line of the form `**X**` with a non-empty `X` on one line: what both
    `^\*\*.+\*\*$` and `^\*\*(.+)\*\*$` accept, and what `^\s*\*\*(.+?)\*\*\s*$` accepts,
    on a line with no surrounding whitespace.
   */
  predicate BoldLine(s: string) {
    5 <= |s| && MarkerAt(s, 0) && MarkerAt(s, |s| - 2) && NoNewline(s, 2, |s| - 2)
  }

  /** The lazy `(.+?)\*\*`: the first closing marker at or after `c`, if any. */
  function LazyClose(s: string, c: nat): (r: Option<nat>)
    ensures r.Some? ==> c <= r.value && r.value + 2 <= |s|
    decreases |s| - c
  {
    if MarkerAt(s, c) then Some(c)
    else if c < |s| && s[c] != '\n' then LazyClose(s, c + 1)
    else None
  }

  /** `LazyClose` finds a closing marker, and no closing marker comes before it. */
  lemma {:induction false} LazyCloseSpec(s: string, c: nat)
    requires 3 <= c && NoNewline(s, 2, c)
    ensures LazyClose(s, c).Some? ==> Closes(s, LazyClose(s, c).value)
    ensures forall k: nat :: c <= k && Closes(s, k) ==> LazyClose(s, c).Some? && LazyClose(s, c).value <= k
    decreases |s| - c
  {
    if !MarkerAt(s, c) && c < |s| && s[c] != '\n' {
      LazyCloseSpec(s, c + 1);
    }
  }

  /** `\*\*(.+?)\*\*` at the start of `s`. */
  function LazyBoldAt(s: string): (m: Option<Hit>)
    ensures m.Some? ==> 5 <= m.value.len <= |s| && m.value.group == s[2..m.value.len - 2]
  {
    if MarkerAt(s, 0) && 2 < |s| && s[2] != '\n' then
      match LazyClose(s, 3)
      case Some(c) => Some(Hit(c + 2, s[2..c]))
      case None => None
    else None
  }

  /**
    The non-greedy bold pattern matches exactly when a closing marker follows the
    opening one on the same line, and its group ends at the FIRST such marker.
   */
  lemma LazyBoldSpec(s: string)
    ensures LazyBoldAt(s).Some? ==>
              MarkerAt(s, 0) && Closes(s, LazyBoldAt(s).value.len - 2) &&
              forall k: nat :: k < LazyBoldAt(s).value.len - 2 ==> !Closes(s, k)
    ensures LazyBoldAt(s).None? ==> forall k: nat :: !(MarkerAt(s, 0) && Closes(s, k))
  {
    if MarkerAt(s, 0) && 2 < |s| && s[2] != '\n' {
      LazyCloseSpec(s, 3);
    }
  }

  /** The greedy `(.+)\*\*`: the last marker at or before `c`, if any. */
  function GreedyClose(s: string, c: int): (r: Option<nat>)
    ensures r.Some? ==> 3 <= r.value <= c && MarkerAt(s, r.value)
    decreases c
  {
    if c < 3 then None
    else if MarkerAt(s, c) then Some(c)
    else GreedyClose(s, c - 1)
  }

  lemma {:induction false} GreedyCloseSpec(s: string, c: int)
    ensures forall k: nat :: 3 <= k <= c && MarkerAt(s, k) ==> GreedyClose(s, c).Some? && k <= GreedyClose(s, c).value
    decreases c
  {
    if 3 <= c && !MarkerAt(s, c) {
      GreedyCloseSpec(s, c - 1);
    }
  }

  /** `\*\*(.+)\*\*` at the start of `s`. */
  function GreedyBoldAt(s: string): (m: Option<Hit>)
    ensures m.Some? ==> 5 <= m.value.len <= |s| && m.value.group == s[2..m.value.len - 2]
  {
    if MarkerAt(s, 0) then
      match GreedyClose(s, LineEnd(s, 2) - 2)
      case Some(c) => Some(Hit(c + 2, s[2..c]))
      case None => None
    else None
  }

  /**
    The greedy bold pattern matches exactly when the non-greedy one does, and its group
    ends at the LAST closing marker on the line.
   */
  lemma GreedyBoldSpec(s: string)
    ensures GreedyBoldAt(s).Some? ==>
              MarkerAt(s, 0) && Closes(s, GreedyBoldAt(s).value.len - 2) &&
              forall k: nat :: Closes(s, k) ==> k <= GreedyBoldAt(s).value.len - 2
    ensures GreedyBoldAt(s).None? ==> forall k: nat :: !(MarkerAt(s, 0) && Closes(s, k))
  {
    if MarkerAt(s, 0) {
      var e := LineEnd(s, 2);
      LineEndSpec(s, 2);
      GreedyCloseSpec(s, e - 2);
      forall k: nat | Closes(s, k) ensures k <= e - 2 {
      }
    }
  }

  // ---------------------------------------------------------------- links

  /** `https?://[^\s,]+` at the start of `s`; `s?` is greedy, so `https://` is tried first. */
  function UrlAt(s: string): (m: Option<Hit>)
    ensures m.Some? ==> 7 < m.value.len <= |s|
  {
    var scheme :=
      if StartsWith(s, "https://") && 8 < |s| && IsUrlChar(s[8]) then 8
      else if StartsWith(s, "http://") && 7 < |s| && IsUrlChar(s[7]) then 7
      else 0;
    if scheme == 0 then None
    else
      var n := scheme + Run(s[scheme..], IsUrlChar);
      Some(Hit(n, s[..n]))
  }

  /**
    A URL match starts with a scheme followed by a URL character, and is the longest
    run of URL characters after the scheme.
   */
  lemma UrlSpec(s: string)
    ensures UrlAt(s).Some? <==>
              (StartsWith(s, "https://") && 8 < |s| && IsUrlChar(s[8])) ||
              (StartsWith(s, "http://") && 7 < |s| && IsUrlChar(s[7]))
    ensures UrlAt(s).Some? ==> s[0] == 'h'
    ensures UrlAt(s).Some? ==> forall j :: 7 <= j < UrlAt(s).value.len ==> IsUrlChar(s[j])
    ensures UrlAt(s).Some? ==> UrlAt(s).value.len == |s| || !IsUrlChar(s[UrlAt(s).value.len])
  {
    var scheme :=
      if StartsWith(s, "https://") && 8 < |s| && IsUrlChar(s[8]) then 8
      else if StartsWith(s, "http://") && 7 < |s| && IsUrlChar(s[7]) then 7
      else 0;
    if scheme != 0 {
      assert s[0] == s[..scheme][0];
      var x := s[scheme..];
      RunSpec(x, IsUrlChar);
      var n := scheme + Run(x, IsUrlChar);
      forall j | 7 <= j < n ensures IsUrlChar(s[j]) {
        if j >= scheme {
          assert x[j - scheme] == s[j];
        }
      }
      if n < |s| {
        assert x[n - scheme] == s[n];
      }
    }
  }

  /**
    The e-mail pattern at the start of `s`. Each of its three classes is followed by a
    character outside that class (`@`, `.`) or by nothing, so greedy matching never
    backtracks: the local part, the domain and the top-level part are maximal runs.
   */
  function EmailAt(s: string): (m: Option<Hit>)
    ensures m.Some? ==> 0 < m.value.len <= |s|
  {
    var n := EmailLength(s);
    if n == 0 then None else Some(Hit(n, s[..n]))
  }

  /** The length of the e-mail match at the start of `s`, or 0 when there is none. */
  function EmailLength(s: string): (n: nat)
    ensures n <= |s|
  {
    var l := Run(s, IsLocalChar);
    if l == 0 || l == |s| || s[l] != '@' then 0 else EmailDomain(s, l + 1)
  }

  /** `[a-zA-Z0-9-]+\.` and the top-level part from `from`: where the match ends, or 0. */
  function EmailDomain(s: string, from: nat): (n: nat)
    requires from <= |s|
    ensures n == 0 || from < n <= |s|
  {
    var j := from + Run(s[from..], IsDomainChar);
    if j == from || j == |s| || s[j] != '.' then 0 else EmailTld(s, j + 1)
  }

  /** `[a-zA-Z0-9-.]+` from `from`: where the match ends, or 0. */
  function EmailTld(s: string, from: nat): (n: nat)
    requires from <= |s|
    ensures n == 0 || from < n <= |s|
  {
    var n := from + Run(s[from..], IsTldChar);
    if n == from then 0 else n
  }

  /** The top-level part ends at `n` exactly when it is a non-empty stretch that cannot grow. */
  lemma EmailTldSpec(s: string, from: nat, n: nat)
    requires from <= |s|
    ensures EmailTld(s, from) == n && n != 0 <==>
              from < n && Every(s, from, n, IsTldChar) && (n == |s| || !IsTldChar(s[n]))
  {
    RunFrom(s, from, IsTldChar);
    if from < n && Every(s, from, n, IsTldChar) && (n == |s| || !IsTldChar(s[n])) {
      RunFromExact(s, from, n, IsTldChar);
    }
  }

  /** A matched top-level part is a non-empty stretch of its characters that cannot grow. */
  lemma EmailTldSplit(s: string, from: nat, n: nat)
    requires from <= |s| && EmailTld(s, from) == n && n != 0
    ensures from < n && Every(s, from, n, IsTldChar) && (n == |s| || !IsTldChar(s[n]))
  {
    RunFrom(s, from, IsTldChar);
  }

  /** A matched domain is a run of domain characters up to `j`, then `.`, then the top-level part. */
  lemma EmailDomainSplit(s: string, from: nat, j: nat)
    requires from <= |s| && j == from + Run(s[from..], IsDomainChar) && EmailDomain(s, from) != 0
    ensures from < j < |s| && Every(s, from, j, IsDomainChar) && s[j] == '.'
    ensures EmailTld(s, j + 1) == EmailDomain(s, from)
  {
    RunFrom(s, from, IsDomainChar);
  }

  /** A matched local part is the run of local characters up to `l`, followed by `@`. */
  lemma EmailLocalSplit(s: string, l: nat)
    requires l == Run(s, IsLocalChar) && EmailLength(s) != 0
    ensures 0 < l < |s| && s[l] == '@' && Every(s, 0, l, IsLocalChar)
    ensures EmailDomain(s, l + 1) == EmailLength(s)
  {
    assert s[0..] == s;
    RunFrom(s, 0, IsLocalChar);
  }

  /** A domain up to a `.` at `j`, then a top-level part, is matched whole. */
  lemma EmailDomainFrom(s: string, from: nat, j: nat)
    requires from < j < |s| && Every(s, from, j, IsDomainChar) && s[j] == '.'
    ensures EmailDomain(s, from) == EmailTld(s, j + 1)
  {
    RunFromExact(s, from, j, IsDomainChar);
  }

  /**
    `s[..n]` is a local part `s[..i]`, the `@` at `i`, a domain `s[i + 1..j]`, the `.` at
    `j` and a top-level part `s[j + 1..n]` that cannot be extended.
   */
  predicate EmailParts(s: string, i: nat, j: nat, n: nat) {
    0 < i && i + 1 < j && j + 1 < n <= |s| &&
    Every(s, 0, i, IsLocalChar) && s[i] == '@' &&
    Every(s, i + 1, j, IsDomainChar) && s[j] == '.' &&
    Every(s, j + 1, n, IsTldChar) && (n == |s| || !IsTldChar(s[n]))
  }

  /**
    An e-mail match begins with a local-part character and holds the `@` that ends the
    local part; it is a local part, `@`, a domain, `.` and a maximal top-level part.
   */
  lemma EmailStart(s: string)
    ensures EmailLength(s) != 0 ==>
              var l := Run(s, IsLocalChar);
              IsLocalChar(s[0]) && 0 < l < EmailLength(s) && s[l] == '@'
    ensures EmailLength(s) != 0 ==> exists i, j :: EmailParts(s, i, j, EmailLength(s))
  {
    var n := EmailLength(s);
    if n != 0 {
      var l := Run(s, IsLocalChar);
      EmailLocalSplit(s, l);
      EmailPartsAt(s, l, l + 1 + Run(s[l + 1..], IsDomainChar), n);
    }
  }

  /** The parts of an e-mail match end at the runs the pattern takes. */
  lemma EmailPartsAt(s: string, l: nat, j: nat, n: nat)
    requires 0 < l < |s| && s[l] == '@' && Every(s, 0, l, IsLocalChar)
    requires EmailDomain(s, l + 1) == n && n != 0 && j == l + 1 + Run(s[l + 1..], IsDomainChar)
    ensures EmailParts(s, l, j, n)
  {
    EmailDomainSplit(s, l + 1, j);
    EmailTldSplit(s, j + 1, n);
  }

  /** Conversely, a local part, `@`, a domain, `.` and a maximal top-level part are matched whole. */
  lemma EmailFromParts(s: string, i: nat, j: nat, n: nat)
    requires EmailParts(s, i, j, n)
    ensures EmailLength(s) == n
  {
    assert s[0..] == s;
    RunFromExact(s, 0, i, IsLocalChar);
    EmailDomainFrom(s, i + 1, j);
    EmailTldSpec(s, j + 1, n);
  }

  /** The e-mail pattern matches exactly `n` characters when they split into its three parts. */
  lemma EmailSpec(s: string, n: nat)
    ensures EmailLength(s) == n && n != 0 <==> exists i, j :: EmailParts(s, i, j, n)
  {
    EmailStart(s);
    if exists i, j :: EmailParts(s, i, j, n) {
      var i, j :| EmailParts(s, i, j, n);
      EmailFromParts(s, i, j, n);
    }
  }

  /** An e-mail match ends where the top-level part can grow no further. */
  lemma EmailEnd(s: string)
    ensures EmailLength(s) != 0 ==> EmailLength(s) == |s| || !IsTldChar(s[EmailLength(s)])
  {
    EmailStart(s);
  }

  // ---------------------------------------------------------------- match score

  // `(\d{1,3})\s*/\s*100` (when `slash`) or `(\d{1,3})\s*%` at the start of `s`. The
  // digit group takes up to three digits; giving one back never helps, because the
  // character after it would be a digit, so the group is `ScoreDigits(s)` digits.
  function ScoreAt(s: string, slash: bool): (m: Option<Hit>)
    ensures m.Some? ==> 1 <= |m.value.group| <= 3 && |m.value.group| < m.value.len <= |s|
    ensures m.Some? ==> m.value.group == s[..|m.value.group|]
  {
    var k := ScoreDigits(s);
    var e := if slash then SlashEnd(s, k) else PercentEnd(s, k);
    if k == 0 || e == 0 then None else Some(Hit(e, s[..k]))
  }

  /** How many digits `(\d{1,3})` takes: the digit run, but at most three. */
  function ScoreDigits(s: string): (k: nat)
    ensures k <= 3 && k <= |s|
  {
    var run := Run(s, IsDigit);
    if run < 3 then run else 3
  }

  // `\s*/\s*100` from `k`: where it ends, or 0 when it does not match.
  function SlashEnd(s: string, k: nat): (n: nat)
    requires k <= |s|
    ensures n == 0 || k < n <= |s|
  {
    var j := k + Run(s[k..], IsSpace);
    if j == |s| || s[j] != '/' then 0
    else
      var j2 := j + 1 + Run(s[j + 1..], IsSpace);
      if StartsWith(s[j2..], "100") then j2 + 3 else 0
  }

  /** `\s*%` from `k`: where it ends, or 0 when it does not match. */
  function PercentEnd(s: string, k: nat): (n: nat)
    requires k <= |s|
    ensures n == 0 || k < n <= |s|
  {
    var j := k + Run(s[k..], IsSpace);
    if j == |s| || s[j] != '%' then 0 else j + 1
  }

  /** From `k`: whitespace, the `/` at `j`, whitespace, then `100` at `j2`. */
  predicate SlashTail(s: string, k: nat, j: nat, j2: nat) {
    j2 + 3 <= |s| && Every(s, k, j, IsSpace) && Every(s, j + 1, j2, IsSpace) && s[j] == '/' &&
    s[j2..j2 + 3] == "100"
  }

  /** From `k`: whitespace, then the `%` at `j`. */
  predicate PercentTail(s: string, k: nat, j: nat) {
    j < |s| && Every(s, k, j, IsSpace) && s[j] == '%'
  }

  // A match of `\s*/\s*100` is whitespace, `/`, whitespace and `100`.
  lemma SlashEndSplit(s: string, k: nat, j: nat, n: nat)
    requires k <= |s| && j == k + Run(s[k..], IsSpace) && SlashEnd(s, k) == n && n != 0
    ensures SlashTail(s, k, j, n - 3)
  {
    RunFrom(s, k, IsSpace);
    RunFrom(s, j + 1, IsSpace);
    assert s[n - 3..][..3] == s[n - 3..n];
  }

  // Whitespace, `/`, whitespace and `100` from `k` are matched by `\s*/\s*100`.
  lemma SlashEndFrom(s: string, k: nat, j: nat, j2: nat)
    requires SlashTail(s, k, j, j2)
    ensures SlashEnd(s, k) == j2 + 3
  {
    RunFromExact(s, k, j, IsSpace);
    RunFromExact(s, j + 1, j2, IsSpace);
    SlashEndAt(s, k, j, j2);
  }

  lemma SlashEndAt(s: string, k: nat, j: nat, j2: nat)
    requires k <= j < |s| && j == k + Run(s[k..], IsSpace) && s[j] == '/'
    requires j2 == j + 1 + Run(s[j + 1..], IsSpace) && j2 + 3 <= |s| && s[j2..j2 + 3] == "100"
    ensures SlashEnd(s, k) == j2 + 3
  {
    assert s[j2..][..3] == s[j2..j2 + 3];
  }

  /** A match of `\s*%` is whitespace, then `%`. */
  lemma PercentEndSplit(s: string, k: nat, n: nat)
    requires k <= |s| && PercentEnd(s, k) == n && n != 0
    ensures PercentTail(s, k, n - 1)
  {
    RunFrom(s, k, IsSpace);
  }

  /** Whitespace, then `%`, from `k` are matched by `\s*%`. */
  lemma PercentEndFrom(s: string, k: nat, j: nat)
    requires PercentTail(s, k, j)
    ensures PercentEnd(s, k) == j + 1
  {
    RunFromExact(s, k, j, IsSpace);
  }

  /** `N/100` at the start of a text: the digits, whitespace, `/`, whitespace, `100`, and nothing more. */
  lemma SlashScoreSpec(s: string)
    ensures ScoreAt(s, true).Some? ==>
              0 < ScoreDigits(s) && exists j: nat, j2: nat :: SlashTail(s, ScoreDigits(s), j, j2) && ScoreAt(s, true).value.len == j2 + 3
    ensures forall j: nat, j2: nat :: 0 < ScoreDigits(s) && SlashTail(s, ScoreDigits(s), j, j2) ==>
              ScoreAt(s, true) == Some(Hit(j2 + 3, s[..ScoreDigits(s)]))
  {
    var k := ScoreDigits(s);
    if ScoreAt(s, true).Some? {
      var n := SlashEnd(s, k);
      var j := k + Run(s[k..], IsSpace);
      SlashEndSplit(s, k, j, n);
    }
    forall j: nat, j2: nat | 0 < k && SlashTail(s, k, j, j2) ensures ScoreAt(s, true) == Some(Hit(j2 + 3, s[..k])) {
      SlashEndFrom(s, k, j, j2);
    }
  }

  /** `N%` at the start of a text: the digits, whitespace, `%`, and nothing more. */
  lemma PercentScoreSpec(s: string)
    ensures ScoreAt(s, false).Some? ==>
              0 < ScoreDigits(s) && exists j: nat :: PercentTail(s, ScoreDigits(s), j) && ScoreAt(s, false).value.len == j + 1
    ensures forall j: nat :: 0 < ScoreDigits(s) && PercentTail(s, ScoreDigits(s), j) ==>
              ScoreAt(s, false) == Some(Hit(j + 1, s[..ScoreDigits(s)]))
  {
    var k := ScoreDigits(s);
    if ScoreAt(s, false).Some? {
      PercentEndSplit(s, k, PercentEnd(s, k));
    }
    forall j: nat | 0 < k && PercentTail(s, k, j) ensures ScoreAt(s, false) == Some(Hit(j + 1, s[..k])) {
      PercentEndFrom(s, k, j);
    }
  }

  /**
    The score group is the first three digits of the digit run, or all of it if shorter;
    the pattern matches exactly when whitespace, a slash, whitespace and `100` (or whitespace and `%`) follows those digits, and
    the match ends with it.
   */
  lemma ScoreSpec(s: string, slash: bool)
    ensures ScoreAt(s, slash).Some? ==>
              var g := ScoreAt(s, slash).value.group;
              |g| == ScoreDigits(s) && forall k :: 0 <= k < |g| ==> IsDigit(g[k])
    ensures slash && ScoreAt(s, slash).Some? ==>
              exists j: nat, j2: nat :: SlashTail(s, ScoreDigits(s), j, j2) && ScoreAt(s, slash).value.len == j2 + 3
    ensures slash ==> forall j: nat, j2: nat :: 0 < ScoreDigits(s) && SlashTail(s, ScoreDigits(s), j, j2) ==>
              ScoreAt(s, slash) == Some(Hit(j2 + 3, s[..ScoreDigits(s)]))
    ensures !slash && ScoreAt(s, slash).Some? ==>
              exists j: nat :: PercentTail(s, ScoreDigits(s), j) && ScoreAt(s, slash).value.len == j + 1
    ensures !slash ==> forall j: nat :: 0 < ScoreDigits(s) && PercentTail(s, ScoreDigits(s), j) ==>
              ScoreAt(s, slash) == Some(Hit(j + 1, s[..ScoreDigits(s)]))
  {
    RunSpec(s, IsDigit);
    if slash {
      SlashScoreSpec(s);
    } else {
      PercentScoreSpec(s);
    }
  }

  // ---------------------------------------------------------------- missing-skills heading

  /** Does `s` begin with the lower-case `word`, ignoring ASCII case (IGNORECASE)? */
  predicate StartsWithFolded(s: string, word: string) {
    |word| <= |s| && Lower(s[..|word|]) == word
  }

  /** `.*?:` under DOTALL from index `from`: the match ends just after the first colon. */
  function ThroughColon(s: string, from: nat): (m: Option<Hit>)
    requires from <= |s|
    ensures m.Some? ==> from < m.value.len <= |s|
  {
    var c := from + IndexOf(s[from..], ':');
    if c < |s| then Some(Hit(c + 1, s[..c + 1])) else None
  }

  /** From `from`, the text up to index `n` holds exactly one colon, its last character. */
  predicate ColonEnd(s: string, from: nat, n: nat) {
    from < n <= |s| && s[n - 1] == ':' && forall k :: from <= k < n - 1 ==> s[k] != ':'
  }

  /** `ThroughColon` stops at the first colon, and fails only when there is none. */
  lemma ThroughColonSpec(s: string, from: nat)
    requires from <= |s|
    ensures ThroughColon(s, from).Some? ==>
              var n := ThroughColon(s, from).value.len;
              ColonEnd(s, from, n) && ThroughColon(s, from).value.group == s[..n]
    ensures ThroughColon(s, from).None? ==> forall k :: from <= k < |s| ==> s[k] != ':'
  {
    var x := s[from..];
    IndexOfSpec(x, ':');
    forall k | from <= k < from + IndexOf(x, ':') ensures s[k] != ':' {
      assert x[k - from] == s[k];
    }
    if from + IndexOf(x, ':') < |s| {
      assert x[IndexOf(x, ':')] == s[from + IndexOf(x, ':')];
    }
  }

  /** Whatever ends at the first colon after `from` is what `ThroughColon` matches. */
  lemma ThroughColonExact(s: string, from: nat, n: nat)
    requires ColonEnd(s, from, n)
    ensures ThroughColon(s, from) == Some(Hit(n, s[..n]))
  {
    ThroughColonSpec(s, from);
  }

  /** `To reach [\d]+/100.*?:` (IGNORECASE | DOTALL). */
  function ReachTrigger(s: string): (m: Option<Hit>)
    ensures m.Some? ==> 9 < m.value.len <= |s|
  {
    if !StartsWithFolded(s, "to reach ") then None
    else
      var d := Run(s[9..], IsDigit);
      if d == 0 || !StartsWith(s[9 + d..], "/100") then None
      else ThroughColon(s, 9 + d + 4)
  }

  /**
    The parts of a `To reach` heading: the phrase in any case, digits up to `d`, `/100`,
    then everything up to and including the first colon, which ends at `n`.
   */
  predicate ReachParts(s: string, d: nat, n: nat) {
    StartsWithFolded(s, "to reach ") && 9 < d && d + 4 <= |s| && Every(s, 9, d, IsDigit) &&
    s[d..d + 4] == "/100" && ColonEnd(s, d + 4, n)
  }

  /** A `To reach` match has those parts and ends at the colon. */
  lemma ReachSplit(s: string)
    requires ReachTrigger(s).Some?
    ensures var n := ReachTrigger(s).value.len;
            ReachParts(s, 9 + Run(s[9..], IsDigit), n) && ReachTrigger(s).value.group == s[..n]
  {
    var d := 9 + Run(s[9..], IsDigit);
    RunFrom(s, 9, IsDigit);
    assert s[d..][..4] == s[d..d + 4];
    ThroughColonSpec(s, d + 4);
  }

  /** Those parts are matched by the `To reach` alternative, through the colon. */
  lemma ReachFromParts(s: string, d: nat, n: nat)
    requires ReachParts(s, d, n)
    ensures ReachTrigger(s) == Some(Hit(n, s[..n]))
  {
    assert s[d] == s[d..d + 4][0];
    RunFromExact(s, 9, d, IsDigit);
    assert s[d..][..4] == s[d..d + 4];
    ThroughColonExact(s, d + 4, n);
  }

  /** The `To reach` alternative matches exactly its parts, and ends at the first colon after `/100`. */
  lemma ReachSpec(s: string)
    ensures ReachTrigger(s).Some? ==>
              exists d: nat, n: nat :: ReachParts(s, d, n) && ReachTrigger(s) == Some(Hit(n, s[..n]))
    ensures forall d: nat, n: nat :: ReachParts(s, d, n) ==> ReachTrigger(s) == Some(Hit(n, s[..n]))
  {
    if ReachTrigger(s).Some? {
      ReachSplit(s);
    }
    forall d: nat, n: nat | ReachParts(s, d, n) ensures ReachTrigger(s) == Some(Hit(n, s[..n])) {
      ReachFromParts(s, d, n);
    }
  }

  /** `To increase your score.*?:` (IGNORECASE | DOTALL). */
  function IncreaseTrigger(s: string): (m: Option<Hit>)
    ensures m.Some? ==> 22 < m.value.len <= |s|
  {
    if !StartsWithFolded(s, "to increase your score") then None
    else ThroughColon(s, 22)
  }

  /** The parts of a `To increase your score` heading: the phrase in any case, then up to the first colon. */
  predicate IncreaseParts(s: string, n: nat) {
    StartsWithFolded(s, "to increase your score") && ColonEnd(s, 22, n)
  }

  /** The `To increase your score` alternative matches exactly its parts, and ends at the first colon. */
  lemma IncreaseSpec(s: string)
    ensures IncreaseTrigger(s).Some? ==>
              var n := IncreaseTrigger(s).value.len;
              IncreaseParts(s, n) && IncreaseTrigger(s) == Some(Hit(n, s[..n]))
    ensures forall n: nat :: IncreaseParts(s, n) ==> IncreaseTrigger(s) == Some(Hit(n, s[..n]))
  {
    if IncreaseTrigger(s).Some? {
      ThroughColonSpec(s, 22);
    }
    forall n: nat | IncreaseParts(s, n) ensures IncreaseTrigger(s) == Some(Hit(n, s[..n])) {
      ThroughColonExact(s, 22, n);
    }
  }

  /** The four alternatives of the heading group, tried in order. */
  function TriggerAt(s: string): (m: Option<Hit>)
    ensures m.Some? ==> 14 <= m.value.len <= |s|
  {
    if StartsWithFolded(s, "missing skills") then Some(Hit(14, s[..14]))
    else if StartsWithFolded(s, "areas for improvement") then Some(Hit(21, s[..21]))
    else match ReachTrigger(s)
      case Some(h) => Some(h)
      case None => IncreaseTrigger(s)
  }

  /**
    A heading matches exactly when one of the four alternatives does; they are tried in
    order, the two fixed phrases match just themselves, and the other two run through
    the first colon.
   */
  lemma TriggerSpec(s: string)
    ensures TriggerAt(s).Some? <==>
              StartsWithFolded(s, "missing skills") || StartsWithFolded(s, "areas for improvement") ||
              (exists d: nat, n: nat :: ReachParts(s, d, n)) || (exists n: nat :: IncreaseParts(s, n))
    ensures StartsWithFolded(s, "missing skills") ==> TriggerAt(s) == Some(Hit(14, s[..14]))
    ensures !StartsWithFolded(s, "missing skills") && StartsWithFolded(s, "areas for improvement") ==>
              TriggerAt(s) == Some(Hit(21, s[..21]))
    ensures forall d: nat, n: nat :: ReachParts(s, d, n) ==> TriggerAt(s) == Some(Hit(n, s[..n]))
    ensures (forall d: nat, n: nat :: !ReachParts(s, d, n)) ==>
              forall n: nat :: IncreaseParts(s, n) ==> TriggerAt(s) == Some(Hit(n, s[..n]))
  {
    ReachSpec(s);
    IncreaseSpec(s);
    if StartsWithFolded(s, "to reach ") {
      FoldedFirst(s, "to reach ");
      FoldedFirst(s, "missing skills");
      FoldedFirst(s, "areas for improvement");
    }
    if StartsWithFolded(s, "to increase your score") {
      FoldedFirst(s, "to increase your score");
      FoldedFirst(s, "missing skills");
      FoldedFirst(s, "areas for improvement");
    }
  }

  /** A text that begins with a phrase, ignoring case, begins with its first letter in either case. */
  lemma FoldedFirst(s: string, word: string)
    requires word != []
    ensures StartsWithFolded(s, word) ==> LowerChar(s[0]) == word[0]
  {
    if StartsWithFolded(s, word) {
      assert Lower(s[..|word|])[0] == LowerChar(s[0]);
    }
  }

  // ---------------------------------------------------------------- search and sub

  /**
    A pattern tried at the start of a text. Every matcher above consumes at least one
    character, so `re.sub` and `re.search` below never meet an empty match.
   */
  type Matcher = string -> Option<Hit>

  ghost predicate Consumes(m: Matcher) {
    forall s :: m(s).Some? ==> 0 < m(s).value.len <= |s|
  }

  /** The matcher matches somewhere in `s`. */
  ghost predicate Occurs(m: Matcher, s: string) {
    exists k :: 0 <= k < |s| && m(s[k..]).Some?
  }

  /** `re.search`: the leftmost index at which the pattern matches. */
  function Search(m: Matcher, s: string): (r: Option<nat>)
    ensures r.Some? ==> r.value < |s| && m(s[r.value..]).Some?
    decreases |s|
  {
    if s == [] then None
    else if m(s).Some? then
      assert s[0..] == s;
      Some(0)
    else
      match Search(m, s[1..])
      case Some(k) =>
        assert s[1..][k..] == s[k + 1..];
        Some(k + 1)
      case None => None
  }

  /** `Search` finds the leftmost match, and finds none only when there is none. */
  lemma SearchSpec(m: Matcher, s: string)
    ensures Search(m, s).Some? ==> forall k :: 0 <= k < Search(m, s).value ==> m(s[k..]).None?
    ensures Search(m, s).None? <==> !Occurs(m, s)
  {
    SearchNoEarlier(m, s);
    SearchFinds(m, s);
  }

  lemma {:induction false} SearchNoEarlier(m: Matcher, s: string)
    ensures Search(m, s).Some? ==> forall k :: 0 <= k < Search(m, s).value ==> m(s[k..]).None?
    decreases |s|
  {
    if s != [] && m(s).None? && Search(m, s).Some? {
      SearchNoEarlier(m, s[1..]);
      forall k | 0 <= k < Search(m, s).value ensures m(s[k..]).None? {
        if k == 0 {
          assert s[0..] == s;
        } else {
          assert s[1..][k - 1..] == s[k..];
        }
      }
    }
  }

  lemma {:induction false} SearchFinds(m: Matcher, s: string)
    ensures Search(m, s).None? <==> !Occurs(m, s)
    decreases |s|
  {
    if s != [] {
      assert s[0..] == s;
      if m(s).None? {
        SearchFinds(m, s[1..]);
        if Occurs(m, s) {
          var k :| 0 <= k < |s| && m(s[k..]).Some?;
          assert s[1..][k - 1..] == s[k..];
          assert Occurs(m, s[1..]);
        }
        if Occurs(m, s[1..]) {
          var k :| 0 <= k < |s[1..]| && m(s[1..][k..]).Some?;
          assert s[1..][k..] == s[k + 1..];
        }
      }
    }
  }

  /**
    `re.sub`: from left to right, each match is replaced by the template and the scan
    resumes after it; a character where nothing matches is copied.
   */
  function Sub(m: Matcher, t: Template, s: string): string
    requires Consumes(m)
    decreases |s|
  {
    if s == [] then []
    else match m(s)
      case Some(h) => Expand(t, h.group) + Sub(m, t, s[h.len..])
      case None => [s[0]] + Sub(m, t, s[1..])
  }

  /** A text in which the pattern never matches comes back from `re.sub` unchanged. */
  lemma {:induction false} SubWithoutMatch(m: Matcher, t: Template, s: string)
    requires Consumes(m) && !Occurs(m, s)
    ensures Sub(m, t, s) == s
    decreases |s|
  {
    if s != [] {
      assert s[0..] == s;
      assert !Occurs(m, s[1..]) by {
        forall k | 0 <= k < |s[1..]| ensures m(s[1..][k..]).None? {
          assert s[1..][k..] == s[k + 1..];
        }
      }
      SubWithoutMatch(m, t, s[1..]);
    }
  }

  /** The leftmost match in `s` starts at `k` and is `h`. */
  ghost predicate LeftmostAt(m: Matcher, s: string, k: nat, h: Hit) {
    k < |s| && m(s[k..]) == Some(h) && forall j :: 0 <= j < k ==> m(s[j..]).None?
  }

  /** When the leftmost match runs to the end, `re.sub` gives the text before it and the replacement. */
  lemma SubLeftmostLast(m: Matcher, t: Template, s: string, k: nat, h: Hit)
    requires Consumes(m) && LeftmostAt(m, s, k, h) && k + h.len == |s|
    ensures Sub(m, t, s) == s[..k] + Expand(t, h.group)
  {
    SubAtLeftmost(m, t, s, k, h);
    assert s[k + h.len..] == [];
  }

  /** `re.sub` copies the text before the leftmost match and replaces that match. */
  lemma {:induction false} SubAtLeftmost(m: Matcher, t: Template, s: string, k: nat, h: Hit)
    requires Consumes(m) && LeftmostAt(m, s, k, h)
    ensures k + h.len <= |s|
    ensures Sub(m, t, s) == s[..k] + Expand(t, h.group) + Sub(m, t, s[k + h.len..])
    decreases k
  {
    if k == 0 {
      SubHere(m, t, s, h);
    } else {
      SkipFirst(m, s, k, h);
      SubAtLeftmost(m, t, s[1..], k - 1, h);
      SubPrepend(m, t, s, k, Expand(t, h.group), Sub(m, t, s[k + h.len..]));
    }
  }

  lemma SubHere(m: Matcher, t: Template, s: string, h: Hit)
    requires Consumes(m) && LeftmostAt(m, s, 0, h)
    ensures h.len <= |s|
    ensures Sub(m, t, s) == s[..0] + Expand(t, h.group) + Sub(m, t, s[0 + h.len..])
  {
    assert s[0..] == s;
    var e, r := Expand(t, h.group), Sub(m, t, s[h.len..]);
    assert s[..0] + e + r == e + r;
  }

  /** A leftmost match past the first character is the tail's leftmost match. */
  lemma SkipFirst(m: Matcher, s: string, k: nat, h: Hit)
    requires Consumes(m) && 0 < k && LeftmostAt(m, s, k, h)
    ensures m(s).None? && LeftmostAt(m, s[1..], k - 1, h)
    ensures k + h.len <= |s| && s[1..][k - 1 + h.len..] == s[k + h.len..]
  {
    assert s[0..] == s;
    assert s[1..][k - 1..] == s[k..];
    forall j | 0 <= j < k - 1 ensures m(s[1..][j..]).None? {
      assert s[1..][j..] == s[j + 1..];
    }
  }

  /** `re.sub` copies an unmatched first character and goes on with the tail. */
  lemma SubPrepend(m: Matcher, t: Template, s: string, k: nat, e: string, r: string)
    requires Consumes(m) && 0 < k <= |s| && m(s).None?
    requires Sub(m, t, s[1..]) == s[1..][..k - 1] + e + r
    ensures Sub(m, t, s) == s[..k] + e + r
  {
    SubSkip(m, t, s);
    ConsSlice(s, k);
    ConsAppend(s[0], s[1..][..k - 1], e, r);
  }

  lemma ConsSlice(s: string, k: nat)
    requires 0 < k <= |s|
    ensures [s[0]] + s[1..][..k - 1] == s[..k]
  {
  }

  lemma ConsAppend(c: char, p: string, e: string, r: string)
    ensures [c] + (p + e + r) == ([c] + p) + e + r
  {
  }

  lemma SubSkip(m: Matcher, t: Template, s: string)
    requires Consumes(m) && s != [] && m(s).None?
    ensures Sub(m, t, s) == [s[0]] + Sub(m, t, s[1..])
  {
  }

  /** What `re.search` reports is where `re.sub` makes its first replacement. */
  lemma SubAtSearch(m: Matcher, t: Template, s: string, k: nat, h: Hit)
    requires Consumes(m) && Search(m, s) == Some(k) && k <= |s| && m(s[k..]) == Some(h)
    ensures k + h.len <= |s|
    ensures Sub(m, t, s) == s[..k] + Expand(t, h.group) + Sub(m, t, s[k + h.len..])
  {
    SearchLeftmost(m, s, k);
    SubAtLeftmost(m, t, s, k, h);
  }

  /** `re.search` reports index `k` exactly when the leftmost match starts there. */
  lemma SearchLeftmost(m: Matcher, s: string, k: nat)
    ensures Search(m, s) == Some(k) <==> k < |s| && m(s[k..]).Some? && LeftmostAt(m, s, k, m(s[k..]).value)
  {
    SearchSpec(m, s);
    if k < |s| && m(s[k..]).Some? && LeftmostAt(m, s, k, m(s[k..]).value) {
      assert Occurs(m, s);
      var k' := Search(m, s).value;
      assert m(s[k'..]).Some? && m(s[k..]).Some?;
      assert k <= k' <= k;
    }
  }

  /**
    `SubAtSearch` for a fixed replacement text, with the results of `re.sub` named:
    `r` for the whole text, `rest` for the text after the first match `h`.
   */
  lemma SubLiteralAtSearch(m: Matcher, text: string, s: string, k: nat, h: Hit, r: string, rest: string)
    requires Consumes(m) && Search(m, s) == Some(k) && k <= |s| && m(s[k..]) == Some(h)
    requires k + h.len <= |s| && r == Sub(m, Literal(text), s) && rest == Sub(m, Literal(text), s[k + h.len..])
    ensures r == s[..k] + text + rest
  {
    SubAtSearch(m, Literal(text), s, k, h);
    assert Expand(Literal(text), h.group) == text;
  }

  /** One step of `re.sub` at a match, with the rest of the result named `rest`. */
  lemma SubMatchStep(m: Matcher, t: Template, s: string, h: Hit, rest: string)
    requires Consumes(m) && m(s) == Some(h) && rest == Sub(m, t, s[h.len..])
    ensures Sub(m, t, s) == Expand(t, h.group) + rest
  {
  }

  /** One step of `re.sub` past an unmatched character, with the rest of the result named `rest`. */
  lemma SubSkipStep(m: Matcher, t: Template, s: string, rest: string)
    requires Consumes(m) && s != [] && m(s).None? && rest == Sub(m, t, s[1..])
    ensures Sub(m, t, s) == [s[0]] + rest
  {
  }

  /** A match that covers the whole text is replaced, and nothing else is left. */
  lemma SubWhole(m: Matcher, t: Template, s: string)
    requires Consumes(m) && s != [] && m(s).Some? && m(s).value.len == |s|
    ensures Sub(m, t, s) == Expand(t, m(s).value.group)
  {
    assert s[|s|..] == [];
  }

  /**
    With a fixed replacement that no match can begin with, `re.sub` changes the text
    exactly when the pattern occurs in it.
   */
  lemma SubLiteralChanges(m: Matcher, text: string, s: string)
    requires Consumes(m) && text != []
    requires forall x :: m(x).Some? ==> x[0] != text[0]
    ensures Sub(m, Literal(text), s) == s <==> !Occurs(m, s)
  {
    SearchSpec(m, s);
    match Search(m, s)
    case None => SubWithoutMatch(m, Literal(text), s);
    case Some(k) =>
      SubAtSearch(m, Literal(text), s, k, m(s[k..]).value);
      assert Sub(m, Literal(text), s)[k] == text[0];
      assert s[k..][0] == s[k];
  }

  /**
    For a template whose group is never longer than the match, `re.sub` never lengthens
    the text, and shortens it whenever the pattern occurs.
   */
  ghost predicate Shortens(m: Matcher) {
    forall s :: m(s).Some? ==> |m(s).value.group| < m(s).value.len
  }

  lemma {:induction false} SubGroupShorter(m: Matcher, s: string)
    requires Consumes(m) && Shortens(m)
    ensures |Sub(m, Group, s)| <= |s|
    ensures Occurs(m, s) ==> |Sub(m, Group, s)| < |s|
    decreases |s|
  {
    if s != [] {
      match m(s)
      case Some(h) =>
        SubGroupShorter(m, s[h.len..]);
      case None =>
        SubGroupShorter(m, s[1..]);
        if Occurs(m, s) {
          var k :| 0 <= k < |s| && m(s[k..]).Some?;
          assert k != 0 by { assert s[0..] == s; }
          assert s[1..][k - 1..] == s[k..];
        }
    }
  }

  /** `re.sub` with template `\1` leaves a text as it is exactly when the pattern does not occur. */
  lemma SubGroupUnchanged(m: Matcher, s: string)
    requires Consumes(m) && Shortens(m)
    ensures Sub(m, Group, s) == s <==> !Occurs(m, s)
  {
    SubGroupShorter(m, s);
    if !Occurs(m, s) {
      SubWithoutMatch(m, Group, s);
    }
  }

  // ---------------------------------------------------------------- the matchers consume

  lemma LazyBoldConsumes()
    ensures Consumes(LazyBoldAt) && Shortens(LazyBoldAt)
    ensures forall x :: LazyBoldAt(x).Some? ==> x[0] == '*'
  {
    forall x | LazyBoldAt(x).Some? ensures x[0] == '*' {
      LazyBoldSpec(x);
    }
  }

  lemma GreedyBoldConsumes()
    ensures Consumes(GreedyBoldAt) && Shortens(GreedyBoldAt)
  {
  }

  lemma UrlConsumes()
    ensures Consumes(UrlAt)
    ensures forall x :: UrlAt(x).Some? ==> x[0] == 'h'
  {
    forall x | UrlAt(x).Some? ensures x[0] == 'h' {
      UrlSpec(x);
    }
  }

  lemma EmailConsumes()
    ensures Consumes(EmailAt)
    ensures forall x :: EmailAt(x).Some? ==> x[0] != '<'
  {
    forall x | EmailAt(x).Some? ensures x[0] != '<' {
      EmailStart(x);
    }
  }

  lemma TriggerConsumes()
    ensures Consumes(TriggerAt)
  {
  }

  lemma ScoreConsumes(slash: bool)
    ensures Consumes(x => ScoreAt(x, slash))
  {
  }
}
