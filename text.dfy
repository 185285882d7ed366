/**
  The string operations the source takes from Python's `str`: `strip`, `strip(chars)`,
  `lower`, `splitlines`, `startswith` and `replace`, restricted to ASCII whitespace,
  ASCII letters and `\n` line breaks.

  Functions carry only the bounds their callers need; what they compute is stated by
  the lemma that follows each of them.
 */
module Text {

  /** The whitespace that `str.strip()` removes and the regex class `\s` matches (ASCII part). */
  const Whitespace: set<char> := {' ', '\t', '\n', '\r', '\U{B}', '\U{C}'}

  predicate IsSpace(c: char) { c in Whitespace }

  predicate IsDigit(c: char) { '0' <= c <= '9' }

  predicate IsAsciiLetter(c: char) { 'a' <= c <= 'z' || 'A' <= c <= 'Z' }

  predicate NotNewline(c: char) { c != '\n' }

  predicate StartsWith(s: string, prefix: string) {
    |prefix| <= |s| && s[..|prefix|] == prefix
  }

  /** Length of the longest prefix of `s` whose characters all satisfy `ok`. */
  function Run(s: string, ok: char -> bool): (n: nat)
    ensures n <= |s|
  {
    if s != [] && ok(s[0]) then 1 + Run(s[1..], ok) else 0
  }

  /** `Run` is a run of `ok` characters that cannot be extended. */
  lemma {:induction false} RunSpec(s: string, ok: char -> bool)
    ensures forall k :: 0 <= k < Run(s, ok) ==> ok(s[k])
    ensures Run(s, ok) < |s| ==> !ok(s[Run(s, ok)])
  {
    if s != [] && ok(s[0]) {
      RunSpec(s[1..], ok);
      forall k | 1 <= k < Run(s, ok) ensures ok(s[k]) {
        assert s[k] == s[1..][k - 1];
      }
    }
  }

  /** The index of the first `sep` in `s`, or `|s|` when `s` holds none. */
  function IndexOf(s: string, sep: char): (n: nat)
    ensures n <= |s| && (n < |s| ==> s[n] == sep)
  {
    if s == [] || s[0] == sep then 0 else 1 + IndexOf(s[1..], sep)
  }

  /** No `sep` comes before `IndexOf`. */
  lemma {:induction false} IndexOfSpec(s: string, sep: char)
    ensures forall k :: 0 <= k < IndexOf(s, sep) ==> s[k] != sep
  {
    if s != [] && s[0] != sep {
      IndexOfSpec(s[1..], sep);
      forall k | 1 <= k < IndexOf(s, sep) ensures s[k] != sep {
        assert s[k] == s[1..][k - 1];
      }
    }
  }

  /** An index with no `sep` before it and `sep` or the end at it is `IndexOf`. */
  lemma {:induction false} IndexOfExact(s: string, sep: char, n: nat)
    requires n <= |s| && (forall k :: 0 <= k < n ==> s[k] != sep) && (n < |s| ==> s[n] == sep)
    ensures IndexOf(s, sep) == n
  {
    if n > 0 {
      assert s[0] != sep;
      IndexOfExact(s[1..], sep, n - 1);
    }
  }

  /** A run taken from `from` ends at the end of the text or before a character outside it. */
  lemma RunEnd(s: string, from: nat, ok: char -> bool)
    requires from <= |s|
    ensures var e := from + Run(s[from..], ok);
            e == |s| || !ok(s[e])
  {
    RunSpec(s[from..], ok);
    var e := from + Run(s[from..], ok);
    if e < |s| {
      assert s[from..][e - from] == s[e];
    }
  }

  /** Every character of `s[a..b]` satisfies `ok`. */
  predicate Every(s: string, a: nat, b: nat, ok: char -> bool) {
    a <= b <= |s| && forall k :: a <= k < b ==> ok(s[k])
  }

  /** A run taken from `from` is made of `ok` characters and cannot be extended. */
  lemma RunFrom(s: string, from: nat, ok: char -> bool)
    requires from <= |s|
    ensures var e := from + Run(s[from..], ok);
            Every(s, from, e, ok) && (e == |s| || !ok(s[e]))
  {
    var x := s[from..];
    RunSpec(x, ok);
    RunEnd(s, from, ok);
    forall k | from <= k < from + Run(x, ok) ensures ok(s[k]) {
      assert x[k - from] == s[k];
    }
  }

  /** A stretch of `ok` characters from `from` that cannot be extended is the run from `from`. */
  lemma {:induction false} RunFromExact(s: string, from: nat, e: nat, ok: char -> bool)
    requires Every(s, from, e, ok) && (e == |s| || !ok(s[e]))
    ensures from + Run(s[from..], ok) == e
    decreases e - from
  {
    if from < e {
      assert s[from..][1..] == s[from + 1..];
      RunFromExact(s, from + 1, e, ok);
    }
  }

  /** The index of the first line break at or after `from`, or `|s|`: where `.` stops matching. */
  function LineEnd(s: string, from: nat): (e: nat)
    requires from <= |s|
    ensures from <= e <= |s|
  {
    from + Run(s[from..], NotNewline)
  }

  lemma LineEndSpec(s: string, from: nat)
    requires from <= |s|
    ensures forall k :: from <= k < LineEnd(s, from) ==> s[k] != '\n'
    ensures LineEnd(s, from) < |s| ==> s[LineEnd(s, from)] == '\n'
  {
    RunSpec(s[from..], NotNewline);
    forall k | from <= k < LineEnd(s, from) ensures s[k] != '\n' {
      assert s[k] == s[from..][k - from];
    }
  }

  /** `s.lstrip(chars)`. */
  function DropLeft(s: string, cs: set<char>): (r: string)
    ensures |r| <= |s|
    ensures r == [] || r[0] !in cs
  {
    if s != [] && s[0] in cs then DropLeft(s[1..], cs) else s
  }

  lemma {:induction false} DropLeftSpec(s: string, cs: set<char>)
    ensures DropLeft(s, cs) == s[|s| - |DropLeft(s, cs)|..]
    ensures forall k :: 0 <= k < |s| - |DropLeft(s, cs)| ==> s[k] in cs
  {
    if s != [] && s[0] in cs {
      DropLeftSpec(s[1..], cs);
      assert s[1..][|s| - 1 - |DropLeft(s, cs)|..] == s[|s| - |DropLeft(s, cs)|..];
      forall k | 1 <= k < |s| - |DropLeft(s, cs)| ensures s[k] in cs {
        assert s[k] == s[1..][k - 1];
      }
    }
  }

  /** `s.rstrip(chars)`. */
  function DropRight(s: string, cs: set<char>): (r: string)
    ensures |r| <= |s|
    ensures r == [] || r[|r| - 1] !in cs
    ensures r != [] ==> r[0] == s[0]
  {
    if s != [] && s[|s| - 1] in cs then DropRight(s[..|s| - 1], cs) else s
  }

  lemma {:induction false} DropRightSpec(s: string, cs: set<char>)
    ensures DropRight(s, cs) == s[..|DropRight(s, cs)|]
    ensures forall k :: |DropRight(s, cs)| <= k < |s| ==> s[k] in cs
  {
    if s != [] && s[|s| - 1] in cs {
      DropRightSpec(s[..|s| - 1], cs);
      assert s[..|s| - 1][..|DropRight(s, cs)|] == s[..|DropRight(s, cs)|];
      forall k | |DropRight(s, cs)| <= k < |s| - 1 ensures s[k] in cs {
        assert s[k] == s[..|s| - 1][k];
      }
    }
  }

  /** `s.strip(chars)`: leading and trailing characters of `cs` removed, nothing else. */
  function StripSet(s: string, cs: set<char>): (r: string)
    ensures |r| <= |s|
    ensures r == [] || (r[0] !in cs && r[|r| - 1] !in cs)
  {
    DropRight(DropLeft(s, cs), cs)
  }

  /**
    `strip(chars)` keeps a middle part of the text: it is empty exactly when every
    character is in `cs`, and holds no character the text does not.
   */
  lemma StripSetSpec(s: string, cs: set<char>)
    ensures StripSet(s, cs) == [] <==> forall k :: 0 <= k < |s| ==> s[k] in cs
    ensures forall c :: c in StripSet(s, cs) ==> c in s
  {
    var left := DropLeft(s, cs);
    var r := DropRight(left, cs);
    DropLeftSpec(s, cs);
    DropRightSpec(left, cs);
    var a := |s| - |left|;
    assert r == s[a..a + |r|];
    if left != [] {
      assert s[a] == left[0] && left[0] !in cs;
      assert r != [];
    }
  }

  /** `r` is the part of `s` from index `a` on, with only characters of `cs` around it. */
  predicate PaddedBy(s: string, a: nat, r: string, cs: set<char>) {
    a + |r| <= |s| && r == s[a..a + |r|] &&
    (forall k :: 0 <= k < a ==> s[k] in cs) && (forall k :: a + |r| <= k < |s| ==> s[k] in cs)
  }

  /** `strip(chars)` removes only characters of `cs`, from both ends, and keeps the middle as it is. */
  lemma StripSetSlice(s: string, cs: set<char>)
    ensures exists a: nat :: PaddedBy(s, a, StripSet(s, cs), cs)
  {
    var left := DropLeft(s, cs);
    var r := DropRight(left, cs);
    DropLeftSpec(s, cs);
    DropRightSpec(left, cs);
    var a: nat := |s| - |left|;
    assert r == s[a..a + |r|];
    forall k | a + |r| <= k < |s| ensures s[k] in cs {
      assert s[k] == left[k - a];
    }
    assert r == StripSet(s, cs);
    assert PaddedBy(s, a, r, cs);
  }

  /** A string with no whitespace at either end. */
  predicate Stripped(s: string) {
    s == [] || (!IsSpace(s[0]) && !IsSpace(s[|s| - 1]))
  }

  /** `s.strip()`. */
  function Strip(s: string): (r: string)
    ensures |r| <= |s| && Stripped(r)
  {
    StripSet(s, Whitespace)
  }

  /** `strip()` is empty exactly on an all-whitespace line, and takes no character from elsewhere. */
  lemma StripSpec(s: string)
    ensures Strip(s) == [] <==> forall k :: 0 <= k < |s| ==> IsSpace(s[k])
    ensures forall c :: c in Strip(s) ==> c in s
    ensures exists a: nat :: PaddedBy(s, a, Strip(s), Whitespace)
  {
    StripSetSpec(s, Whitespace);
    StripSetSlice(s, Whitespace);
  }

  /** `c.lower()` for ASCII letters. */
  function LowerChar(c: char): char {
    if 'A' <= c <= 'Z' then (c as int + 32) as char else c
  }

  /** `s.lower()` for ASCII letters. */
  function Lower(s: string): (r: string)
    ensures |r| == |s|
  {
    seq(|s|, k requires 0 <= k < |s| => LowerChar(s[k]))
  }

  /** The pieces of `s` between occurrences of `sep`, as `s.split(sep)`. */
  function SplitOn(s: string, sep: char): (parts: seq<string>)
    ensures |parts| >= 1
    decreases |s|
  {
    var n := IndexOf(s, sep);
    if n == |s| then [s] else [s[..n]] + SplitOn(s[n + 1..], sep)
  }

  /** No piece of a split holds the separator. */
  lemma {:induction false} SplitOnSpec(s: string, sep: char)
    ensures forall k :: 0 <= k < |SplitOn(s, sep)| ==> sep !in SplitOn(s, sep)[k]
    decreases |s|
  {
    var n := IndexOf(s, sep);
    IndexOfSpec(s, sep);
    if n < |s| {
      SplitOnSpec(s[n + 1..], sep);
    }
  }

  /** `sep.join(parts)` for a one-character separator. */
  function JoinWith(parts: seq<string>, sep: char): string {
    if |parts| == 0 then ""
    else if |parts| == 1 then parts[0]
    else parts[0] + [sep] + JoinWith(parts[1..], sep)
  }

  /**
    `s.splitlines()` for `\n` breaks: the pieces between line breaks, without a last
    empty piece (so "" has no lines and "a\n" has one).
   */
  function SplitLines(s: string): seq<string> {
    var parts := SplitOn(s, '\n');
    if parts[|parts| - 1] == "" then parts[..|parts| - 1] else parts
  }

  /** No line holds a line break. */
  lemma SplitLinesSpec(s: string)
    ensures forall k :: 0 <= k < |SplitLines(s)| ==> '\n' !in SplitLines(s)[k]
  {
    SplitOnSpec(s, '\n');
  }

  predicate EndsWithNewline(s: string) {
    s != [] && s[|s| - 1] == '\n'
  }

  /** Joining the pieces of a split restores the text. */
  lemma {:induction false} SplitOnJoin(s: string, sep: char)
    ensures JoinWith(SplitOn(s, sep), sep) == s
    decreases |s|
  {
    var n := IndexOf(s, sep);
    if n < |s| {
      SplitOnJoin(s[n + 1..], sep);
      var rest := SplitOn(s[n + 1..], sep);
      JoinCons(s[..n], rest, sep);
      assert SplitOn(s, sep) == [s[..n]] + rest;
      assert s == s[..n] + [sep] + s[n + 1..];
    }
  }

  lemma JoinCons(head: string, rest: seq<string>, sep: char)
    requires rest != []
    ensures JoinWith([head] + rest, sep) == head + [sep] + JoinWith(rest, sep)
  {
    assert ([head] + rest)[1..] == rest;
  }

  /** The last piece of a split is empty exactly when the text is empty or ends with the separator. */
  lemma {:induction false} SplitOnLastEmpty(s: string, sep: char)
    ensures var parts := SplitOn(s, sep);
            parts[|parts| - 1] == "" <==> (s == [] || s[|s| - 1] == sep)
    decreases |s|
  {
    var n := IndexOf(s, sep);
    IndexOfSpec(s, sep);
    var parts := SplitOn(s, sep);
    if n == |s| {
      assert parts == [s];
      if s != [] {
        assert s[|s| - 1] != sep;
      }
    } else {
      var rest := s[n + 1..];
      SplitOnLastEmpty(rest, sep);
      var tail := SplitOn(rest, sep);
      assert parts == [s[..n]] + tail;
      assert parts[|parts| - 1] == tail[|tail| - 1];
      if rest != [] {
        assert rest[|rest| - 1] == s[|s| - 1];
      } else {
        assert s[|s| - 1] == sep;
      }
    }
  }

  /** `splitlines` loses nothing but a final line break: joining its lines gives the text back. */
  lemma SplitLinesJoin(s: string)
    ensures JoinWith(SplitLines(s), '\n') + (if EndsWithNewline(s) then "\n" else "") == s
  {
    var parts := SplitOn(s, '\n');
    SplitOnJoin(s, '\n');
    SplitOnLastEmpty(s, '\n');
    if parts[|parts| - 1] == "" {
      JoinDropEmptyLast(parts, '\n');
      assert SplitLines(s) == parts[..|parts| - 1];
      if s == [] {
        assert parts == [""];
      } else {
        assert EndsWithNewline(s);
        assert |parts| >= 2 by {
          IndexOfSpec(s, '\n');
          assert IndexOf(s, '\n') < |s|;
        }
      }
    } else {
      assert SplitLines(s) == parts;
      assert !EndsWithNewline(s);
    }
  }


  /** Dropping an empty last piece removes exactly the separator before it. */
  lemma {:induction false} JoinDropEmptyLast(parts: seq<string>, sep: char)
    requires |parts| >= 1 && parts[|parts| - 1] == ""
    ensures JoinWith(parts, sep) ==
            JoinWith(parts[..|parts| - 1], sep) + (if |parts| >= 2 then [sep] else "")
  {
    if |parts| == 2 {
      assert parts[..1] == [parts[0]];
    } else if |parts| > 2 {
      JoinDropEmptyLast(parts[1..], sep);
      assert parts[1..][..|parts| - 2] == parts[..|parts| - 1][1..];
    }
  }

  /** Python's `s.replace(target, replacement)` for single characters. */
  function ReplaceChar(s: string, target: char, replacement: char): (r: string)
    ensures |r| == |s|
    ensures forall k :: 0 <= k < |s| ==> r[k] == (if s[k] == target then replacement else s[k])
  {
    seq(|s|, k requires 0 <= k < |s| => if s[k] == target then replacement else s[k])
  }
}
