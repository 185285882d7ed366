/**
  The inline passes of the CV formatters: `parse_inline_bold` and `parse_hyperlinks`
  (utils/test/cv_pdf_formatter3.py), and the `\1` substitutions that strip bold markers
  from a title or a line.
 */
module InlineMarkup {
  import opened Wrappers
  import opened Text
  import opened Patterns

  /**
    The replacements are raw strings with a doubled backslash, which `re.sub` reads as
    one literal backslash: every replaced span becomes the same fixed text, with `\1`
    in it as two characters.
   */
  const BoldTemplate: string := "<b>\\1</b>"
  const UrlTemplate: string := "<a href=\"\\1\" color=\"blue\">\\1</a>"
  const MailTemplate: string := "<a href=\"mailto:\\1\" color=\"blue\">\\1</a>"

  /** Two `**` markers on one line with at least one character between them. */
  ghost predicate HasBoldSpan(s: string) {
    exists i, j :: 0 <= i && i + 3 <= j && MarkerAt(s, i) && MarkerAt(s, j) && NoNewline(s, i + 2, j)
  }

  /** `http://` or `https://` at `k`, followed by a character a URL may hold. */
  ghost predicate UrlStartsAt(s: string, k: nat) {
    k <= |s| &&
    ((StartsWith(s[k..], "https://") && k + 8 < |s| && IsUrlChar(s[k + 8])) ||
     (StartsWith(s[k..], "http://") && k + 7 < |s| && IsUrlChar(s[k + 7])))
  }

  ghost predicate HasUrl(s: string) {
    exists k :: 0 <= k < |s| && UrlStartsAt(s, k)
  }

  /** `parse_inline_bold`: every non-greedy `**X**` span becomes `BoldTemplate`. */
  function ParseInlineBold(text: string): string {
    LazyBoldConsumes();
    Sub(LazyBoldAt, Literal(BoldTemplate), text)
  }

  /** The URL pass of `parse_hyperlinks`. */
  function LinkUrls(text: string): string {
    UrlConsumes();
    Sub(UrlAt, Literal(UrlTemplate), text)
  }

  /** The e-mail pass of `parse_hyperlinks`. */
  function LinkMails(text: string): string {
    EmailConsumes();
    Sub(EmailAt, Literal(MailTemplate), text)
  }

  /** `parse_hyperlinks`: the URL pass first, then the e-mail pass over its output. */
  function ParseHyperlinks(text: string): string {
    LinkMails(LinkUrls(text))
  }

  /** What the CV formatter does to body text: bold first, then links. */
  function Inline(text: string): string {
    ParseHyperlinks(ParseInlineBold(text))
  }

  /** `re.sub(r"\*\*(.+?)\*\*", r"\1", s)`: each non-greedy span loses its markers. */
  function UnboldLazy(s: string): (r: string)
    ensures |r| <= |s|
  {
    LazyBoldConsumes();
    SubGroupShorter(LazyBoldAt, s);
    Sub(LazyBoldAt, Group, s)
  }

  /** `re.sub(r"\*\*(.+)\*\*", r"\1", s)`: each greedy span loses its markers. */
  function UnboldGreedy(s: string): (r: string)
    ensures |r| <= |s|
  {
    GreedyBoldConsumes();
    SubGroupShorter(GreedyBoldAt, s);
    Sub(GreedyBoldAt, Group, s)
  }

  // ---------------------------------------------------------------- what the passes change

  /** `parse_inline_bold` changes a text exactly when it holds a bold span. */
  lemma InlineBoldChanges(text: string)
    ensures ParseInlineBold(text) == text <==> !HasBoldSpan(text)
  {
    LazyBoldConsumes();
    BoldOccurs(text);
    assert BoldTemplate[0] == '<';
    SubLiteralChanges(LazyBoldAt, BoldTemplate, text);
  }

  /** The URL pass changes a text exactly when a URL starts in it. */
  lemma LinkUrlsChanges(text: string)
    ensures LinkUrls(text) == text <==> !HasUrl(text)
  {
    UrlConsumes();
    UrlOccurs(text);
    assert UrlTemplate[0] == '<';
    SubLiteralChanges(UrlAt, UrlTemplate, text);
  }

  /** The e-mail pass changes a text exactly when an address occurs in it, so never without an `@`. */
  lemma LinkMailsChanges(text: string)
    ensures LinkMails(text) == text <==> !Occurs(EmailAt, text)
    ensures '@' !in text ==> LinkMails(text) == text
  {
    EmailConsumes();
    assert MailTemplate[0] == '<';
    SubLiteralChanges(EmailAt, MailTemplate, text);
    MailNeedsAt(text);
  }

  /** A text with no URL and no `@` passes through `parse_hyperlinks` unchanged. */
  lemma HyperlinksWithoutLinks(text: string)
    requires !HasUrl(text) && '@' !in text
    ensures ParseHyperlinks(text) == text
  {
    LinkUrlsChanges(text);
    LinkMailsChanges(text);
  }

  /** Removing markers non-greedily changes a text exactly when it holds a bold span. */
  lemma UnboldLazyChanges(s: string)
    ensures UnboldLazy(s) == s <==> !HasBoldSpan(s)
    ensures HasBoldSpan(s) ==> |UnboldLazy(s)| < |s|
  {
    LazyBoldConsumes();
    BoldOccurs(s);
    SubGroupShorter(LazyBoldAt, s);
    SubGroupUnchanged(LazyBoldAt, s);
  }

  // ---------------------------------------------------------------- lemmas

  /** The lazy bold pattern occurs exactly where two markers enclose a one-line span. */
  lemma BoldOccurs(s: string)
    ensures Occurs(LazyBoldAt, s) <==> HasBoldSpan(s)
  {
    if Occurs(LazyBoldAt, s) {
      var k :| 0 <= k < |s| && LazyBoldAt(s[k..]).Some?;
      var x := s[k..];
      LazyBoldSpec(x);
      var c := LazyBoldAt(x).value.len - 2;
      assert MarkerAt(s, k) && MarkerAt(s, k + c) by {
        assert x[0] == s[k] && x[1] == s[k + 1] && x[c] == s[k + c] && x[c + 1] == s[k + c + 1];
      }
      assert NoNewline(s, k + 2, k + c) by {
        forall j | k + 2 <= j < k + c && j < |s| ensures s[j] != '\n' {
          assert x[j - k] == s[j];
        }
      }
    }
    if HasBoldSpan(s) {
      var i, j :| 0 <= i && i + 3 <= j && MarkerAt(s, i) && MarkerAt(s, j) && NoNewline(s, i + 2, j);
      var x := s[i..];
      assert MarkerAt(x, 0) && MarkerAt(x, j - i) by {
        assert x[0] == s[i] && x[1] == s[i + 1] && x[j - i] == s[j] && x[j - i + 1] == s[j + 1];
      }
      assert NoNewline(x, 2, j - i) by {
        forall t | 2 <= t < j - i && t < |x| ensures x[t] != '\n' {
          assert x[t] == s[i + t];
        }
      }
      LazyBoldSpec(x);
      assert Closes(x, j - i);
      assert i < |s| && LazyBoldAt(x).Some?;
    }
  }

  lemma UrlOccurs(s: string)
    ensures Occurs(UrlAt, s) <==> HasUrl(s)
  {
    forall k | 0 <= k < |s| ensures UrlAt(s[k..]).Some? <==> UrlStartsAt(s, k) {
      var x := s[k..];
      UrlSpec(x);
      assert k + 8 < |s| ==> x[8] == s[k + 8];
      assert k + 7 < |s| ==> x[7] == s[k + 7];
    }
  }

  /** An e-mail address has an `@` in it. */
  lemma MailNeedsAt(s: string)
    ensures Occurs(EmailAt, s) ==> '@' in s
  {
    if Occurs(EmailAt, s) {
      var k :| 0 <= k < |s| && EmailAt(s[k..]).Some?;
      var x := s[k..];
      EmailStart(x);
      var l := Run(x, IsLocalChar);
      assert x[l] == s[k + l];
    }
  }

  /**
    `parse_inline_bold` copies the text before the leftmost span, puts the fixed
    replacement in place of the span, and goes on after its closing marker.
   */
  lemma InlineBoldAtLeftmost(s: string, k: nat, h: Hit)
    requires Search(LazyBoldAt, s) == Some(k) && LazyBoldAt(s[k..]) == Some(h)
    ensures k + h.len <= |s|
    ensures ParseInlineBold(s) == s[..k] + BoldTemplate + ParseInlineBold(s[k + h.len..])
  {
    LazyBoldConsumes();
    SubLiteralAtSearch(LazyBoldAt, BoldTemplate, s, k, h, ParseInlineBold(s), ParseInlineBold(s[k + h.len..]));
  }

  /** The span that `parse_inline_bold` replaces is `**`, the group, `**`. */
  lemma BoldSpanShape(s: string, k: nat, h: Hit)
    requires k < |s| && LazyBoldAt(s[k..]) == Some(h)
    ensures k + h.len <= |s| && s[k..k + h.len] == "**" + h.group + "**"
  {
    LazyBoldSpec(s[k..]);
    SpanShape(s, k, h.len);
  }

  lemma SpanShape(s: string, k: nat, n: nat)
    requires 4 <= n && k + n <= |s| && MarkerAt(s[k..], 0) && MarkerAt(s[k..], n - 2)
    ensures s[k..k + n] == "**" + s[k..][2..n - 2] + "**"
  {
    var x := s[k..];
    assert x[..n] == s[k..k + n];
    assert x[..n] == x[..2] + x[2..n - 2] + x[n - 2..n];
  }

  /**
    The URL pass replaces the leftmost URL token, which runs to the first whitespace or
    comma, and goes on after it.
   */
  lemma LinkUrlsAtLeftmost(s: string, k: nat, h: Hit)
    requires Search(UrlAt, s) == Some(k) && UrlAt(s[k..]) == Some(h)
    ensures k + h.len <= |s|
    ensures LinkUrls(s) == s[..k] + UrlTemplate + LinkUrls(s[k + h.len..])
  {
    UrlConsumes();
    SubLiteralAtSearch(UrlAt, UrlTemplate, s, k, h, LinkUrls(s), LinkUrls(s[k + h.len..]));
  }

  /** The URL token found at `k` is a maximal run of URL characters after its scheme. */
  lemma UrlTokenAt(s: string, k: nat)
    requires k < |s| && UrlAt(s[k..]).Some?
    ensures var n := UrlAt(s[k..]).value.len;
            k + n <= |s| && (k + n == |s| || !IsUrlChar(s[k + n])) &&
            forall j :: k + 7 <= j < k + n ==> IsUrlChar(s[j])
  {
    var x := s[k..];
    var n := UrlAt(x).value.len;
    UrlSpec(x);
    forall j | k + 7 <= j < k + n ensures IsUrlChar(s[j]) {
      assert x[j - k] == s[j];
    }
    if k + n < |s| {
      assert x[n] == s[k + n];
    }
  }

  /**
    The URL pass runs first: a text that is one URL token becomes the URL replacement,
    and the e-mail pass finds no `@` left in it, even when the URL held one.
   */
  lemma UrlPassFirst(s: string)
    requires UrlAt(s) == Some(Hit(|s|, s))
    ensures ParseHyperlinks(s) == UrlTemplate
  {
    UrlConsumes();
    SubWhole(UrlAt, Literal(UrlTemplate), s);
    MailPassKeepsLink();
  }

  /** The e-mail pass leaves the URL replacement alone: it has no `@` in it. */
  lemma MailPassKeepsLink()
    ensures LinkMails(UrlTemplate) == UrlTemplate
  {
    assert '@' !in UrlTemplate;
    LinkMailsChanges(UrlTemplate);
  }

  /** A whole-line `**X**` loses exactly its outer markers under the greedy substitution. */
  lemma UnboldGreedyLine(s: string)
    requires BoldLine(s)
    ensures UnboldGreedy(s) == s[2..|s| - 2]
  {
    GreedyBoldConsumes();
    assert Closes(s, |s| - 2);
    GreedyBoldSpec(s);
    SubWhole(GreedyBoldAt, Group, s);
  }

  /**
    On any whole-line `**X**` the non-greedy substitution first replaces the span from
    the opening marker to the first closing one by its content, then goes on after it.
   */
  lemma UnboldLazyBoldLine(s: string)
    requires BoldLine(s)
    ensures exists c: nat :: Closes(s, c) && (forall k: nat :: k < c ==> !Closes(s, k)) &&
              UnboldLazy(s) == s[2..c] + UnboldLazy(s[c + 2..])
  {
    LazyBoldConsumes();
    assert Closes(s, |s| - 2);
    LazyBoldSpec(s);
    var h := LazyBoldAt(s).value;
    SubMatchStep(LazyBoldAt, Group, s, h, UnboldLazy(s[h.len..]));
    var c: nat := h.len - 2;
    assert Closes(s, c) && (forall k: nat :: k < c ==> !Closes(s, k));
  }

  /**
    A whole-line `**X**` with no `*` inside loses exactly its outer markers under the
    non-greedy substitution too.
   */
  lemma UnboldLazyLine(s: string)
    requires BoldLine(s)
    requires forall j :: 2 <= j < |s| - 2 ==> s[j] != '*'
    ensures UnboldLazy(s) == s[2..|s| - 2]
  {
    LazyBoldConsumes();
    assert Closes(s, |s| - 2);
    LazyBoldSpec(s);
    SubWhole(LazyBoldAt, Group, s);
  }

  /** Text with no `*` and no line break. */
  predicate Plain(x: string) {
    forall i :: 0 <= i < |x| ==> x[i] != '*' && x[i] != '\n'
  }

  /** `**X**` with a plain, non-empty `X` is matched by the non-greedy pattern, whatever follows. */
  lemma LazyBoldFirst(x: string, w: string)
    requires x != [] && Plain(x)
    ensures LazyBoldAt("**" + x + "**" + w) == Some(Hit(|x| + 4, x))
  {
    var s := "**" + x + "**" + w;
    var c := |x| + 2;
    assert s[c] == '*' && s[c + 1] == '*';
    assert forall j :: 2 <= j < c ==> s[j] == x[j - 2];
    assert Closes(s, c);
    LazyBoldSpec(s);
    assert s[2..c] == x;
  }

  /** On a line `**X**Y**Z**` with plain parts, the greedy substitution keeps the inner markers. */
  lemma UnboldGreedyTwoSpans(x: string, y: string, z: string)
    requires x != [] && z != [] && Plain(x) && Plain(y) && Plain(z)
    ensures UnboldGreedy("**" + x + "**" + y + "**" + z + "**") == x + "**" + y + "**" + z
  {
    var inner := x + "**" + y + "**" + z;
    var s := "**" + inner + "**";
    assert "**" + x + "**" + y + "**" + z + "**" == s;
    assert BoldLine(s) by {
      forall j | 2 <= j < |s| - 2 ensures s[j] != '\n' {
        assert s[j] == inner[j - 2];
      }
    }
    UnboldGreedyLine(s);
    assert s[2..|s| - 2] == inner;
  }

  /** On the same line the non-greedy substitution removes every pair of markers. */
  lemma UnboldLazyTwoSpans(x: string, y: string, z: string)
    requires x != [] && z != [] && Plain(x) && Plain(y) && Plain(z)
    ensures UnboldLazy("**" + x + "**" + y + "**" + z + "**") == x + y + z
  {
    LazyBoldConsumes();
    var t := y + "**" + z + "**";
    var s := "**" + x + "**" + t;
    assert "**" + x + "**" + y + "**" + z + "**" == s;
    LazyBoldFirst(x, t);
    assert s[|x| + 4..] == t;
    UnboldLazyPlainPrefix(y, z);
    SubMatchStep(LazyBoldAt, Group, s, Hit(|x| + 4, x), y + z);
  }

  /** Plain text before a span `**Z**` is copied, and the span loses its markers. */
  lemma UnboldLazyPlainPrefix(y: string, z: string)
    requires z != [] && Plain(y) && Plain(z)
    ensures Sub(LazyBoldAt, Group, y + "**" + z + "**") == y + z
  {
    var u := "**" + z + "**";
    var t := y + u;
    assert t == y + "**" + z + "**";
    assert LeftmostAt(LazyBoldAt, t, |y|, Hit(|z| + 4, z)) by {
      LazyBoldFirst(z, "");
      assert u + "" == u && t[|y|..] == u;
      NoSpanInPlain(y, u);
    }
    LazyBoldConsumes();
    SubLeftmostLast(LazyBoldAt, Group, t, |y|, Hit(|z| + 4, z));
    assert t[..|y|] == y;
  }

  /** No bold span starts inside plain text. */
  lemma NoSpanInPlain(y: string, u: string)
    requires Plain(y)
    ensures forall j :: 0 <= j < |y| ==> LazyBoldAt((y + u)[j..]).None?
  {
    LazyBoldConsumes();
    forall j | 0 <= j < |y| ensures LazyBoldAt((y + u)[j..]).None? {
      assert (y + u)[j..][0] == y[j];
    }
  }
}
