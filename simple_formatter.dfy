/**
  `format_cv_to_pdf` of utils/test/cv_pdf_formatter3.1.py, up to the list of flowables it
  hands to ReportLab: one flowable per line of the text, chosen by looking at that line
  alone after `strip()`.

  The heading pattern `^\*\*(.+)\*\*$` is tried with `re.match` on a stripped line, which
  holds no line break; there it accepts exactly a `BoldLine`.
 */
module SimpleFormatter {
  import opened Text
  import opened Patterns
  import opened InlineMarkup
  import CvFormatter

  /** The three paragraph styles of this formatter: `normal`, `heading` and `bullet`. */
  datatype Kind = Normal | Heading | Bullet

  /** One flowable: a paragraph, or a spacer of the given height in hundredths of an inch. */
  datatype Flowable = Paragraph(kind: Kind, text: string) | Spacer(hundredths: nat)

  /** A heading line must be shorter than this. */
  const MaxHeading: nat := 80

  /** The gap a blank line leaves: `0.15 * inch`. */
  const BlankGap: nat := 15

  /** The bullet sign and space put before a bullet's text. */
  const BulletSign: string := "\U{2022} "

  predicate IsHeading(line: string) {
    BoldLine(line) && |line| < MaxHeading
  }

  /** The flowable made of one stripped line. */
  function LineFlowable(line: string): Flowable {
    if line == [] then Spacer(BlankGap)
    else if IsHeading(line) then Paragraph(Heading, UnboldGreedy(line))
    else if CvFormatter.IsBullet(line) then Paragraph(Bullet, BulletSign + Strip(line[2..]))
    else Paragraph(Normal, UnboldLazy(line))
  }

  /** The list `content` built from `text`: a flowable for every line, in order. */
  method FormatCvToPdf(text: string) returns (content: seq<Flowable>)
    ensures var lines := SplitLines(text);
            |content| == |lines| &&
            forall k :: 0 <= k < |lines| ==> content[k] == LineFlowable(Strip(lines[k]))
  {
    var lines := SplitLines(text);
    content := [];
    for i := 0 to |lines|
      invariant |content| == i
      invariant forall k :: 0 <= k < i ==> content[k] == LineFlowable(Strip(lines[k]))
    {
      var f := FormatLine(Strip(lines[i]));
      content := content + [f];
    }
  }

  /** The body of the loop: the flowable for one stripped line. */
  method FormatLine(line: string) returns (f: Flowable)
    ensures f == LineFlowable(line)
  {
    if line == [] {
      f := Spacer(BlankGap);
    } else if BoldLine(line) && |line| < MaxHeading {
      var title := UnboldGreedy(line);
      f := Paragraph(Heading, title);
    } else if CvFormatter.IsBullet(line) {
      var bulletText := Strip(line[2..]);
      f := Paragraph(Bullet, BulletSign + bulletText);
    } else {
      f := Paragraph(Normal, UnboldLazy(line));
    }
  }

  // ---------------------------------------------------------------- lemmas

  /**
    Which flowable a line becomes: a spacer exactly for a blank line, a heading exactly
    for a short whole-line bold span, a bullet exactly for any other line starting with
    `* ` or `- `, and a normal paragraph for everything else.
   */
  lemma LineFlowableKinds(line: string)
    ensures LineFlowable(line).Spacer? <==> line == []
    ensures LineFlowable(line) == Spacer(BlankGap) || LineFlowable(line).Paragraph?
    ensures LineFlowable(line) == Spacer(BlankGap) <==> line == []
    ensures LineFlowable(line).Paragraph? && LineFlowable(line).kind == Heading <==> IsHeading(line)
    ensures LineFlowable(line).Paragraph? && LineFlowable(line).kind == Bullet <==>
              !IsHeading(line) && CvFormatter.IsBullet(line)
    ensures LineFlowable(line).Paragraph? && LineFlowable(line).kind == Normal <==>
              line != [] && !IsHeading(line) && !CvFormatter.IsBullet(line)
  {
  }

  /** A bold line cannot also start with a bullet marker, so the order of the two tests does not matter. */
  lemma HeadingNotBullet(line: string)
    requires BoldLine(line)
    ensures !CvFormatter.IsBullet(line)
  {
    assert line[1] == '*';
    if |line| >= 2 {
      assert line[..2][1] == line[1];
    }
  }

  /** A heading's text is its line without the two outer markers. */
  lemma HeadingTitle(line: string)
    requires IsHeading(line)
    ensures LineFlowable(line) == Paragraph(Heading, line[2..|line| - 2])
  {
    UnboldGreedyLine(line);
  }

  /**
    A bullet keeps the text after its marker, stripped, behind the bullet sign: that
    text is a slice of the line after the marker with only whitespace around it, and
    it has no whitespace at either end.
   */
  lemma BulletParagraph(line: string)
    requires line != [] && !IsHeading(line) && CvFormatter.IsBullet(line)
    ensures var f := LineFlowable(line);
            f.Paragraph? && f.kind == Bullet &&
            StartsWith(f.text, BulletSign) &&
            var rest := f.text[|BulletSign|..];
            Stripped(rest) && exists a: nat :: PaddedBy(line[2..], a, rest, Whitespace)
  {
    var rest := Strip(line[2..]);
    StripSpec(line[2..]);
    assert (BulletSign + rest)[..|BulletSign|] == BulletSign;
    assert (BulletSign + rest)[|BulletSign|..] == rest;
  }

  /**
    A normal paragraph is the line with each non-greedy bold span reduced to its
    content: unchanged exactly when the line holds no bold span, shorter otherwise.
   */
  lemma NormalParagraph(line: string)
    requires line != [] && !IsHeading(line) && !CvFormatter.IsBullet(line)
    ensures LineFlowable(line).Paragraph? && LineFlowable(line).kind == Normal
    ensures LineFlowable(line).text == line <==> !HasBoldSpan(line)
    ensures HasBoldSpan(line) ==> |LineFlowable(line).text| < |line|
  {
    UnboldLazyChanges(line);
  }

  /**
    A short line `**X**Y**Z**` is one heading whose text keeps the inner markers,
    `X**Y**Z`; the same line at 80 characters or more is a normal paragraph `XYZ`.
   */
  lemma TwoSpanLine(x: string, y: string, z: string)
    requires x != [] && z != [] && Plain(x) && Plain(y) && Plain(z)
    ensures var line := "**" + x + "**" + y + "**" + z + "**";
            LineFlowable(line) ==
              if |line| < MaxHeading then Paragraph(Heading, x + "**" + y + "**" + z)
              else Paragraph(Normal, x + y + z)
  {
    var line := "**" + x + "**" + y + "**" + z + "**";
    var inner := x + "**" + y + "**" + z;
    assert line == "**" + inner + "**";
    assert BoldLine(line) by {
      forall j | 2 <= j < |line| - 2 ensures line[j] != '\n' {
        assert line[j] == inner[j - 2];
      }
    }
    if |line| < MaxHeading {
      UnboldGreedyTwoSpans(x, y, z);
      assert LineFlowable(line) == Paragraph(Heading, UnboldGreedy(line));
    } else {
      HeadingNotBullet(line);
      UnboldLazyTwoSpans(x, y, z);
      assert LineFlowable(line) == Paragraph(Normal, UnboldLazy(line));
    }
  }

  /** Every line of the text gives exactly one flowable, and a blank line gives exactly a spacer. */
  lemma BlankLinesAreSpacers(text: string, content: seq<Flowable>)
    requires var lines := SplitLines(text);
             |content| == |lines| &&
             forall k :: 0 <= k < |lines| ==> content[k] == LineFlowable(Strip(lines[k]))
    ensures forall k :: 0 <= k < |content| ==>
              (content[k].Spacer? <==> forall j :: 0 <= j < |SplitLines(text)[k]| ==> IsSpace(SplitLines(text)[k][j]))
  {
    var lines := SplitLines(text);
    forall k | 0 <= k < |content|
      ensures content[k].Spacer? <==> forall j :: 0 <= j < |lines[k]| ==> IsSpace(lines[k][j])
    {
      StripSpec(lines[k]);
    }
  }
}
