/**
 * The classifier on one short comment body that carries both kinds of
 * section: a highlight label, its text, then a lowlight label and its text.
 * The highlight section ends where the lowlight label begins, the labels are
 * recognised whatever their case, and each section cleans to its text.
 *
 * Each lemma takes the body as a parameter equal to the literal, rather than
 * speaking of the literal itself, so that the solver does not unfold the
 * recursive definitions over the literal's characters without bound; the
 * proofs instead go through the general lemmas about labels and stripping.
 */
module WorkedExample {
  import opened Options
  import opened Ascii
  import opened Labels
  import opened Cleanup

  const Text: string := "Highlight: A Lowlight: B"

  /** `Highlight:` at the start, in mixed case, is a highlight label. */
  lemma HighlightLabel(body: string)
    requires body == Text
    ensures LabelEnd(body, 0, Highlight) == Some(10)
  {
    LabelAt(body, 0, Highlight);
  }

  /** `Lowlight:` at position 13 is a lowlight label. */
  lemma LowlightLabel(body: string)
    requires body == Text
    ensures LabelEnd(body, 13, Lowlight) == Some(22)
  {
    LabelAt(body, 13, Lowlight);
  }

  /** The plural label in upper case, `HIGHLIGHTS:`, is a highlight label
      too, ending after its colon. */
  lemma UpperPluralLabel(body: string)
    requires body == "HIGHLIGHTS: A"
    ensures LabelEnd(body, 0, Highlight) == Some(11)
  {
    PluralLabelAt(body, 0, Highlight);
  }

  /** No other highlight label: after a word character `\b` fails, and
      elsewhere the character is not an `h`. */
  lemma OnlyHighlight(body: string)
    requires body == Text
    ensures NoLabelIn(body, Highlight, 1, |body|)
  {
    forall p: nat | 1 <= p < |body| ensures LabelEnd(body, p, Highlight).None? {
      if p == 10 || p == 11 || p == 13 || p == 22 || p == 23 {
        NoLabelAtOtherLetter(body, p, Highlight);
      } else {
        NoLabelAfterWordChar(body, Highlight, p);
      }
    }
  }

  /** No other lowlight label. */
  lemma OnlyLowlight(body: string)
    requires body == Text
    ensures NoLabelIn(body, Lowlight, 0, 13) && NoLabelIn(body, Lowlight, 14, |body|)
  {
    forall p: nat | p < |body| && p != 13 ensures LabelEnd(body, p, Lowlight).None? {
      if p == 0 || p == 10 || p == 11 || p == 22 || p == 23 {
        NoLabelAtOtherLetter(body, p, Lowlight);
      } else {
        NoLabelAfterWordChar(body, Lowlight, p);
      }
    }
  }

  /** The highlight section ends where the lowlight label begins. */
  lemma HighlightStop(body: string)
    requires body == Text
    ensures FirstStop(body, 10, Lowlight) == 13
  {
    LowlightLabel(body);
    OnlyLowlight(body);
    FirstStopUnique(body, 10, Lowlight, 13);
  }

  /** The lowlight section runs to the end of the body. */
  lemma LowlightStop(body: string)
    requires body == Text
    ensures FirstStop(body, 22, Highlight) == |body|
  {
    OnlyHighlight(body);
    FirstStopUnique(body, 22, Highlight, |body|);
  }

  /** The highlight section's text, stripped. */
  lemma HighlightText(body: string)
    requires body == Text
    ensures Strip(body[10..13]) == "A"
  {
    var u := body[10..13];
    assert |u| == 3 && u[0] == ' ' && u[1] == 'A' && u[2] == ' ';
    StripBetween(u, 1, 2);
    assert u[1..2] == [u[1]];
  }

  /** The lowlight section's text, stripped. */
  lemma LowlightText(body: string)
    requires body == Text
    ensures Strip(body[22..|body|]) == "B"
  {
    var u := body[22..|body|];
    assert |u| == 2 && u[0] == ' ' && u[1] == 'B';
    StripBetween(u, 1, 2);
    assert u[1..2] == [u[1]];
  }

  /** A highlight followed by a lowlight: the highlight snippet is `A`. */
  lemma HighlightSnippet(body: string)
    requires body == Text
    ensures Snippets(body, Highlight) == ["A"]
  {
    HighlightLabel(body);
    OnlyHighlight(body);
    HighlightStop(body);
    HighlightText(body);
    SingleLabelSnippets(body, Highlight, 0, 10);
  }

  /** ... and the lowlight snippet is `B`. */
  lemma LowlightSnippet(body: string)
    requires body == Text
    ensures Snippets(body, Lowlight) == ["B"]
  {
    LowlightLabel(body);
    OnlyLowlight(body);
    LowlightStop(body);
    LowlightText(body);
    SingleLabelSnippets(body, Lowlight, 13, 22);
  }
}
