/**
 * What happens to each match: every label of the match's own kind (at a word
 * boundary, in any case, with the optional `s` and the colon), together with
 * the whitespace after it, is deleted; the rest is stripped of leading and
 * trailing whitespace; and the result is kept only when it is not empty.
 */
module Cleanup {
  import opened Options
  import opened Ascii
  import opened Labels

  /** The end of the whitespace run that begins at `k`. */
  function SkipSpace(t: string, k: nat): (r: nat)
    requires k <= |t|
    ensures k <= r <= |t|
    ensures forall q :: k <= q < r ==> IsSpace(t[q])
    ensures r == |t| || !IsSpace(t[r])
    decreases |t| - k
  {
    if k < |t| && IsSpace(t[k]) then SkipSpace(t, k + 1) else k
  }

  /** `re.sub` of the label pattern from position `k` on: scanning left to
      right, a label of `kind` and the whitespace after it are dropped, and
      any other character is copied. */
  function RemoveLabelsFrom(t: string, kind: Kind, k: nat): (r: string)
    requires k <= |t|
    ensures |r| <= |t| - k
    decreases |t| - k
  {
    if k == |t| then []
    else
      match LabelEnd(t, k, kind)
      case Some(a) => RemoveLabelsFrom(t, kind, SkipSpace(t, a))
      case None => [t[k]] + RemoveLabelsFrom(t, kind, k + 1)
  }

  /** Text without labels passes through the substitution unchanged. */
  lemma {:induction false} RemoveLabelsFromIdentity(t: string, kind: Kind, k: nat)
    requires k <= |t| && NoLabelIn(t, kind, k, |t|)
    ensures RemoveLabelsFrom(t, kind, k) == t[k..]
    decreases |t| - k
  {
    if k < |t| {
      assert LabelEnd(t, k, kind).None?;
      RemoveLabelsFromIdentity(t, kind, k + 1);
      CopiesChar(t, kind, k);
      ConsSlice(t, k);
    }
  }

  lemma ConsSlice(t: string, k: nat)
    requires k < |t|
    ensures t[k..] == [t[k]] + t[k + 1..]
  {
  }

  /** Where no label begins, the substitution copies one character and goes
      on with the next. */
  lemma CopiesChar(t: string, kind: Kind, k: nat)
    requires k < |t| && LabelEnd(t, k, kind).None?
    ensures RemoveLabelsFrom(t, kind, k) == [t[k]] + RemoveLabelsFrom(t, kind, k + 1)
  {
  }

  /** A stretch of the input where no label of `kind` begins is copied to
      the output verbatim. */
  lemma {:induction false} CopiesStretch(t: string, kind: Kind, k: nat, p: nat)
    requires k <= p <= |t| && NoLabelIn(t, kind, k, p)
    ensures RemoveLabelsFrom(t, kind, k) == t[k..p] + RemoveLabelsFrom(t, kind, p)
    decreases p - k
  {
    if k < p {
      CopiesChar(t, kind, k);
      CopiesStretch(t, kind, k + 1, p);
      ConsStretch(t, k, p, RemoveLabelsFrom(t, kind, k), RemoveLabelsFrom(t, kind, k + 1), RemoveLabelsFrom(t, kind, p));
    } else {
      assert t[k..p] == [];
    }
  }

  lemma ConsStretch(t: string, k: nat, p: nat, x: string, y: string, z: string)
    requires k < p <= |t| && x == [t[k]] + y && y == t[k + 1..p] + z
    ensures x == t[k..p] + z
  {
    assert t[k..p] == [t[k]] + t[k + 1..p];
  }

  /** The substitution from `k` on: the label-free stretch up to the next
      label at `p` is kept, that label and the whitespace after it are
      dropped, and the substitution goes on behind them. Applied label by
      label, the output is the text between the labels, concatenated. */
  lemma DropsNextLabel(t: string, kind: Kind, k: nat, p: nat, a: nat)
    requires k <= p < |t| && NoLabelIn(t, kind, k, p) && LabelEnd(t, p, kind) == Some(a)
    ensures RemoveLabelsFrom(t, kind, k) == t[k..p] + RemoveLabelsFrom(t, kind, SkipSpace(t, a))
  {
    CopiesStretch(t, kind, k, p);
    SkipsLabel(t, kind, p, a);
  }

  /** The whole substitution over one matched section. */
  function RemoveLabels(t: string, kind: Kind): (r: string)
    ensures |r| <= |t|
  {
    RemoveLabelsFrom(t, kind, 0)
  }

  /** No label of `kind` occurs in `r`, where the word boundary at the very
      start is decided by `prevWord`: whether a word character comes before
      `r`. */
  ghost predicate LabelFreeAfter(prevWord: bool, r: string, kind: Kind) {
    forall p: nat :: p < |r| && (if p == 0 then !prevWord else !IsWordChar(r[p - 1])) ==>
      LabelLength(r[p..], kind).None?
  }

  lemma LabelFreeAtStart(r: string, kind: Kind)
    requires LabelFreeAfter(false, r, kind)
    ensures NoLabelIn(r, kind, 0, |r|)
  {
    forall p: nat | p < |r| ensures LabelEnd(r, p, kind).None? {
      if AtBoundary(r, p) {
        assert LabelLength(r[p..], kind).None?;
      }
    }
  }

  /** The output of the substitution from `k` on begins with `j` word
      characters followed by one more character, and no label begins at `k`. */
  ghost predicate WordRun(t: string, kind: Kind, k: nat, j: nat) {
    k < |t| && LabelEnd(t, k, kind).None? &&
    j < |RemoveLabelsFrom(t, kind, k)| &&
    forall q :: 0 <= q < j ==> IsWordChar(RemoveLabelsFrom(t, kind, k)[q])
  }

  /** The first `j + 1` characters of the output from `k` on are those of
      the input. */
  ghost predicate CopiedVerbatim(t: string, kind: Kind, k: nat, j: nat) {
    k + j < |t| && j < |RemoveLabelsFrom(t, kind, k)| &&
    RemoveLabelsFrom(t, kind, k)[..j + 1] == t[k..k + j + 1]
  }

  /** While the output of the substitution consists of word characters, it is
      a verbatim copy of the input: a label can only be dropped after a
      non-word character. */
  lemma {:induction false} CopiedPrefix(t: string, kind: Kind, k: nat, j: nat)
    requires WordRun(t, kind, k, j)
    ensures CopiedVerbatim(t, kind, k, j)
    decreases j
  {
    if j > 0 {
      CopiedPrefixNext(t, kind, k, j);
      CopiedPrefix(t, kind, k + 1, j - 1);
      CopiedPrefixJoin(t, kind, k, j);
    } else {
      CopiedFirst(t, kind, k);
    }
  }

  lemma CopiedFirst(t: string, kind: Kind, k: nat)
    requires k < |t| && LabelEnd(t, k, kind).None?
    ensures CopiedVerbatim(t, kind, k, 0)
  {
    CopiesChar(t, kind, k);
    assert RemoveLabelsFrom(t, kind, k)[..1] == [t[k]] == t[k..k + 1];
  }

  /** After a copied word character no label can begin, so the copying goes
      on. */
  lemma CopiedPrefixNext(t: string, kind: Kind, k: nat, j: nat)
    requires 0 < j && WordRun(t, kind, k, j)
    ensures WordRun(t, kind, k + 1, j - 1)
  {
    CopiesChar(t, kind, k);
    WordCharsTail(RemoveLabelsFrom(t, kind, k), t[k], RemoveLabelsFrom(t, kind, k + 1), j);
    NoLabelAfterWordChar(t, kind, k + 1);
  }

  lemma CopiedPrefixJoin(t: string, kind: Kind, k: nat, j: nat)
    requires 0 < j && k < |t| && LabelEnd(t, k, kind).None?
    requires CopiedVerbatim(t, kind, k + 1, j - 1)
    ensures CopiedVerbatim(t, kind, k, j)
  {
    CopiesChar(t, kind, k);
    ConsPrefix(RemoveLabelsFrom(t, kind, k), RemoveLabelsFrom(t, kind, k + 1), t, k, j);
  }

  /** `\b` fails right after a word character, so no label begins there. */
  lemma NoLabelAfterWordChar(t: string, kind: Kind, p: nat)
    requires 0 < p <= |t| && IsWordChar(t[p - 1])
    ensures LabelEnd(t, p, kind).None?
  {
  }

  lemma WordCharsTail(r: string, c: char, rest: string, j: nat)
    requires r == [c] + rest && 0 < j < |r|
    requires forall q :: 0 <= q < j ==> IsWordChar(r[q])
    ensures IsWordChar(c) && j - 1 < |rest|
    ensures forall q :: 0 <= q < j - 1 ==> IsWordChar(rest[q])
  {
    assert r[0] == c;
    forall q | 0 <= q < j - 1 ensures IsWordChar(rest[q]) {
      assert rest[q] == r[q + 1];
    }
  }

  lemma ConsPrefix(r: string, rest: string, t: string, k: nat, j: nat)
    requires k + j < |t| && r == [t[k]] + rest && j <= |rest|
    requires rest[..j] == t[k + 1..k + j + 1]
    ensures j < |r| && r[..j + 1] == t[k..k + j + 1]
  {
    assert r[..j + 1] == [t[k]] + rest[..j];
    assert t[k..k + j + 1] == [t[k]] + t[k + 1..k + j + 1];
  }

  /** The output of the substitution from `k` on holds no label of `kind`,
      with the word boundary at its start decided by the input before `k`. */
  ghost predicate OutputLabelFree(t: string, kind: Kind, k: nat)
    requires k <= |t|
  {
    LabelFreeAfter(k > 0 && IsWordChar(t[k - 1]), RemoveLabelsFrom(t, kind, k), kind)
  }

  /** The substitution leaves no label behind: removing one label cannot join
      the surrounding text into a new one. */
  lemma {:induction false} RemovedLeavesNoLabel(t: string, kind: Kind, k: nat)
    requires k <= |t|
    ensures OutputLabelFree(t, kind, k)
    decreases |t| - k
  {
    if k < |t| {
      match LabelEnd(t, k, kind)
      case Some(a) =>
        RemovedLeavesNoLabel(t, kind, SkipSpace(t, a));
        DroppedLabelLeavesNoLabel(t, kind, k, a);
      case None =>
        RemovedLeavesNoLabel(t, kind, k + 1);
        CopiedCharLeavesNoLabel(t, kind, k);
    }
  }

  /** The step of `RemovedLeavesNoLabel` where a label is dropped: the output
      resumes after a colon or whitespace, so nothing before it can join a
      label. */
  lemma DroppedLabelLeavesNoLabel(t: string, kind: Kind, k: nat, a: nat)
    requires k < |t| && LabelEnd(t, k, kind) == Some(a)
    requires OutputLabelFree(t, kind, SkipSpace(t, a))
    ensures OutputLabelFree(t, kind, k)
  {
    ResumesAfterNonWord(t, kind, k, a);
    SkipsLabel(t, kind, k, a);
    LabelFreeAfterAny(RemoveLabelsFrom(t, kind, SkipSpace(t, a)), kind, k > 0 && IsWordChar(t[k - 1]));
  }

  /** After a dropped label the text resumes behind its colon or behind
      whitespace, neither of which is a word character. */
  lemma ResumesAfterNonWord(t: string, kind: Kind, k: nat, a: nat)
    requires k < |t| && LabelEnd(t, k, kind) == Some(a)
    ensures 0 < SkipSpace(t, a) && !IsWordChar(t[SkipSpace(t, a) - 1])
  {
    var next := SkipSpace(t, a);
    if next == a {
      NotWordChars(t[a - 1]);
    } else {
      NotWordChars(t[next - 1]);
    }
  }

  /** Where a label ends at `a`, the substitution goes on after the
      whitespace that follows it. */
  lemma SkipsLabel(t: string, kind: Kind, k: nat, a: nat)
    requires k < |t| && LabelEnd(t, k, kind) == Some(a)
    ensures RemoveLabelsFrom(t, kind, k) == RemoveLabelsFrom(t, kind, SkipSpace(t, a))
  {
  }

  /** Freedom from labels after a non-word character is the strongest form. */
  lemma LabelFreeAfterAny(r: string, kind: Kind, prevWord: bool)
    requires LabelFreeAfter(false, r, kind)
    ensures LabelFreeAfter(prevWord, r, kind)
  {
  }

  /** The step of `RemovedLeavesNoLabel` where a character is copied. */
  lemma CopiedCharLeavesNoLabel(t: string, kind: Kind, k: nat)
    requires k < |t| && LabelEnd(t, k, kind).None?
    requires OutputLabelFree(t, kind, k + 1)
    ensures OutputLabelFree(t, kind, k)
  {
    var prevWord := k > 0 && IsWordChar(t[k - 1]);
    var r := RemoveLabelsFrom(t, kind, k);
    var rest := RemoveLabelsFrom(t, kind, k + 1);
    CopiesChar(t, kind, k);
    forall p: nat | p < |r| && (if p == 0 then !prevWord else !IsWordChar(r[p - 1]))
      ensures LabelLength(r[p..], kind).None?
    {
      if p == 0 {
        NoLabelAtCopiedStart(t, kind, k);
      } else {
        LabelFreeCons(t[k], rest, r, kind, p);
      }
    }
  }

  /** Past its first character, `[c] + rest` has a label only where `rest`
      has one. */
  lemma LabelFreeCons(c: char, rest: string, r: string, kind: Kind, p: nat)
    requires r == [c] + rest && 0 < p < |r| && !IsWordChar(r[p - 1])
    requires LabelFreeAfter(IsWordChar(c), rest, kind)
    ensures LabelLength(r[p..], kind).None?
  {
    assert r[p..] == rest[p - 1..];
    assert r[p - 1] == if p == 1 then c else rest[p - 2];
  }

  /** Where the input has no label, the output has none either. */
  lemma NoLabelAtCopiedStart(t: string, kind: Kind, k: nat)
    requires k < |t| && LabelEnd(t, k, kind).None?
    requires AtBoundary(t, k)
    ensures LabelLength(RemoveLabelsFrom(t, kind, k), kind).None?
  {
    var len := LabelLength(RemoveLabelsFrom(t, kind, k), kind);
    if len.Some? {
      LabelStartsWordRun(t, kind, k);
      CopiedPrefix(t, kind, k, len.value - 1);
      CopiedLabel(t, kind, k, len.value);
    }
  }

  /** A label at the start of the output begins with a run of word
      characters. */
  lemma LabelStartsWordRun(t: string, kind: Kind, k: nat)
    requires k < |t| && LabelEnd(t, k, kind).None?
    requires LabelLength(RemoveLabelsFrom(t, kind, k), kind).Some?
    ensures LabelLength(RemoveLabelsFrom(t, kind, k), kind).value > 0
    ensures WordRun(t, kind, k, LabelLength(RemoveLabelsFrom(t, kind, k), kind).value - 1)
  {
    LabelIsWordChars(RemoveLabelsFrom(t, kind, k), kind);
  }

  /** A label at the start of a verbatim copy of `t[k..]` is a label at `k`. */
  lemma CopiedLabel(t: string, kind: Kind, k: nat, n: nat)
    requires 0 < n && CopiedVerbatim(t, kind, k, n - 1)
    requires LabelLength(RemoveLabelsFrom(t, kind, k), kind) == Some(n)
    ensures LabelLength(t[k..], kind) == Some(n)
  {
    var r := RemoveLabelsFrom(t, kind, k);
    assert r[..n] == t[k..k + n];
    assert t[k..][..n] == t[k..k + n];
    LabelLengthPrefix(r, t[k..], kind, n);
  }

  /** Trimming whitespace from a label-free text leaves it label-free: a label
      uncovered at the new start still had whitespace, a non-word character,
      before it. */
  lemma StripKeepsLabelFree(t: string, kind: Kind)
    requires NoLabelIn(t, kind, 0, |t|)
    ensures NoLabelIn(Strip(t), kind, 0, |Strip(t)|)
  {
    var lead := StripIsInfix(t);
    InfixKeepsLabelFree(t, Strip(t), lead, kind);
  }

  lemma InfixKeepsLabelFree(t: string, r: string, lead: nat, kind: Kind)
    requires SpaceAround(t, r, lead)
    requires NoLabelIn(t, kind, 0, |t|)
    ensures NoLabelIn(r, kind, 0, |r|)
  {
    forall p: nat | p < |r| ensures LabelEnd(r, p, kind).None? {
      InfixLabel(t, r, lead, p, kind);
    }
  }

  /** A label in the infix `r == t[lead..lead + |r|]`, where whitespace
      precedes the infix, is a label in `t`. */
  lemma InfixLabel(t: string, r: string, lead: nat, p: nat, kind: Kind)
    requires lead + |r| <= |t| && r == t[lead..lead + |r|]
    requires forall i :: 0 <= i < lead ==> IsSpace(t[i])
    requires p < |r| && LabelEnd(t, lead + p, kind).None?
    ensures LabelEnd(r, p, kind).None?
  {
    if AtBoundary(r, p) {
      var len := LabelLength(r[p..], kind);
      if len.Some? {
        var n := len.value;
        InfixSlice(t, r, lead, p, n);
        assert AtBoundary(t, lead + p) by {
          if p == 0 && lead > 0 {
            NotWordChars(t[lead - 1]);
          } else if p > 0 {
            assert t[lead + p - 1] == r[p - 1];
          }
        }
        LabelLengthPrefix(r[p..], t[lead + p..], kind, n);
      }
    }
  }

  lemma InfixSlice(t: string, r: string, lead: nat, p: nat, n: nat)
    requires lead + |r| <= |t| && r == t[lead..lead + |r|] && p + n <= |r|
    ensures r[p..][..n] == t[lead + p..][..n]
  {
    forall i | 0 <= i < n ensures r[p..][..n][i] == t[lead + p..][..n][i] {
      assert r[p + i] == t[lead + p + i];
    }
  }

  /** A matched section after cleanup: its labels removed and the result
      trimmed. */
  function Clean(group: string, kind: Kind): (r: string)
    ensures r != [] ==> !IsSpace(r[0]) && !IsSpace(r[|r| - 1])
  {
    Strip(RemoveLabels(group, kind))
  }

  /** A cleaned match holds no label of its kind. */
  lemma CleanIsLabelFree(group: string, kind: Kind)
    ensures NoLabelIn(Clean(group, kind), kind, 0, |Clean(group, kind)|)
  {
    var removed := RemoveLabels(group, kind);
    RemovedLeavesNoLabel(group, kind, 0);
    LabelFreeAtStart(removed, kind);
    StripKeepsLabelFree(removed, kind);
  }

  /** The usual case: a section whose only label of `kind` is the one it
      starts with is cleaned to the text after that label, trimmed. */
  lemma CleanSingleLabel(group: string, kind: Kind, a: nat)
    requires LabelEnd(group, 0, kind) == Some(a)
    requires NoLabelIn(group, kind, 1, |group|)
    ensures Clean(group, kind) == Strip(group[a..])
  {
    var removed := RemoveSingleLabel(group, kind, a);
    StripSkipsSpace(group, a, SkipSpace(group, a));
  }

  /** The substitution over such a section drops just its leading label and
      the whitespace after it. */
  lemma RemoveSingleLabel(group: string, kind: Kind, a: nat) returns (removed: string)
    requires LabelEnd(group, 0, kind) == Some(a)
    requires NoLabelIn(group, kind, 1, |group|)
    ensures removed == RemoveLabels(group, kind) == group[SkipSpace(group, a)..]
  {
    var b := SkipSpace(group, a);
    assert NoLabelIn(group, kind, b, |group|) by {
      forall p: nat | b <= p < |group| ensures LabelEnd(group, p, kind).None? {
        assert 1 <= p;
      }
    }
    RemoveLabelsFromIdentity(group, kind, b);
    removed := group[b..];
  }

  /** A section with a second label of its kind: both labels and the
      whitespace after each are dropped, and the text around the second label
      is joined into one piece. */
  lemma RemoveTwoLabels(group: string, kind: Kind, a0: nat, p: nat, a1: nat)
    requires LabelEnd(group, 0, kind) == Some(a0) && LabelEnd(group, p, kind) == Some(a1)
    requires SkipSpace(group, a0) <= p
    requires NoLabelIn(group, kind, SkipSpace(group, a0), p)
    requires NoLabelIn(group, kind, SkipSpace(group, a1), |group|)
    ensures RemoveLabels(group, kind) == group[SkipSpace(group, a0)..p] + group[SkipSpace(group, a1)..]
    ensures Clean(group, kind) == Strip(group[SkipSpace(group, a0)..p] + group[SkipSpace(group, a1)..])
  {
    SkipsLabel(group, kind, 0, a0);
    DropsNextLabel(group, kind, SkipSpace(group, a0), p, a1);
    RemoveLabelsFromIdentity(group, kind, SkipSpace(group, a1));
  }

  /** A label inside the section `s[p..q]` is a label of the whole text
      `s`, as long as `\b` holds in `s` where the section begins. */
  lemma SectionLabel(s: string, kind: Kind, p: nat, q: nat, i: nat)
    requires p <= q <= |s| && i < q - p && AtBoundary(s, p)
    requires LabelEnd(s[p..q], i, kind).Some?
    ensures LabelEnd(s, p + i, kind) == Some(p + LabelEnd(s[p..q], i, kind).value)
  {
    SectionBoundary(s, p, q, i);
    SectionLabelLength(s, kind, p, q, i);
  }

  lemma SectionBoundary(s: string, p: nat, q: nat, i: nat)
    requires p <= q <= |s| && i < q - p && AtBoundary(s, p) && AtBoundary(s[p..q], i)
    ensures AtBoundary(s, p + i)
  {
    if i > 0 {
      assert s[p + i - 1] == s[p..q][i - 1];
    }
  }

  lemma SectionLabelLength(s: string, kind: Kind, p: nat, q: nat, i: nat)
    requires p <= q <= |s| && i < q - p && LabelLength(s[p..q][i..], kind).Some?
    ensures LabelLength(s[p + i..], kind) == LabelLength(s[p..q][i..], kind)
  {
    var g := s[p..q];
    var n := LabelLength(g[i..], kind).value;
    InfixSlice(s, g, p, i, n);
    LabelLengthPrefix(g[i..], s[p + i..], kind, n);
  }

  /** A label of `s` at `p` that ends by `q` starts the section `s[p..q]`. */
  lemma SectionStartLabel(s: string, kind: Kind, p: nat, q: nat, a: nat)
    requires p <= q <= |s| && LabelEnd(s, p, kind) == Some(a) && a <= q
    ensures LabelEnd(s[p..q], 0, kind) == Some(a - p)
  {
    var g := s[p..q];
    var n := a - p;
    assert LabelLength(s[p..], kind) == Some(n);
    assert s[p..][..n] == g[..n];
    LabelLengthPrefix(s[p..], g, kind, n);
    assert g[0..] == g;
  }

  /** A section whose label is the only one of its kind in the text
      cleans to the stripped text after that label. */
  lemma CleanOnlyLabel(s: string, kind: Kind, p: nat, a: nat, q: nat)
    requires LabelEnd(s, p, kind) == Some(a) && a <= q <= |s|
    requires NoLabelIn(s, kind, p + 1, |s|)
    ensures Clean(s[p..q], kind) == Strip(s[a..q])
  {
    var g, n := s[p..q], a - p;
    assert AtBoundary(s, p);
    SectionStartLabel(s, kind, p, q, a);
    SectionHasOneLabel(s, kind, p, q);
    CleanSingleLabel(g, kind, n);
    InnerSlice(s, p, q, a);
  }

  /** Dropping the first `a - p` characters of `s[p..q]` leaves `s[a..q]`. */
  lemma InnerSlice(s: string, p: nat, q: nat, a: nat)
    requires p <= a <= q <= |s|
    ensures s[p..q][a - p..] == s[a..q]
  {
  }

  /** Past its first character, the section `s[p..q]` holds no label when
      `s` holds none after `p`. */
  lemma SectionHasOneLabel(s: string, kind: Kind, p: nat, q: nat)
    requires p < q <= |s| && AtBoundary(s, p)
    requires NoLabelIn(s, kind, p + 1, |s|)
    ensures NoLabelIn(s[p..q], kind, 1, q - p)
  {
    forall i: nat | 1 <= i < q - p ensures LabelEnd(s[p..q], i, kind).None? {
      if LabelEnd(s[p..q], i, kind).Some? {
        SectionLabel(s, kind, p, q, i);
        assert false;
      }
    }
  }

  /** A comment body with exactly one label of `kind`, at `p`, contributes
      at most one snippet: the text from the end of that label to the first
      label of the other kind (or the end of the body), trimmed, when
      something is left. */
  lemma SingleLabelSnippets(body: string, kind: Kind, p: nat, a: nat)
    requires LabelEnd(body, p, kind) == Some(a)
    requires NoLabelIn(body, kind, 0, p) && NoLabelIn(body, kind, p + 1, |body|)
    ensures var c := Strip(body[a..FirstStop(body, a, kind.Other())]);
      Snippets(body, kind) == if c == [] then [] else [c]
  {
    var q := FirstStop(body, a, kind.Other());
    SectionsSkip(body, kind, 0, p);
    SectionsSkip(body, kind, q, |body|);
    assert Sections(body, kind, 0) == [Span(p, q)];
    CleanOnlyLabel(body, kind, p, a, q);
    assert [Span(p, q)][..0] == [];
  }

  /** What every collected snippet looks like. */
  ghost predicate IsSnippet(x: string, kind: Kind) {
    && x != []
    && !IsSpace(x[0]) && !IsSpace(x[|x| - 1])
    && NoLabelIn(x, kind, 0, |x|)
  }

  /** The cleanup loop over the matches in `spans`, in order: each match is
      cleaned and kept when something is left. */
  function Kept(s: string, spans: seq<Span>, kind: Kind): (r: seq<string>)
    requires SpansWithin(s, spans)
    ensures |r| <= |spans|
  {
    if spans == [] then []
    else
      var last := spans[|spans| - 1];
      var c := Clean(s[last.start..last.end], kind);
      Kept(s, spans[..|spans| - 1], kind) + (if c == [] then [] else [c])
  }

  /** One more turn of the cleanup loop. */
  lemma KeptStep(s: string, spans: seq<Span>, k: nat, kind: Kind)
    requires k < |spans| && SpansWithin(s, spans)
    ensures SpansWithin(s, spans[..k]) && SpansWithin(s, spans[..k + 1])
    ensures var c := Clean(s[spans[k].start..spans[k].end], kind);
      Kept(s, spans[..k + 1], kind) == Kept(s, spans[..k], kind) + (if c == [] then [] else [c])
  {
    assert spans[..k + 1][..k] == spans[..k];
  }

  /** Everything the cleanup loop keeps is a snippet: not empty, trimmed, and
      free of labels of its kind. */
  lemma {:induction false} KeptAreSnippets(s: string, spans: seq<Span>, kind: Kind)
    requires SpansWithin(s, spans)
    ensures forall i :: 0 <= i < |Kept(s, spans, kind)| ==> IsSnippet(Kept(s, spans, kind)[i], kind)
  {
    if spans != [] {
      var last := spans[|spans| - 1];
      var c := Clean(s[last.start..last.end], kind);
      var done := Kept(s, spans[..|spans| - 1], kind);
      KeptAreSnippets(s, spans[..|spans| - 1], kind);
      if c != [] {
        CleanIsLabelFree(s[last.start..last.end], kind);
        assert IsSnippet(c, kind);
        assert Kept(s, spans, kind) == done + [c];
      }
    }
  }

  /** The snippets of `kind` that one comment body contributes: the cleaned,
      non-empty matches of the pattern for `kind`, in order. */
  function Snippets(body: string, kind: Kind): (r: seq<string>)
    ensures |r| <= |Sections(body, kind, 0)|
  {
    Kept(body, Sections(body, kind, 0), kind)
  }

  /** Every snippet is non-empty, trimmed and label-free. */
  lemma SnippetsAreSnippets(body: string, kind: Kind)
    ensures forall i :: 0 <= i < |Snippets(body, kind)| ==> IsSnippet(Snippets(body, kind)[i], kind)
  {
    KeptAreSnippets(body, Sections(body, kind, 0), kind);
  }

  /** A body without a label of `kind` contributes no snippet of `kind`. */
  lemma NoLabelNoSnippets(body: string, kind: Kind)
    requires NoLabelIn(body, kind, 0, |body|)
    ensures Snippets(body, kind) == []
  {
    SectionsEmptyIff(body, kind);
  }
}
