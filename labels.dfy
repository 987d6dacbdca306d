/**
 * The two section patterns of the comment classifier, as a hand-written
 * scanner. With `re.IGNORECASE | re.DOTALL` the highlight pattern is
 *
 *   a word-boundary `highlight:` or `highlights:` label, whitespace, a lazy
 *   body, whitespace, and then a lookahead for a word-boundary `lowlight:` /
 *   `lowlights:` label or the end of the text,
 *
 * and the lowlight pattern is its mirror image. Because a lookahead target is
 * never whitespace, the lazy body and the two whitespace runs always end the
 * match at the FIRST such target at or after the label: that position is
 * what `FirstStop` computes. `re.finditer` then takes the leftmost label at
 * or after the end of the previous match, which is what `Sections` does.
 */
module Labels {
  import opened Options
  import opened Ascii

  /** Which of the two section kinds a pattern extracts. */
  datatype Kind = Highlight | Lowlight {
    /** The label word, in lower case. */
    function Word(): string {
      match this
      case Highlight => "highlight"
      case Lowlight => "lowlight"
    }

    /** The kind whose label ends a section of this kind. */
    function Other(): Kind {
      match this
      case Highlight => Lowlight
      case Lowlight => Highlight
    }
  }

  /** A match as `re.finditer` reports it: `s[start..end]` is `match.group(0)`. */
  datatype Span = Span(start: nat, end: nat)

  /** `u` begins with `w` up to ASCII case (`w` is in lower case). */
  predicate FoldedPrefix(u: string, w: string) {
    |w| == 0 || (|u| > 0 && Lower(u[0]) == w[0] && FoldedPrefix(u[1..], w[1..]))
  }

  lemma {:induction false} FoldedPrefixAt(u: string, w: string)
    requires FoldedPrefix(u, w)
    ensures |w| <= |u|
    ensures forall j :: 0 <= j < |w| ==> Lower(u[j]) == w[j]
    decreases |w|
  {
    if |w| > 0 {
      FoldedPrefixAt(u[1..], w[1..]);
      forall j | 0 < j < |w| ensures Lower(u[j]) == w[j] {
        assert u[j] == u[1..][j - 1];
      }
    }
  }

  /** `u` begins with `w` up to case when its first `|w|` characters fold
      to those of `w`. */
  lemma {:induction false} FoldedPrefixFrom(u: string, w: string)
    requires |w| <= |u|
    requires forall j :: 0 <= j < |w| ==> Lower(u[j]) == w[j]
    ensures FoldedPrefix(u, w)
    decreases |w|
  {
    if |w| > 0 {
      forall j | 0 <= j < |w| - 1 ensures Lower(u[1..][j]) == w[1..][j] {
        assert u[1..][j] == u[j + 1];
      }
      FoldedPrefixFrom(u[1..], w[1..]);
    }
  }

  /** A label begins at `p` when `\b` holds there and the label word, in any
      case, is followed by a colon. */
  lemma LabelAt(s: string, p: nat, kind: Kind)
    requires p + |kind.Word()| < |s| && AtBoundary(s, p)
    requires forall j :: 0 <= j < |kind.Word()| ==> Lower(s[p + j]) == kind.Word()[j]
    requires s[p + |kind.Word()|] == ':'
    ensures LabelEnd(s, p, kind) == Some(p + |kind.Word()| + 1)
  {
    var u := s[p..];
    forall j | 0 <= j < |kind.Word()| ensures Lower(u[j]) == kind.Word()[j] {
      assert u[j] == s[p + j];
    }
    FoldedPrefixFrom(u, kind.Word());
    assert u[|kind.Word()|] == ':';
  }

  /** No label begins at a character that does not fold to the first letter
      of the label word. */
  lemma NoLabelAtOtherLetter(s: string, p: nat, kind: Kind)
    requires p < |s| && Lower(s[p]) != kind.Word()[0]
    ensures LabelEnd(s, p, kind).None?
  {
    assert s[p..][0] == s[p];
  }

  /** Whether `u` starts with `w` depends only on the first `|w|` characters. */
  lemma {:induction false} FoldedPrefixSame(u: string, v: string, w: string)
    requires |w| <= |u| && |w| <= |v| && u[..|w|] == v[..|w|]
    requires FoldedPrefix(u, w)
    ensures FoldedPrefix(v, w)
    decreases |w|
  {
    if |w| > 0 {
      assert u[0] == u[..|w|][0] == v[..|w|][0] == v[0];
      assert u[1..][..|w| - 1] == u[..|w|][1..] == v[..|w|][1..] == v[1..][..|w| - 1];
      FoldedPrefixSame(u[1..], v[1..], w[1..]);
    }
  }

  /** Every character of a label word is a lower-case letter. */
  lemma WordIsLetters(kind: Kind)
    ensures forall j :: 0 <= j < |kind.Word()| ==> 'a' <= kind.Word()[j] <= 'z'
  {
  }

  /** The label `word:` or `words:` (the `s` in any case) at the start of `u`,
      ignoring the word boundary before it; the result is its length. */
  function LabelLength(u: string, kind: Kind): (r: Option<nat>)
    ensures r.Some? ==> |kind.Word()| < r.value <= |u| && u[r.value - 1] == ':'
  {
    var n := |kind.Word()|;
    if !FoldedPrefix(u, kind.Word()) then None
    else if n < |u| && u[n] == ':' then Some(n + 1)
    else if n + 1 < |u| && Lower(u[n]) == 's' && u[n + 1] == ':' then Some(n + 2)
    else None
  }

  /** Exactly these texts are labels: the label word in any case, an
      optional `s` in any case, and a colon. */
  lemma LabelLengthIff(u: string, kind: Kind, n: nat)
    ensures var w := kind.Word();
      LabelLength(u, kind) == Some(n) <==>
        && |w| < n <= |u| && u[n - 1] == ':'
        && (forall j :: 0 <= j < |w| ==> Lower(u[j]) == w[j])
        && (n == |w| + 1 || (n == |w| + 2 && Lower(u[|w|]) == 's'))
  {
    var w := kind.Word();
    if LabelLength(u, kind) == Some(n) {
      FoldedPrefixAt(u, w);
    }
    if |w| < n <= |u| && forall j :: 0 <= j < |w| ==> Lower(u[j]) == w[j] {
      FoldedPrefixFrom(u, w);
    }
  }

  /** A label of `kind` ends at `a` exactly when `\b` holds at `p` and the
      text from `p` to `a` is the label word in any case, an optional `s` in
      any case, and a colon. */
  lemma LabelEndIff(s: string, p: nat, kind: Kind, a: nat)
    ensures var w := kind.Word();
      LabelEnd(s, p, kind) == Some(a) <==>
        && p + |w| < a <= |s| && AtBoundary(s, p) && s[a - 1] == ':'
        && (forall j :: 0 <= j < |w| ==> Lower(s[p + j]) == w[j])
        && (a == p + |w| + 1 || (a == p + |w| + 2 && Lower(s[p + |w|]) == 's'))
  {
    var w := kind.Word();
    if p < a <= |s| {
      var u := s[p..];
      LabelLengthIff(u, kind, a - p);
      if p + |w| < a {
        assert u[a - p - 1] == s[a - 1];
        assert u[|w|] == s[p + |w|];
        forall j | 0 <= j < |w| ensures u[j] == s[p + j] {
        }
      }
    }
  }

  /** The plural form is a label too: `\b`, the label word in any case, an
      `s` in any case and a colon. */
  lemma PluralLabelAt(s: string, p: nat, kind: Kind)
    requires p + |kind.Word()| + 1 < |s| && AtBoundary(s, p)
    requires forall j :: 0 <= j < |kind.Word()| ==> Lower(s[p + j]) == kind.Word()[j]
    requires Lower(s[p + |kind.Word()|]) == 's' && s[p + |kind.Word()| + 1] == ':'
    ensures LabelEnd(s, p, kind) == Some(p + |kind.Word()| + 2)
  {
    LabelEndIff(s, p, kind, p + |kind.Word()| + 2);
  }

  /** Everything in a label before its colon is a letter. */
  lemma LabelIsWordChars(u: string, kind: Kind)
    requires LabelLength(u, kind).Some?
    ensures forall j :: 0 <= j < LabelLength(u, kind).value - 1 ==> IsWordChar(u[j])
  {
    FoldedPrefixAt(u, kind.Word());
    WordIsLetters(kind);
  }

  /** A label is recognised from its first characters alone. */
  lemma LabelLengthPrefix(u: string, v: string, kind: Kind, n: nat)
    requires LabelLength(u, kind) == Some(n)
    requires n <= |v| && u[..n] == v[..n]
    ensures LabelLength(v, kind) == Some(n)
  {
    var w := kind.Word();
    assert u[..|w|] == u[..n][..|w|] == v[..n][..|w|] == v[..|w|];
    FoldedPrefixSame(u, v, w);
    assert u[|w|] == u[..n][|w|] == v[..n][|w|] == v[|w|];
    if n == |w| + 2 {
      assert u[|w| + 1] == u[..n][|w| + 1] == v[..n][|w| + 1] == v[|w| + 1];
    }
  }

  /** The two label words differ in their first letter, so no position starts
      a label of both kinds; in particular a label of `kind` is never a stop
      for a match of `kind`, and a later label of the same kind does not end
      a match. */
  lemma OwnLabelIsNoStop(s: string, p: nat, kind: Kind)
    requires p < |s| && LabelEnd(s, p, kind).Some?
    ensures LabelEnd(s, p, kind.Other()).None?
    ensures !IsStop(s, p, kind.Other())
  {
    if LabelEnd(s, p, kind.Other()).Some? {
      FoldedPrefixAt(s[p..], kind.Word());
      FoldedPrefixAt(s[p..], kind.Other().Word());
      assert false;
    }
  }

  /** `\b` in front of a label: the label starts with a word character, so
      the boundary holds when nothing or a non-word character precedes it. */
  predicate AtBoundary(s: string, p: nat)
    requires p <= |s|
  {
    p == 0 || !IsWordChar(s[p - 1])
  }

  /** The end of a label of `kind` beginning at position `p` of `s`, if there
      is one there. */
  function LabelEnd(s: string, p: nat, kind: Kind): (r: Option<nat>)
    ensures r.Some? ==> p < r.value <= |s| && s[r.value - 1] == ':'
  {
    if p < |s| && AtBoundary(s, p) then
      match LabelLength(s[p..], kind)
      case Some(n) => Some(p + n)
      case None => None
    else None
  }

  /** No label of `kind` begins anywhere in `[lo, hi)`. */
  ghost predicate NoLabelIn(s: string, kind: Kind, lo: nat, hi: nat) {
    forall p: nat :: lo <= p < hi ==> LabelEnd(s, p, kind).None?
  }

  /** A position where the lookahead of a section of the other kind succeeds:
      the end of the text (`\Z`) or a label of `kind`. */
  predicate IsStop(s: string, p: nat, kind: Kind) {
    p == |s| || LabelEnd(s, p, kind).Some?
  }

  /** The first stop at or after `from`. */
  function FirstStop(s: string, from: nat, kind: Kind): (e: nat)
    requires from <= |s|
    ensures from <= e <= |s| && IsStop(s, e, kind)
    ensures forall q: nat :: from <= q < e ==> !IsStop(s, q, kind)
    decreases |s| - from
  {
    if from == |s| || LabelEnd(s, from, kind).Some? then from
    else FirstStop(s, from + 1, kind)
  }

  /** The first stop is the only stop that no earlier stop precedes. */
  lemma FirstStopUnique(s: string, from: nat, kind: Kind, p: nat)
    requires from <= p <= |s| && IsStop(s, p, kind)
    requires forall q: nat :: from <= q < p ==> !IsStop(s, q, kind)
    ensures p == FirstStop(s, from, kind)
  {
  }

  /** One match of the pattern for `kind`: a label at `start`, and `end` the
      first label of the other kind (or the end of the text) from the end of
      that label on. Labels of `kind` itself do not end the match. */
  ghost predicate IsMatch(s: string, kind: Kind, sp: Span) {
    match LabelEnd(s, sp.start, kind)
    case None => false
    case Some(a) =>
      && a <= sp.end <= |s|
      && IsStop(s, sp.end, kind.Other())
      && (forall q: nat :: a <= q < sp.end ==> !IsStop(s, q, kind.Other()))
  }

  /** Where the search for match `k` begins: `from`, then the end of the
      previous match. */
  function GapStart(from: nat, spans: seq<Span>, k: nat): nat
    requires k <= |spans|
  {
    if k == 0 then from else spans[k - 1].end
  }

  /** Where match `k` begins, or the end of the text after the last match. */
  function GapEnd(s: string, spans: seq<Span>, k: nat): nat
    requires k <= |spans|
  {
    if k < |spans| then spans[k].start else |s|
  }

  /** `spans` is what `re.finditer` yields when it scans `s` from `from`: every
      span is a match, each is searched for from the end of the previous one,
      and no label of `kind` begins in the gaps between them (so each match is
      the leftmost one and none is missed). */
  ghost predicate MatchesFrom(s: string, kind: Kind, from: nat, spans: seq<Span>) {
    && (forall k: nat :: k < |spans| ==> IsMatch(s, kind, spans[k]))
    && (forall k: nat {:trigger GapStart(from, spans, k)} :: k < |spans| ==>
          GapStart(from, spans, k) <= spans[k].start)
    && (forall k: nat {:trigger GapStart(from, spans, k)} :: k <= |spans| ==>
          NoLabelIn(s, kind, GapStart(from, spans, k), GapEnd(s, spans, k)))
  }

  /** Every span lies within the text. */
  predicate SpansWithin(s: string, spans: seq<Span>) {
    forall k :: 0 <= k < |spans| ==> spans[k].start <= spans[k].end <= |s|
  }


  /** Starting the search one position earlier, where no label begins,
      yields the same matches. */
  lemma MatchesFromEarlier(s: string, kind: Kind, from: nat, spans: seq<Span>)
    requires from < |s| && LabelEnd(s, from, kind).None?
    requires MatchesFrom(s, kind, from + 1, spans)
    ensures MatchesFrom(s, kind, from, spans)
  {
    forall k: nat | k < |spans|
      ensures IsMatch(s, kind, spans[k]) && GapStart(from, spans, k) <= spans[k].start
    {
      assert IsMatch(s, kind, spans[k]) && GapStart(from + 1, spans, k) <= spans[k].start;
    }
    forall k: nat | k <= |spans|
      ensures NoLabelIn(s, kind, GapStart(from, spans, k), GapEnd(s, spans, k))
    {
      var hi := GapEnd(s, spans, k);
      assert NoLabelIn(s, kind, GapStart(from + 1, spans, k), hi);
      if k == 0 {
        forall p: nat | from <= p < hi ensures LabelEnd(s, p, kind).None? {
          if p != from {
            assert from + 1 <= p < hi;
          }
        }
      }
    }
  }

  /** A match at `from` followed by the matches found from its end. */
  lemma MatchesFromCons(s: string, kind: Kind, from: nat, sp: Span, rest: seq<Span>)
    requires sp.start == from && IsMatch(s, kind, sp)
    requires MatchesFrom(s, kind, sp.end, rest)
    ensures MatchesFrom(s, kind, from, [sp] + rest)
  {
    var spans := [sp] + rest;
    forall k: nat | k < |spans|
      ensures IsMatch(s, kind, spans[k]) && GapStart(from, spans, k) <= spans[k].start
    {
      if k > 0 {
        ConsShift(from, sp, rest, k);
        assert IsMatch(s, kind, rest[k - 1]) && GapStart(sp.end, rest, k - 1) <= rest[k - 1].start;
      }
    }
    forall k: nat | k <= |spans|
      ensures NoLabelIn(s, kind, GapStart(from, spans, k), GapEnd(s, spans, k))
    {
      if k > 0 {
        ConsShift(from, sp, rest, k);
        assert GapEnd(s, spans, k) == GapEnd(s, rest, k - 1);
        assert NoLabelIn(s, kind, GapStart(sp.end, rest, k - 1), GapEnd(s, rest, k - 1));
      }
    }
  }

  lemma ConsShift(from: nat, sp: Span, rest: seq<Span>, k: nat)
    requires 0 < k <= |rest| + 1
    ensures k < |rest| + 1 ==> ([sp] + rest)[k] == rest[k - 1]
    ensures GapStart(from, [sp] + rest, k) == GapStart(sp.end, rest, k - 1)
  {
  }

  /** The matches after the first are the matches found from its end. */
  lemma MatchesFromTail(s: string, kind: Kind, from: nat, spans: seq<Span>)
    requires spans != [] && MatchesFrom(s, kind, from, spans)
    ensures spans[0].end <= |s|
    ensures MatchesFrom(s, kind, spans[0].end, spans[1..])
  {
    assert IsMatch(s, kind, spans[0]);
    var rest := spans[1..];
    forall k: nat | k <= |rest|
      ensures GapStart(spans[0].end, rest, k) == GapStart(from, spans, k + 1)
      ensures GapEnd(s, rest, k) == GapEnd(s, spans, k + 1)
    {
    }
    forall k: nat | k < |rest|
      ensures IsMatch(s, kind, rest[k]) && GapStart(spans[0].end, rest, k) <= rest[k].start
    {
      assert rest[k] == spans[k + 1];
      assert GapStart(from, spans, k + 1) <= spans[k + 1].start;
    }
    forall k: nat | k <= |rest|
      ensures NoLabelIn(s, kind, GapStart(spans[0].end, rest, k), GapEnd(s, rest, k))
    {
      assert NoLabelIn(s, kind, GapStart(from, spans, k + 1), GapEnd(s, spans, k + 1));
    }
  }

  /** The scanner behind `re.finditer(pattern, s)`, started at `from`: find
      the next label of `kind`, run to the first label of the other kind or
      the end of the text, and continue from there. */
  function Sections(s: string, kind: Kind, from: nat): (spans: seq<Span>)
    requires from <= |s|
    ensures SpansWithin(s, spans)
    decreases |s| - from
  {
    if from == |s| then []
    else
      match LabelEnd(s, from, kind)
      case None => Sections(s, kind, from + 1)
      case Some(a) => [Span(from, FirstStop(s, a, kind.Other()))] + Sections(s, kind, FirstStop(s, a, kind.Other()))
  }

  /** The scanner passes over a stretch where no label of `kind` begins. */
  lemma {:induction false} SectionsSkip(s: string, kind: Kind, from: nat, p: nat)
    requires from <= p <= |s| && NoLabelIn(s, kind, from, p)
    ensures Sections(s, kind, from) == Sections(s, kind, p)
    decreases p - from
  {
    if from < p {
      assert LabelEnd(s, from, kind).None?;
      SectionsStep(s, kind, from);
      SectionsSkip(s, kind, from + 1, p);
    }
  }

  /** One position without a label is passed over. */
  lemma SectionsStep(s: string, kind: Kind, from: nat)
    requires from < |s| && LabelEnd(s, from, kind).None?
    ensures Sections(s, kind, from) == Sections(s, kind, from + 1)
  {
  }

  /** What `Sections` yields is what `re.finditer` yields. */
  lemma {:induction false} SectionsMatch(s: string, kind: Kind, from: nat)
    requires from <= |s|
    ensures MatchesFrom(s, kind, from, Sections(s, kind, from))
    decreases |s| - from
  {
    if from < |s| {
      match LabelEnd(s, from, kind)
      case None =>
        SectionsMatch(s, kind, from + 1);
        MatchesFromEarlier(s, kind, from, Sections(s, kind, from + 1));
      case Some(a) =>
        var e := FirstStop(s, a, kind.Other());
        SectionsMatch(s, kind, e);
        MatchesFromCons(s, kind, from, Span(from, e), Sections(s, kind, e));
    }
  }

  /** The first match, if any, starts at the first label at or after `from`
      and ends at the first stop after that label; there is none exactly when
      no label of `kind` follows `from`. */
  lemma MatchHead(s: string, kind: Kind, from: nat, spans: seq<Span>)
    requires from <= |s| && MatchesFrom(s, kind, from, spans)
    ensures spans == [] <==> NoLabelIn(s, kind, from, |s|)
    ensures spans != [] ==>
      && spans[0].start == FirstStop(s, from, kind)
      && LabelEnd(s, spans[0].start, kind).Some?
      && spans[0].end == FirstStop(s, LabelEnd(s, spans[0].start, kind).value, kind.Other())
  {
    assert NoLabelIn(s, kind, GapStart(from, spans, 0), GapEnd(s, spans, 0));
    if spans != [] {
      var sp := spans[0];
      assert IsMatch(s, kind, sp);
      var a := LabelEnd(s, sp.start, kind).value;
      FirstStopUnique(s, from, kind, sp.start);
      FirstStopUnique(s, a, kind.Other(), sp.end);
    }
  }

  /** Two sequences of matches from the same position agree on whether there
      is a first match, and on what it is. */
  lemma SameFirstMatch(s: string, kind: Kind, from: nat, xs: seq<Span>, ys: seq<Span>)
    requires from <= |s|
    requires MatchesFrom(s, kind, from, xs) && MatchesFrom(s, kind, from, ys)
    ensures xs == [] <==> ys == []
    ensures xs != [] && ys != [] ==> xs[0] == ys[0]
  {
    MatchHead(s, kind, from, xs);
    MatchHead(s, kind, from, ys);
  }

  /** `MatchesFrom` pins the matches down completely: `Sections` is the only
      sequence of spans that satisfies it. */
  lemma {:induction false} MatchesFromUnique(s: string, kind: Kind, from: nat, xs: seq<Span>, ys: seq<Span>)
    requires from <= |s|
    requires MatchesFrom(s, kind, from, xs) && MatchesFrom(s, kind, from, ys)
    ensures xs == ys
    decreases |xs|
  {
    SameFirstMatch(s, kind, from, xs, ys);
    if xs != [] && ys != [] {
      MatchesFromTail(s, kind, from, xs);
      MatchesFromTail(s, kind, from, ys);
      MatchesFromUnique(s, kind, xs[0].end, xs[1..], ys[1..]);
      assert xs == [xs[0]] + xs[1..];
      assert ys == [ys[0]] + ys[1..];
    }
  }

  /** The spans `re.finditer` yields for the pattern of `kind` over `s`. */
  lemma SectionsCharacterized(s: string, kind: Kind, spans: seq<Span>)
    ensures MatchesFrom(s, kind, 0, spans) <==> spans == Sections(s, kind, 0)
  {
    SectionsMatch(s, kind, 0);
    if MatchesFrom(s, kind, 0, spans) {
      MatchesFromUnique(s, kind, 0, spans, Sections(s, kind, 0));
    }
  }

  /** A text yields no section of `kind` exactly when it holds no label of
      `kind`. */
  lemma SectionsEmptyIff(s: string, kind: Kind)
    ensures Sections(s, kind, 0) == [] <==> NoLabelIn(s, kind, 0, |s|)
  {
    SectionsMatch(s, kind, 0);
    MatchHead(s, kind, 0, Sections(s, kind, 0));
  }
}
