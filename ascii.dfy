/**
 * The character classes the two label patterns rely on, fixed to ASCII:
 * `\w` (for `\b`), `\s` and `str.strip()`'s whitespace, and the case folding
 * used by `re.IGNORECASE`.
 */
module Ascii {
  /** `\w` on ASCII: letters, digits and underscore. */
  predicate IsWordChar(c: char) {
    ('a' <= c <= 'z') || ('A' <= c <= 'Z') || ('0' <= c <= '9') || c == '_'
  }

  /** Whitespace as both `\s` and `str.isspace` see it among ASCII characters:
      tab, line feed, vertical tab, form feed, carriage return, the four
      information separators 0x1C to 0x1F, and space. */
  predicate IsSpace(c: char) {
    (9 <= c as int <= 13) || (28 <= c as int <= 31) || c == ' '
  }

  /** Whitespace and the colon that ends a label are not word characters, so
      `\b` holds in front of whatever follows them. */
  lemma NotWordChars(c: char)
    requires IsSpace(c) || c == ':'
    ensures !IsWordChar(c)
  {
  }

  /** Case folding of one character: upper-case ASCII letters to lower case. */
  function Lower(c: char): (r: char)
    ensures IsWordChar(r) <==> IsWordChar(c)
    ensures 'a' <= r <= 'z' <==> ('a' <= c <= 'z' || 'A' <= c <= 'Z')
    ensures 'A' <= c <= 'Z' ==> r as int == c as int + 32
    ensures !('A' <= c <= 'Z') ==> r == c
  {
    if 'A' <= c <= 'Z' then (c as int + 32) as char else c
  }

  /** Drops leading whitespace: the result is a suffix of `t` that does not
      start with whitespace. */
  function StripStart(t: string): (r: string)
    ensures |r| <= |t| && r == t[|t| - |r|..]
    ensures r == [] || !IsSpace(r[0])
  {
    if t != [] && IsSpace(t[0]) then StripStart(t[1..]) else t
  }

  /** Everything `StripStart` drops is whitespace. */
  lemma {:induction false} StripStartDropsSpace(t: string)
    ensures forall i :: 0 <= i < |t| - |StripStart(t)| ==> IsSpace(t[i])
  {
    if t != [] && IsSpace(t[0]) {
      StripStartDropsSpace(t[1..]);
      forall i | 1 <= i < |t| - |StripStart(t)| ensures IsSpace(t[i]) {
        assert t[i] == t[1..][i - 1];
      }
    }
  }

  /** Drops trailing whitespace: the result is a prefix of `t` that does not
      end with whitespace. */
  function StripEnd(t: string): (r: string)
    ensures |r| <= |t| && r == t[..|r|]
    ensures r == [] || !IsSpace(r[|r| - 1])
  {
    if t != [] && IsSpace(t[|t| - 1]) then StripEnd(t[..|t| - 1]) else t
  }

  /** Everything `StripEnd` drops is whitespace. */
  lemma {:induction false} StripEndDropsSpace(t: string)
    ensures forall i :: |StripEnd(t)| <= i < |t| ==> IsSpace(t[i])
  {
    if t != [] && IsSpace(t[|t| - 1]) {
      StripEndDropsSpace(t[..|t| - 1]);
      forall i | |StripEnd(t)| <= i < |t| - 1 ensures IsSpace(t[i]) {
        assert t[i] == t[..|t| - 1][i];
      }
    }
  }

  /** `str.strip()`: when something is left, it neither starts nor ends with
      whitespace. */
  function Strip(t: string): (r: string)
    ensures r != [] ==> !IsSpace(r[0]) && !IsSpace(r[|r| - 1])
    ensures |r| <= |t|
  {
    StripEnd(StripStart(t))
  }

  /** `r` is the infix of `t` that starts at `lead`, and only whitespace
      lies around it. */
  ghost predicate SpaceAround(t: string, r: string, lead: nat) {
    && lead + |r| <= |t| && r == t[lead..lead + |r|]
    && (forall i :: 0 <= i < lead ==> IsSpace(t[i]))
    && (forall i :: lead + |r| <= i < |t| ==> IsSpace(t[i]))
  }

  /** Stripping cuts `t` into leading whitespace, the result, and trailing
      whitespace; `lead` is the length of the leading part. */
  lemma StripIsInfix(t: string) returns (lead: nat)
    ensures SpaceAround(t, Strip(t), lead)
  {
    var u := StripStart(t);
    lead := |t| - |u|;
    StripStartDropsSpace(t);
    var r := StripEnd(u);
    StripEndDropsSpace(u);
    PrefixOfSuffix(t, u, r, lead);
    assert r == Strip(t);
  }

  /** A prefix `r` of the suffix `u == t[lead..]` is the infix
      `t[lead..lead + |r|]`, and what follows it in `u` follows it in `t`. */
  lemma PrefixOfSuffix(t: string, u: string, r: string, lead: nat)
    requires lead <= |t| && u == t[lead..] && |r| <= |u| && r == u[..|r|]
    requires forall i :: 0 <= i < lead ==> IsSpace(t[i])
    requires forall i :: |r| <= i < |u| ==> IsSpace(u[i])
    ensures SpaceAround(t, r, lead)
  {
    forall i | lead + |r| <= i < |t| ensures IsSpace(t[i]) {
      assert t[i] == u[i - lead];
    }
  }

  /** `str.strip()` gives the empty string exactly for all-whitespace text. */
  lemma StripEmptyIff(t: string)
    ensures Strip(t) == [] <==> forall i :: 0 <= i < |t| ==> IsSpace(t[i])
  {
    var lead := StripIsInfix(t);
    if Strip(t) != [] {
      assert !IsSpace(t[lead]);
    }
  }

  /** `str.strip()` keeps exactly the stretch from the first to the last
      character that is not whitespace. */
  lemma StripBetween(t: string, a: nat, b: nat)
    requires a < b <= |t| && !IsSpace(t[a]) && !IsSpace(t[b - 1])
    requires forall i :: 0 <= i < a ==> IsSpace(t[i])
    requires forall i :: b <= i < |t| ==> IsSpace(t[i])
    ensures Strip(t) == t[a..b]
  {
    var lead := StripIsInfix(t);
    var r := Strip(t);
    StripEmptyIff(t);
    assert r != [];
    assert lead == a;
    assert lead + |r| == b;
  }

  /** Leading whitespace makes no difference to `str.strip()`: stripping
      `t[a..]` and `t[b..]` agree when only whitespace lies between. */
  lemma {:induction false} StripSkipsSpace(t: string, a: nat, b: nat)
    requires a <= b <= |t| && forall q :: a <= q < b ==> IsSpace(t[q])
    ensures Strip(t[a..]) == Strip(t[b..])
    decreases b - a
  {
    if a < b {
      assert t[a..][1..] == t[a + 1..];
      assert StripStart(t[a..]) == StripStart(t[a + 1..]);
      StripSkipsSpace(t, a + 1, b);
    }
  }
}
