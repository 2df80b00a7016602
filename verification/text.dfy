/** ASCII text handling shared by the header and date-time parsers:
    Python's `str.isspace`, `str.lower` and `str.strip`, and the `\s`
    character class, restricted to ASCII. */
module Text {
  /** `str.isspace` on ASCII characters, which is also what `\s` matches. */
  predicate IsSpace(c: char) {
    c == ' ' || '\t' <= c <= '\r' || '\U{1C}' <= c <= '\U{1F}'
  }

  /** Every character of `s` from index `a` up to `b` is whitespace. */
  predicate SpacesIn(s: string, a: nat, b: nat)
    requires a <= b <= |s|
  {
    forall m :: a <= m < b ==> IsSpace(s[m])
  }

  /** `str.lower` on ASCII letters; every other character is unchanged. */
  function Lower(c: char): char {
    if 'A' <= c <= 'Z' then (c as int + 32) as char else c
  }

  /** `s.lower()`: no upper-case ASCII letter remains, and every other
      character is kept in place. */
  function LowerText(s: string): (t: string)
    ensures |t| == |s|
    ensures forall m :: 0 <= m < |t| ==> !('A' <= t[m] <= 'Z')
    ensures forall m :: 0 <= m < |s| && !('A' <= s[m] <= 'Z') ==> t[m] == s[m]
    ensures forall m :: 0 <= m < |s| && 'A' <= s[m] <= 'Z' ==> t[m] != s[m] && Lower(t[m]) == t[m]
  {
    seq(|s|, m requires 0 <= m < |s| => Lower(s[m]))
  }

  /** Lowering is idempotent: a lowered text is its own lower case. */
  lemma LowerTextIdempotent(s: string)
    ensures LowerText(LowerText(s)) == LowerText(s)
  {
  }

  /** Two texts lower to the same text exactly when they agree up to the
      case of ASCII letters. */
  lemma LowerTextCaseless(s: string, u: string)
    ensures LowerText(s) == LowerText(u) <==>
              |s| == |u| && forall m :: 0 <= m < |s| ==> Lower(s[m]) == Lower(u[m])
  {
    if |s| == |u| && forall m :: 0 <= m < |s| ==> Lower(s[m]) == Lower(u[m]) {
      assert forall m :: 0 <= m < |s| ==> LowerText(s)[m] == LowerText(u)[m];
    }
  }

  /** End of the run of whitespace that starts at `from`. */
  function SpaceEnd(s: string, from: nat): (n: nat)
    requires from <= |s|
    ensures from <= n <= |s| && SpacesIn(s, from, n)
    ensures n < |s| ==> !IsSpace(s[n])
    decreases |s| - from
  {
    if from == |s| || !IsSpace(s[from]) then from
    else SpaceEnd(s, from + 1)
  }

  /** `str.strip`. */
  function Strip(s: string): (t: string)
    ensures |t| <= |s|
    ensures |t| > 0 ==> !IsSpace(t[0]) && !IsSpace(t[|t| - 1])
    ensures |s| > 0 && !IsSpace(s[0]) && !IsSpace(s[|s| - 1]) ==> t == s
    ensures SpacesIn(s, 0, |s|) ==> t == []
    decreases |s|
  {
    if |s| > 0 && IsSpace(s[0]) then Strip(s[1..])
    else if |s| > 0 && IsSpace(s[|s| - 1]) then Strip(s[..|s| - 1])
    else s
  }

  /** `t` is `s[a..b]` with only whitespace around it. */
  predicate TrimmedAt(s: string, t: string, a: nat, b: nat) {
    a <= b <= |s| && t == s[a..b] && SpacesIn(s, 0, a) && SpacesIn(s, b, |s|)
  }

  /** `str.strip` removes blank ends and nothing else: its result is a
      slice of the input with only whitespace before and after it. */
  lemma {:induction false} StripTrims(s: string)
    ensures exists a: nat, b: nat :: TrimmedAt(s, Strip(s), a, b)
    decreases |s|
  {
    if |s| > 0 && IsSpace(s[0]) {
      StripTrims(s[1..]);
      var a: nat, b: nat :| TrimmedAt(s[1..], Strip(s[1..]), a, b);
      TrimmedFront(s, Strip(s[1..]), a, b);
      assert TrimmedAt(s, Strip(s), a + 1, b + 1);
    } else if |s| > 0 && IsSpace(s[|s| - 1]) {
      StripTrims(s[..|s| - 1]);
      var a: nat, b: nat :| TrimmedAt(s[..|s| - 1], Strip(s[..|s| - 1]), a, b);
      TrimmedBack(s, Strip(s[..|s| - 1]), a, b);
      assert TrimmedAt(s, Strip(s), a, b);
    } else {
      assert TrimmedAt(s, Strip(s), 0, |s|);
    }
  }

  lemma TrimmedFront(s: string, t: string, a: nat, b: nat)
    requires |s| > 0 && IsSpace(s[0]) && TrimmedAt(s[1..], t, a, b)
    ensures TrimmedAt(s, t, a + 1, b + 1)
  {
    assert s[1..][a..b] == s[a + 1..b + 1];
    assert forall m :: 0 < m < |s| ==> s[m] == s[1..][m - 1];
  }

  lemma TrimmedBack(s: string, t: string, a: nat, b: nat)
    requires |s| > 0 && IsSpace(s[|s| - 1]) && TrimmedAt(s[..|s| - 1], t, a, b)
    ensures TrimmedAt(s, t, a, b)
  {
    assert s[..|s| - 1][a..b] == s[a..b];
    assert forall m :: 0 <= m < |s| - 1 ==> s[m] == s[..|s| - 1][m];
  }
}
