/** Substring search on plain sequences: occurrences, borders and the exact matching
    automaton.  The state of the automaton after reading `t` is the length of the longest
    prefix of the pattern that `t` ends with. */
module Matching {
  import opened Options

  ghost predicate OccursAt(text: seq<char>, p: seq<char>, pos: nat) {
    pos + |p| <= |text| && text[pos..pos + |p|] == p
  }

  /** The search result that is right: the leftmost occurrence, or none when there is none. */
  ghost predicate IsLeftmost(text: seq<char>, p: seq<char>, r: Option<nat>) {
    match r
    case Some(pos) => OccursAt(text, p, pos) && forall q: nat :: OccursAt(text, p, q) ==> pos <= q
    case None => forall q: nat :: !OccursAt(text, p, q)
  }

  lemma LeftmostUnique(text: seq<char>, p: seq<char>, r: Option<nat>, s: Option<nat>)
    requires IsLeftmost(text, p, r) && IsLeftmost(text, p, s)
    ensures r == s
  {
  }

  /** `t` ends with the first `k` characters of `p`. */
  ghost predicate EndsWith(t: seq<char>, p: seq<char>, k: nat) {
    k <= |p| && k <= |t| && t[|t| - k..] == p[..k]
  }

  /** The longest prefix of `p`, of length at most `k`, that `t` ends with. */
  ghost function LongestUpTo(t: seq<char>, p: seq<char>, k: nat): (n: nat)
    ensures n <= k && EndsWith(t, p, n)
    ensures forall m :: n < m <= k ==> !EndsWith(t, p, m)
  {
    if EndsWith(t, p, k) then k else
      assert k > 0 by { assert t[|t| - 0..] == p[..0]; }
      LongestUpTo(t, p, k - 1)
  }

  ghost function Longest(t: seq<char>, p: seq<char>): (n: nat)
    ensures n <= |p| && EndsWith(t, p, n)
    ensures forall m: nat :: EndsWith(t, p, m) ==> m <= n
  {
    LongestUpTo(t, p, |p|)
  }

  /** One step of the exact automaton. */
  ghost function Delta(p: seq<char>, j: nat, c: char): nat
    requires j <= |p|
  {
    Longest(p[..j] + [c], p)
  }

  /** The longest proper border of the first `j` characters. */
  ghost function Border(p: seq<char>, j: nat): nat
    requires 0 < j <= |p|
  {
    Longest(p[1..j], p)
  }

  /** Suffixes of a suffix that matches are suffixes of the text, and conversely. */
  lemma SuffixOfMatch(t: seq<char>, p: seq<char>, n: nat, k: nat)
    requires EndsWith(t, p, n) && k <= n
    ensures EndsWith(t, p, k) <==> EndsWith(p[..n], p, k)
  {
    assert t[|t| - k..] == t[|t| - n..][n - k..];
    assert p[..n][n - k..] == t[|t| - k..];
  }

  lemma EndsWithAppend(t: seq<char>, c: char, p: seq<char>, k: nat)
    requires k < |p|
    ensures EndsWith(t + [c], p, k + 1) <==> EndsWith(t, p, k) && p[k] == c
  {
    if k <= |t| {
      var u := t + [c];
      assert u[|u| - (k + 1)..] == t[|t| - k..] + [c];
      assert p[..k + 1] == p[..k] + [p[k]];
      if EndsWith(u, p, k + 1) {
        assert (t[|t| - k..] + [c])[..k] == (p[..k] + [p[k]])[..k];
        assert (t[|t| - k..] + [c])[k] == (p[..k] + [p[k]])[k];
      }
    }
  }

  /** Reading one more character needs only the state, not the text. */
  lemma DeltaTracks(t: seq<char>, c: char, p: seq<char>)
    ensures Longest(t + [c], p) == Delta(p, Longest(t, p), c)
  {
    hide EndsWith, LongestUpTo;
    forall k: nat ensures EndsWith(t + [c], p, k) <==> EndsWith(p[..Longest(t, p)] + [c], p, k) {
      DeltaTracksAt(t, c, p, k);
    }
  }

  lemma DeltaTracksAt(t: seq<char>, c: char, p: seq<char>, k: nat)
    ensures EndsWith(t + [c], p, k) <==> EndsWith(p[..Longest(t, p)] + [c], p, k)
  {
    var n := Longest(t, p);
    if 0 < k <= |p| {
      EndsWithAppend(t, c, p, k - 1);
      EndsWithAppend(p[..n], c, p, k - 1);
      if k - 1 <= n {
        SuffixOfMatch(t, p, n, k - 1);
      }
    } else if k == 0 {
      assert (t + [c])[|t| + 1..] == p[..0] == (p[..n] + [c])[n + 1..];
    }
  }

  /** A state other than the full pattern falls back to its border on a mismatch. */
  lemma DeltaFallsBack(p: seq<char>, j: nat, c: char)
    requires 0 < j < |p|
    ensures Border(p, j) < j
    ensures Delta(p, j, c) == if c == p[j] then j + 1 else Delta(p, Border(p, j), c)
  {
    var x := Border(p, j);
    assert x < j;
    if c == p[j] {
      assert p[..j] + [c] == p[..j + 1];
      assert EndsWith(p[..j] + [c], p, j + 1);
    } else {
      EndsWithAppend(p[..j], c, p, j);
      assert p[..j] + [c] == [p[0]] + (p[1..j] + [c]);
      forall k: nat ensures EndsWith(p[..j] + [c], p, k) <==> EndsWith(p[1..j] + [c], p, k) {
        if k <= j {
          assert (p[..j] + [c])[j + 1 - k..] == (p[1..j] + [c])[j - k..];
        }
      }
      DeltaTracks(p[1..j], c, p);
    }
  }

  /** The border is the automaton run on the pattern without its first character. */
  lemma BorderAdvances(p: seq<char>, j: nat)
    requires 0 < j < |p|
    ensures Border(p, 1) == 0
    ensures Border(p, j + 1) == Delta(p, Border(p, j), p[j])
  {
    assert p[1..j + 1] == p[1..j] + [p[j]];
    DeltaTracks(p[1..j], p[j], p);
  }

  lemma DeltaFromZero(p: seq<char>, c: char)
    requires |p| > 0
    ensures Delta(p, 0, c) == if c == p[0] then 1 else 0
  {
    assert p[..0] + [c] == [c];
    EndsWithAppend([], c, p, 0);
    assert [] + [c] == [c];
    assert EndsWith([], p, 0);
  }

  /** The automaton is in its last state exactly where an occurrence ends. */
  lemma FullStateIsOccurrence(text: seq<char>, p: seq<char>, n: nat)
    requires n <= |text|
    ensures Longest(text[..n], p) == |p| <==> n >= |p| && OccursAt(text, p, n - |p|)
  {
    if n >= |p| {
      assert text[..n][n - |p|..] == text[n - |p|..n];
      assert p[..|p|] == p;
    }
  }

  ghost predicate NoneEndsBy(text: seq<char>, p: seq<char>, n: nat) {
    forall q: nat :: q + |p| <= n ==> !OccursAt(text, p, q)
  }

  /** Reading one more character: the automaton steps, and if it reaches its last state for
      the first time, the occurrence that ends here is the leftmost. */
  lemma ScanStep(text: seq<char>, p: seq<char>, n: nat)
    requires n < |text| && NoneEndsBy(text, p, n)
    ensures Longest(text[..n + 1], p) == Delta(p, Longest(text[..n], p), text[n])
    ensures Longest(text[..n + 1], p) == |p| ==> n + 1 >= |p| && IsLeftmost(text, p, Some(n + 1 - |p|))
    ensures Longest(text[..n + 1], p) != |p| ==> NoneEndsBy(text, p, n + 1)
  {
    hide OccursAt, LongestUpTo, Longest, EndsWith;
    assert text[..n + 1] == text[..n] + [text[n]];
    DeltaTracks(text[..n], text[n], p);
    FullStateIsOccurrence(text, p, n + 1);
  }

  lemma ScanStarts(text: seq<char>, p: seq<char>)
    requires |p| > 0
    ensures Longest(text[..0], p) == 0 && NoneEndsBy(text, p, 0)
  {
  }

  lemma ScanEnds(text: seq<char>, p: seq<char>)
    requires NoneEndsBy(text, p, |text|)
    ensures IsLeftmost(text, p, None)
  {
  }
}
