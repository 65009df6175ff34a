/** The two substring searches of a slice.  A slice is the sequence of characters that it
    spans; patterns are non-empty and free of NUL. */
module Slices {
  import opened Options
  import opened Matching
  import opened FailureTable

  type Dfa = map<char, seq<nat>>

  /** The part of a slice from `pos`, at most `len` long. */
  function Subslice(buf: seq<char>, pos: nat, len: nat): (r: seq<char>)
    requires pos <= |buf|
    ensures |r| == if len < |buf| - pos then len else |buf| - pos
    ensures r <= buf[pos..]
  {
    if pos == |buf| then []
    else if len > |buf| - pos then buf[pos..]
    else buf[pos..pos + len]
  }

  ghost predicate Columns(dfa: Dfa, width: nat) {
    forall c :: c in dfa ==> |dfa[c]| == width
  }

  /** The first `n` columns are those of the exact automaton. */
  ghost predicate Exact(dfa: Dfa, p: seq<char>, n: nat)
    requires Columns(dfa, |p|) && n <= |p|
  {
    forall c, j :: c in dfa && 0 <= j < n ==> dfa[c][j] == Delta(p, j, c)
  }

  /** Gives every character of `s` a row of zeros unless it has a row. */
  method AddRows(dfa0: Dfa, s: seq<char>, width: nat) returns (dfa: Dfa)
    requires Columns(dfa0, width)
    requires forall c, j :: c in dfa0 && 0 <= j < width ==> dfa0[c][j] == 0
    ensures Columns(dfa, width)
    ensures forall c :: c in dfa <==> c in dfa0 || c in s
    ensures forall c, j :: c in dfa && 0 <= j < width ==> dfa[c][j] == 0
  {
    dfa := dfa0;
    for idx := 0 to |s|
      invariant Columns(dfa, width)
      invariant forall c :: c in dfa <==> c in dfa0 || c in s[..idx]
      invariant forall c, j :: c in dfa && 0 <= j < width ==> dfa[c][j] == 0
    {
      if s[idx] !in dfa {
        dfa := dfa[s[idx] := seq(width, _ => 0)];
      }
      assert s[..idx + 1] == s[..idx] + [s[idx]];
    }
    assert s[..|s|] == s;
  }

  /** Copies column `x` to column `idx` in every row. */
  method CopyColumn(dfa0: Dfa, width: nat, idx: nat, x: nat) returns (dfa: Dfa)
    requires Columns(dfa0, width) && x < idx < width
    ensures Columns(dfa, width) && dfa.Keys == dfa0.Keys
    ensures forall c :: c in dfa ==> dfa[c] == dfa0[c][idx := dfa0[c][x]]
  {
    dfa := dfa0;
    var todo := dfa.Keys;
    while todo != {}
      invariant todo <= dfa.Keys == dfa0.Keys
      invariant forall c :: c in dfa ==> dfa[c] == if c in todo then dfa0[c] else dfa0[c][idx := dfa0[c][x]]
      decreases todo
    {
      var c :| c in todo;
      dfa := dfa[c := dfa[c][idx := dfa[c][x]]];
      todo := todo - {c};
    }
  }

  /** The table of the matching automaton, exact for every pattern. */
  method BuildDfa(text: seq<char>, p: seq<char>) returns (dfa: Dfa)
    requires |p| > 0
    ensures Columns(dfa, |p|) && Exact(dfa, p, |p|)
    ensures forall c :: c in text || c in p ==> c in dfa
  {
    hide Delta, Border;
    dfa := AddRows(map[], text, |p|);
    dfa := AddRows(dfa, p, |p|);
    dfa := dfa[p[0] := dfa[p[0]][0 := 1]];
    forall c | c in dfa ensures dfa[c][0] == Delta(p, 0, c) {
      DeltaFromZero(p, c);
    }
    if |p| > 1 {
      BorderAdvances(p, 1);
    }
    var idx: nat, x: nat := 1, 0;
    while idx < |p|
      invariant 1 <= idx <= |p| && Columns(dfa, |p|) && Exact(dfa, p, idx)
      invariant forall c :: c in text || c in p ==> c in dfa
      invariant idx < |p| ==> x == Border(p, idx)
    {
      forall c | c in dfa ensures x < idx && Delta(p, idx, c) == if c == p[idx] then idx + 1 else Delta(p, x, c) {
        DeltaFallsBack(p, idx, c);
      }
      assert p[idx] in dfa;
      dfa := CopyColumn(dfa, |p|, idx, x);
      var next: nat := idx + 1;
      var row: seq<nat> := dfa[p[idx]][idx := next];
      dfa := dfa[p[idx] := row];
      if idx + 1 < |p| {
        BorderAdvances(p, idx);
      }
      x := dfa[p[idx]][x];
      idx := next;
    }
  }

  /** Search with the automaton table: right for every text and every pattern. */
  method InternalFind(text: seq<char>, p: seq<char>) returns (r: Option<nat>)
    requires |p| > 0
    ensures IsLeftmost(text, p, r)
  {
    hide OccursAt, Longest, EndsWith, IsLeftmost, NoneEndsBy;
    var dfa := BuildDfa(text, p);
    var idx, m := 0, 0;
    ScanStarts(text, p);
    while idx < |text| && m < |p|
      invariant 0 <= idx <= |text| && m == Longest(text[..idx], p) <= |p|
      invariant m < |p| ==> NoneEndsBy(text, p, idx)
      invariant m == |p| ==> idx >= |p| && IsLeftmost(text, p, Some(idx - |p|))
    {
      ScanStep(text, p, idx);
      assert text[idx] in dfa;
      m := dfa[text[idx]][m];
      idx := idx + 1;
    }
    if m == |p| {
      return Some(idx - |p|);
    }
    ScanEnds(text, p);
    return None;
  }

  /** Fills in the failure table. */
  method BuildNext(p: seq<char>) returns (next: seq<nat>)
    requires |p| > 0
    ensures next == Table(p, |p|)
  {
    next := seq(|p|, _ => 0);
    if |p| > 2 {
      var pos := 2;
      while pos != |p|
        invariant 2 <= pos <= |p| && |next| == |p|
        invariant next[..pos] == Table(p, pos)
        invariant forall k :: pos <= k < |p| ==> next[k] == 0
      {
        ghost var t := Table(p, pos);
        var base := next[pos - 1];
        assert base == t[pos - 1];
        if base == 0 {
          next := next[pos := if p[pos] == p[0] then 1 else 0];
        } else {
          base := FallBack(p, next, pos, base);
          if base != 0 {
            next := next[pos := base + 1];
          }
        }
        assert next[..pos + 1] == t + [NextEntry(p, t)];
        pos := pos + 1;
      }
      assert next[..|p|] == next;
    }
  }

  /** Falls back from `base` until the character at `pos` continues it, or to zero. */
  method FallBack(p: seq<char>, next: seq<nat>, pos: nat, base0: nat) returns (base: nat)
    requires pos < |p| == |next| && Proper(next[..pos]) && 0 < base0 <= pos
    ensures base == Fall(p, next[..pos], base0, p[pos])
  {
    base := base0;
    while true
      invariant 0 < base <= base0 && Fall(p, next[..pos], base0, p[pos]) == Fall(p, next[..pos], base, p[pos])
      decreases base
    {
      if p[pos] == p[base] {
        break;
      }
      assert next[..pos][base - 1] == next[base - 1];
      base := next[base - 1];
      if base == 0 {
        break;
      }
    }
  }

  /** Search with the failure table.  It takes at most two rounds per character of the text;
      what it finds is an occurrence; and it finds the leftmost one, on every text, for the
      patterns whose table falls back exactly. */
  method Find(text: seq<char>, p: seq<char>) returns (r: Option<nat>, ghost rounds: nat)
    requires |p| > 0
    ensures r == Found(text, p)
    ensures r.Some? ==> OccursAt(text, p, r.value)
    ensures FallsBackExactly(p) ==> IsLeftmost(text, p, r)
    ensures SinglesAfterNone(p, |p| - 1) ==> IsLeftmost(text, p, r)
    ensures rounds <= 2 * |text|
  {
    hide OccursAt, IsLeftmost, FallsBackExactly, Table, SinglesAfterNone;
    FoundIsSound(text, p);
    FoundIsLeftmost(text, p);
    rounds := 0;
    if |text| < |p| {
      TooShort(text, p);
      return None, rounds;
    }
    var next := BuildNext(p);
    var m, i := 0, 0;
    while m + i < |text|
      invariant 0 <= m && 0 <= i < |p| && m + i <= |text|
      invariant FindFrom(text, p, next, m + i, i) == Found(text, p)
      invariant rounds <= 2 * m + i
      decreases 2 * |text| - (2 * m + i)
    {
      rounds := rounds + 1;
      if text[m + i] == p[i] {
        i := i + 1;
        if i == |p| {
          break;
        }
      } else if i == 0 {
        m := m + 1;
      } else {
        m, i := m + i - next[i - 1], next[i - 1];
      }
    }
    if m + i < |text| || (m + i == |text| && i == |p|) {
      r := Some(m);
    } else {
      r := None;
    }
  }

  /** Decides whether `Find` is right on every text, before any text is searched: the
      failure table is compared with the exact automaton, state by state, on the characters
      of the pattern. */
  method IsFindRight(p: seq<char>) returns (right: bool)
    requires |p| > 0
    ensures right <==> forall text :: IsLeftmost(text, p, Found(text, p))
  {
    hide IsLeftmost, Found, Delta, Table, Slide;
    FindIsRightIffExact(p);
    var next := BuildNext(p);
    var dfa := BuildDfa([], p);
    for j := 1 to |p|
      invariant forall i, c :: 1 <= i < j && c in p ==> Slide(p, next, i, c) == Delta(p, i, c)
    {
      for k := 0 to |p|
        invariant forall c :: c in p[..k] ==> Slide(p, next, j, c) == Delta(p, j, c)
      {
        assert p[k] in dfa;
        if Slide(p, next, j, p[k]) != dfa[p[k]][j] {
          return false;
        }
        assert p[..k + 1] == p[..k] + [p[k]];
      }
      assert p[..|p|] == p;
    }
    return true;
  }

  lemma FoundIsLeftmost(text: seq<char>, p: seq<char>)
    requires |p| > 0
    ensures FallsBackExactly(p) || SinglesAfterNone(p, |p| - 1) ==> IsLeftmost(text, p, Found(text, p))
  {
    hide FallsBackExactly, IsLeftmost, Found, SinglesAfterNone;
    FindIsRightIffExact(p);
    EntriesAreLongestIff(p);
  }

  lemma TooShort(text: seq<char>, p: seq<char>)
    requires 0 < |p| && |text| < |p|
    ensures Found(text, p) == None
  {
    FoundIsSound(text, p);
  }

  /** For such patterns both searches agree. */
  lemma SearchesAgree(text: seq<char>, p: seq<char>, r: Option<nat>)
    requires |p| > 0 && FallsBackExactly(p) && IsLeftmost(text, p, r)
    ensures r == Found(text, p)
  {
    FindIsRightIffExact(p);
    LeftmostUnique(text, p, r, Found(text, p));
  }
}
