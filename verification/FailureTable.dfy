/** The search with a failure table, as a function: the table that `find` fills in and the
    automaton that the table induces.  Entries of the table are borders but not always the
    longest ones, so the induced automaton may fall back too far. */
module FailureTable {
  import opened Options
  import opened Matching

  /** Entry `k` is at most `k`, so falling back makes progress. */
  ghost predicate Proper(t: seq<nat>) {
    forall k :: 0 <= k < |t| ==> t[k] <= k
  }

  /** Falls back from a non-zero base until `c` continues it; base 0 is never compared. */
  ghost function Fall(p: seq<char>, t: seq<nat>, base: nat, c: char): (b: nat)
    requires Proper(t) && 0 < base <= |t| && |t| < |p|
    ensures b <= base
  {
    if c == p[base] then base
    else if t[base - 1] == 0 then 0
    else Fall(p, t, t[base - 1], c)
  }

  ghost function NextEntry(p: seq<char>, t: seq<nat>): (n: nat)
    requires Proper(t) && 0 < |t| < |p|
    ensures n <= |t|
  {
    var c, base := p[|t|], t[|t| - 1];
    if base == 0 then if c == p[0] then 1 else 0
    else
      var b := Fall(p, t, base, c);
      if b != 0 then b + 1 else 0
  }

  /** The first `n` entries of the table; the first two stay zero. */
  ghost function Table(p: seq<char>, n: nat): (t: seq<nat>)
    requires n <= |p|
    ensures |t| == n && Proper(t)
  {
    if n <= 2 then seq(n, _ => 0) else Table(p, n - 1) + [NextEntry(p, Table(p, n - 1))]
  }

  /** One step of the automaton that a table induces. */
  function Slide(p: seq<char>, t: seq<nat>, i: nat, c: char): (j: nat)
    requires Proper(t) && i < |p| == |t|
    ensures j <= i + 1
  {
    if c == p[i] then i + 1 else if i == 0 then 0 else Slide(p, t, t[i - 1], c)
  }

  /** The search from state `i` after `n` characters of the text. */
  ghost function FindFrom(text: seq<char>, p: seq<char>, t: seq<nat>, n: nat, i: nat): Option<nat>
    requires Proper(t) && i < |p| == |t| && i <= n <= |text|
    decreases |text| - n
  {
    if n == |text| then None
    else
      var j := Slide(p, t, i, text[n]);
      if j == |p| then Some(n + 1 - |p|) else FindFrom(text, p, t, n + 1, j)
  }

  /** What `find` returns. */
  ghost function Found(text: seq<char>, p: seq<char>): Option<nat>
    requires |p| > 0
  {
    FindFrom(text, p, Table(p, |p|), 0, 0)
  }

  // ---- every entry is a border ----

  ghost predicate Borders(p: seq<char>, t: seq<nat>) {
    |t| <= |p| && Proper(t) && forall k :: 0 <= k < |t| ==> EndsWith(p[1..k + 1], p, t[k])
  }

  lemma {:induction false} FallIsBorder(p: seq<char>, t: seq<nat>, base: nat, c: char)
    requires Borders(p, t) && 0 < base <= |t| < |p|
    requires EndsWith(p[1..|t|], p, base)
    ensures Fall(p, t, base, c) != 0 ==> EndsWith(p[1..|t|] + [c], p, Fall(p, t, base, c) + 1)
    decreases base
  {
    if c == p[base] {
      EndsWithAppend(p[1..|t|], c, p, base);
    } else if t[base - 1] != 0 {
      var b := t[base - 1];
      assert p[1..base] == p[..base][1..];
      ShorterSuffix(p[..base], p, b);
      SuffixOfMatch(p[1..|t|], p, base, b);
      FallIsBorder(p, t, b, c);
    }
  }

  lemma ShorterSuffix(t: seq<char>, p: seq<char>, k: nat)
    requires t != [] && EndsWith(t[1..], p, k)
    ensures EndsWith(t, p, k)
  {
    assert t[|t| - k..] == t[1..][|t| - 1 - k..];
  }

  lemma ZeroEnds(t: seq<char>, p: seq<char>)
    ensures EndsWith(t, p, 0)
  {
    assert t[|t|..] == p[..0];
  }

  lemma NextEntryIsBorder(p: seq<char>, t: seq<nat>)
    requires 0 < |t| < |p| && Borders(p, t)
    ensures EndsWith(p[1..|t| + 1], p, NextEntry(p, t))
  {
    hide EndsWith, Fall, Table;
    var n := |t|;
    var c, base := p[n], t[n - 1];
    assert p[1..n + 1] == p[1..n] + [c];
    ZeroEnds(p[1..n], p);
    ZeroEnds(p[1..n] + [c], p);
    if base == 0 {
      EndsWithAppend(p[1..n], c, p, 0);
    } else {
      FallIsBorder(p, t, base, c);
    }
  }

  lemma {:induction false} TableHoldsBorders(p: seq<char>, n: nat)
    requires n <= |p|
    ensures Borders(p, Table(p, n))
  {
    hide EndsWith, Fall, NextEntry;
    if n <= 2 {
      forall k | 0 <= k < n ensures EndsWith(p[1..k + 1], p, Table(p, n)[k]) {
        ZeroEnds(p[1..k + 1], p);
      }
    } else {
      TableHoldsBorders(p, n - 1);
      NextEntryIsBorder(p, Table(p, n - 1));
    }
  }

  // ---- soundness ----

  lemma {:induction false} SlideIsSound(text: seq<char>, p: seq<char>, t: seq<nat>, i: nat, c: char)
    requires Borders(p, t) && i < |p| == |t| && EndsWith(text, p, i)
    ensures EndsWith(text + [c], p, Slide(p, t, i, c))
    decreases i
  {
    if c == p[i] {
      EndsWithAppend(text, c, p, i);
    } else if i == 0 {
      assert (text + [c])[|text| + 1..] == p[..0];
    } else {
      ShorterSuffix(p[..i], p, t[i - 1]);
      SuffixOfMatch(text, p, i, t[i - 1]);
      SlideIsSound(text, p, t, t[i - 1], c);
    }
  }

  lemma {:induction false} FindFromIsSound(text: seq<char>, p: seq<char>, t: seq<nat>, n: nat, i: nat)
    requires Borders(p, t) && i < |p| == |t| && i <= n <= |text| && EndsWith(text[..n], p, i)
    ensures match FindFrom(text, p, t, n, i)
            case Some(pos) => OccursAt(text, p, pos) && pos + i >= n
            case None => true
    decreases |text| - n
  {
    if n < |text| {
      var j := Slide(p, t, i, text[n]);
      SlideIsSound(text[..n], p, t, i, text[n]);
      assert text[..n + 1] == text[..n] + [text[n]];
      if j == |p| {
        assert text[..n + 1][n + 1 - |p|..] == text[n + 1 - |p|..n + 1];
      } else {
        FindFromIsSound(text, p, t, n + 1, j);
      }
    }
  }

  /** Whatever `find` reports is an occurrence. */
  lemma FoundIsSound(text: seq<char>, p: seq<char>)
    requires |p| > 0
    ensures Found(text, p).Some? ==> OccursAt(text, p, Found(text, p).value)
  {
    TableHoldsBorders(p, |p|);
    FindFromIsSound(text, p, Table(p, |p|), 0, 0);
  }

  // ---- when the search is right ----

  /** The table takes every mismatch to the longest prefix that can still match.  This is a
      finite check on the pattern: as many states as the pattern is long, and only its own
      characters matter. */
  ghost predicate FallsBackExactly(p: seq<char>)
    requires |p| > 0
  {
    forall j, c :: 1 <= j < |p| && c in p ==> Slide(p, Table(p, |p|), j, c) == Delta(p, j, c)
  }

  lemma {:induction false} SlideOffPattern(p: seq<char>, t: seq<nat>, j: nat, c: char)
    requires Proper(t) && j < |p| == |t| && c !in p
    ensures Slide(p, t, j, c) == 0 == Delta(p, j, c)
    decreases j
  {
    var d := Delta(p, j, c);
    if d > 0 {
      EndsWithAppend(p[..j], c, p, d - 1);
    }
    if j > 0 {
      SlideOffPattern(p, t, t[j - 1], c);
    }
  }

  lemma SlideEqualsDelta(p: seq<char>, j: nat, c: char)
    requires |p| > 0 && FallsBackExactly(p) && j < |p|
    ensures Slide(p, Table(p, |p|), j, c) == Delta(p, j, c)
  {
    if c !in p {
      SlideOffPattern(p, Table(p, |p|), j, c);
    } else if j == 0 {
      DeltaFromZero(p, c);
    }
  }

  lemma {:induction false} ExactFindIsLeftmost(text: seq<char>, p: seq<char>, n: nat)
    requires |p| > 0 && FallsBackExactly(p) && n <= |text| && NoneEndsBy(text, p, n)
    ensures Longest(text[..n], p) < |p|
    ensures IsLeftmost(text, p, FindFrom(text, p, Table(p, |p|), n, Longest(text[..n], p)))
    decreases |text| - n
  {
    hide OccursAt, IsLeftmost, EndsWith, Longest, FallsBackExactly, Table, Slide;
    NoneMeansNotFull(text, p, n);
    if n == |text| {
      ScanEnds(text, p);
    } else {
      var i := Longest(text[..n], p);
      ScanStep(text, p, n);
      SlideEqualsDelta(p, i, text[n]);
      if Longest(text[..n + 1], p) != |p| {
        ExactFindIsLeftmost(text, p, n + 1);
      }
    }
  }

  lemma NoneMeansNotFull(text: seq<char>, p: seq<char>, n: nat)
    requires |p| > 0 && n <= |text| && NoneEndsBy(text, p, n)
    ensures Longest(text[..n], p) < |p|
  {
    FullStateIsOccurrence(text, p, n);
  }

  /** A text on which a pattern with a wrong fall-back from state `j` on `c` goes wrong. */
  ghost function Trap(p: seq<char>, j: nat, c: char): seq<char>
    requires j < |p|
  {
    p[..j] + [c] + p[Delta(p, j, c)..]
  }

  lemma {:induction false} ReadsOwnPrefix(text: seq<char>, p: seq<char>, t: seq<nat>, k: nat, j: nat)
    requires Proper(t) && k <= j < |p| == |t| && j <= |text| && text[..j] == p[..j]
    ensures FindFrom(text, p, t, k, k) == FindFrom(text, p, t, j, j)
    decreases j - k
  {
    if k < j {
      assert text[k] == text[..j][k] == p[k];
      ReadsOwnPrefix(text, p, t, k + 1, j);
    }
  }

  lemma TrapSprings(p: seq<char>, j: nat, c: char)
    requires |p| > 0 && j < |p| && Slide(p, Table(p, |p|), j, c) != Delta(p, j, c)
    ensures !IsLeftmost(Trap(p, j, c), p, Found(Trap(p, j, c), p))
  {
    hide Longest, EndsWith, OccursAt, Slide, Table, Trap, Delta;
    var t, text, s := Table(p, |p|), Trap(p, j, c), Slide(p, Table(p, |p|), j, c);
    TableHoldsBorders(p, |p|);
    WholePrefixEnds(p, j);
    SlideIsSound(p[..j], p, t, j, c);
    TrapOccurs(p, j, c);
    LongestIsLongest(p[..j] + [c], p, s);
    ReadsOwnPrefix(text, p, t, 0, j);
    FindFromIsSound(text, p, t, j + 1, s);
  }

  lemma LongestIsLongest(t: seq<char>, p: seq<char>, k: nat)
    requires EndsWith(t, p, k)
    ensures k <= Longest(t, p)
  {
  }

  lemma TrapOccurs(p: seq<char>, j: nat, c: char)
    requires |p| > 0 && j < |p|
    ensures var text, d := Trap(p, j, c), Delta(p, j, c);
            d <= j + 1 <= |text| && text[..j] == p[..j] && text[j] == c && text[..j + 1] == p[..j] + [c]
            && d == Longest(p[..j] + [c], p)
            && OccursAt(text, p, j + 1 - d)
  {
    var text, d := Trap(p, j, c), Delta(p, j, c);
    assert (p[..j] + [c])[j + 1 - d..] == p[..d];
    assert text[j + 1 - d..] == p[..d] + p[d..] == p;
  }

  lemma WholePrefixEnds(p: seq<char>, j: nat)
    requires j <= |p|
    ensures EndsWith(p[..j], p, j)
  {
    assert p[..j][0..] == p[..j];
  }

  /** `find` is right on every text exactly for the patterns whose table falls back exactly. */
  lemma FindIsRightIffExact(p: seq<char>)
    requires |p| > 0
    ensures (forall text :: IsLeftmost(text, p, Found(text, p))) <==> FallsBackExactly(p)
  {
    if FallsBackExactly(p) {
      forall text ensures IsLeftmost(text, p, Found(text, p)) {
        ScanStarts(text, p);
        ExactFindIsLeftmost(text, p, 0);
      }
    } else {
      var j, c :| 1 <= j < |p| && c in p && Slide(p, Table(p, |p|), j, c) != Delta(p, j, c);
      TrapSprings(p, j, c);
    }
  }

  /** Longest borders in the entries that the search uses are enough. */
  lemma LongestBordersAreExact(p: seq<char>)
    requires |p| > 0
    requires forall k :: 0 <= k < |p| - 1 ==> Table(p, |p|)[k] == Border(p, k + 1)
    ensures FallsBackExactly(p)
  {
    forall j, c | 0 <= j < |p| ensures Slide(p, Table(p, |p|), j, c) == Delta(p, j, c) {
      LongestBordersSlide(p, j, c);
    }
  }

  lemma {:induction false} LongestBordersSlide(p: seq<char>, j: nat, c: char)
    requires j < |p|
    requires forall k :: 0 <= k < |p| - 1 ==> Table(p, |p|)[k] == Border(p, k + 1)
    ensures Slide(p, Table(p, |p|), j, c) == Delta(p, j, c)
    decreases j
  {
    if j == 0 {
      DeltaFromZero(p, c);
    } else {
      DeltaFallsBack(p, j, c);
      assert Table(p, |p|)[j - 1] == Border(p, j);
      LongestBordersSlide(p, Border(p, j), c);
    }
  }

  // ---- which patterns have longest borders in their table ----

  /** The first `n` entries are longest borders. */
  ghost predicate LongestEntries(p: seq<char>, n: nat)
    requires n <= |p|
  {
    forall k :: 0 <= k < n ==> Table(p, |p|)[k] == Border(p, k + 1)
  }

  /** A longest border of a single character belongs to a prefix of more than two characters,
      and the prefix before has no border. */
  ghost predicate SingleAfterNone(p: seq<char>, k: nat)
    requires 2 <= k <= |p|
  {
    Border(p, k) == 1 ==> k > 2 && Border(p, k - 1) == 0
  }

  ghost predicate SinglesAfterNone(p: seq<char>, n: nat)
    requires n <= |p|
  {
    forall k :: 2 <= k <= n ==> SingleAfterNone(p, k)
  }

  lemma {:induction false} FallIsDelta(p: seq<char>, t: seq<nat>, base: nat, c: char)
    requires Proper(t) && 0 < base <= |t| < |p| && forall k :: 0 <= k < |t| ==> t[k] == Border(p, k + 1)
    ensures Delta(p, base, c) == if Fall(p, t, base, c) != 0 then Fall(p, t, base, c) + 1 else Delta(p, 0, c)
    decreases base
  {
    hide Border, Delta;
    DeltaFallsBack(p, base, c);
    if c != p[base] && t[base - 1] != 0 {
      FallIsDelta(p, t, t[base - 1], c);
    }
  }

  /** Behind longest borders the next entry is the longest border again, unless that is a
      single character behind a border: then it is zero. */
  lemma NextEntryIsBorderUnless(p: seq<char>, t: seq<nat>)
    requires Proper(t) && 0 < |t| < |p| && forall k :: 0 <= k < |t| ==> t[k] == Border(p, k + 1)
    ensures NextEntry(p, t) == if Border(p, |t|) != 0 && Border(p, |t| + 1) == 1 then 0 else Border(p, |t| + 1)
  {
    hide Border, Delta, Fall;
    var n := |t|;
    assert t[n - 1] == Border(p, n);
    BorderAdvances(p, n);
    DeltaFromZero(p, p[n]);
    if t[n - 1] != 0 {
      FallIsDelta(p, t, t[n - 1], p[n]);
    }
  }

  lemma {:induction false} TablePrefix(p: seq<char>, n: nat, m: nat)
    requires n <= m <= |p|
    ensures Table(p, m)[..n] == Table(p, n)
    decreases m
  {
    hide NextEntry;
    if n < m {
      if m > 2 {
        TablePrefix(p, n, m - 1);
      }
    }
  }

  lemma BorderOfShort(p: seq<char>, k: nat)
    requires 0 < k <= |p|
    ensures Border(p, k) < k
  {
  }

  lemma TableGrows(p: seq<char>, k: nat)
    requires k < |p|
    ensures Table(p, |p|)[..k] == Table(p, k)
    ensures Table(p, |p|)[k] == if k < 2 then 0 else NextEntry(p, Table(p, k))
  {
    hide NextEntry;
    TablePrefix(p, k, |p|);
    TablePrefix(p, k + 1, |p|);
    assert Table(p, |p|)[..k + 1][k] == Table(p, |p|)[k];
  }

  lemma EntryIsLongest(p: seq<char>, k: nat)
    requires k < |p| && LongestEntries(p, k)
    ensures Table(p, |p|)[k] == Border(p, k + 1) <==> k == 0 || SingleAfterNone(p, k + 1)
  {
    hide Border, NextEntry, Table;
    BorderOfShort(p, k + 1);
    TableGrows(p, k);
    if k >= 2 {
      var t := Table(p, k);
      forall i | 0 <= i < k ensures t[i] == Border(p, i + 1) {
        assert t[i] == Table(p, |p|)[..k][i];
      }
      NextEntryIsBorderUnless(p, t);
    }
  }

  lemma {:induction false} EntriesAreLongestUpTo(p: seq<char>, n: nat)
    requires n <= |p|
    ensures LongestEntries(p, n) <==> SinglesAfterNone(p, n)
  {
    hide Border, NextEntry, Table, SingleAfterNone;
    if n > 0 {
      EntriesAreLongestUpTo(p, n - 1);
      if LongestEntries(p, n - 1) {
        EntryIsLongest(p, n - 1);
      }
    }
  }

  /** The entries that the search uses are longest borders exactly if no longest border of a
      single character comes at once or behind another border; then the search is right on
      every text. */
  lemma EntriesAreLongestIff(p: seq<char>)
    requires |p| > 0
    ensures LongestEntries(p, |p| - 1) <==> SinglesAfterNone(p, |p| - 1)
    ensures SinglesAfterNone(p, |p| - 1) ==> FallsBackExactly(p)
  {
    hide Border, Table, FallsBackExactly, SingleAfterNone;
    EntriesAreLongestUpTo(p, |p| - 1);
    if SinglesAfterNone(p, |p| - 1) {
      LongestBordersAreExact(p);
    }
  }

  /** Patterns of one or two characters, such as CRLF, are always found. */
  lemma ShortPatternsAreExact(p: seq<char>)
    requires 0 < |p| <= 2
    ensures FallsBackExactly(p)
  {
    if |p| == 2 {
      BorderAdvances(p, 1);
    }
    LongestBordersAreExact(p);
  }

  /** A pattern and a text on which `find` misses an occurrence. */
  lemma FindMissesAnOccurrence()
    ensures OccursAt("aaab", "aab", 1) && Found("aaab", "aab") == None
    ensures !FallsBackExactly("aab")
  {
    hide Table, FindFrom, FallsBackExactly;
    TableMissesBorder();
    SearchLosesTrack();
    var pos: nat := 1;
    assert OccursAt("aaab", "aab", pos) by { assert "aaab"[1..4] == "aab"; }
    FindIsRightIffExact("aab");
    assert !IsLeftmost("aaab", "aab", Found("aaab", "aab"));
  }

  /** Entry 1 is not the border of `aa`. */
  lemma TableMissesBorder()
    ensures Table("aab", 3) == [0, 0, 0]
  {
    assert Table("aab", 2) == [0, 0];
    assert NextEntry("aab", [0, 0]) == 0;
  }

  lemma SearchLosesTrack()
    ensures FindFrom("aaab", "aab", [0, 0, 0], 0, 0) == None
  {
    hide Table;
    var p, text, t := "aab", "aaab", [0, 0, 0];
    assert Slide(p, t, 0, 'a') == 1 && Slide(p, t, 1, 'a') == 2;
    assert Slide(p, t, 2, 'a') == Slide(p, t, 0, 'a');
    assert Slide(p, t, 1, 'b') == Slide(p, t, 0, 'b') == 0;
    assert FindFrom(text, p, t, 4, 0) == None;
    assert FindFrom(text, p, t, 3, 1) == None;
    assert FindFrom(text, p, t, 2, 2) == None;
    assert FindFrom(text, p, t, 1, 1) == None;
  }
}
