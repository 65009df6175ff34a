/** Text helpers of the HTTP parser: first occurrence, splitting, decimal numbers, lower case. */
module HttpText {
  import opened Options
  import opened Matching

  const CRLF := "\r\n"

  // ---- first occurrence ----

  function FindFirst(s: string, sep: string): (r: Option<nat>)
    ensures r.Some? ==> r.value + |sep| <= |s|
  {
    if |s| < |sep| then None
    else if s[..|sep|] == sep then Some(0)
    else if s == [] then None
    else match FindFirst(s[1..], sep)
      case Some(k) => Some(k + 1)
      case None => None
  }

  lemma {:induction false} FindFirstIsLeftmost(s: string, sep: string)
    ensures IsLeftmost(s, sep, FindFirst(s, sep))
  {
    if |s| >= |sep| && s[..|sep|] != sep && s != [] {
      FindFirstIsLeftmost(s[1..], sep);
      assert !OccursAt(s, sep, 0) by { assert s[0..0 + |sep|] == s[..|sep|]; }
      forall q: nat | OccursAt(s, sep, q) ensures q > 0 && OccursAt(s[1..], sep, q - 1) {
        SliceOfTail(s, q, |sep|);
      }
      match FindFirst(s[1..], sep)
      case Some(k) => SliceOfTail(s, k + 1, |sep|);
      case None =>
    }
  }

  lemma SliceOfTail(s: string, q: nat, n: nat)
    requires 0 < q && q + n <= |s|
    ensures s[q..q + n] == s[1..][q - 1..q - 1 + n]
  {
    var a, b := s[q..q + n], s[1..][q - 1..q - 1 + n];
    assert forall i :: 0 <= i < |a| ==> a[i] == b[i];
  }

  lemma LeftmostIsFindFirst(s: string, sep: string, r: Option<nat>)
    requires IsLeftmost(s, sep, r)
    ensures r == FindFirst(s, sep)
  {
    FindFirstIsLeftmost(s, sep);
    LeftmostUnique(s, sep, r, FindFirst(s, sep));
  }

  /** More text behind an occurrence does not move it. */
  lemma {:induction false} FindFirstExtends(a: string, b: string, sep: string)
    requires FindFirst(a, sep).Some?
    ensures FindFirst(a + b, sep) == FindFirst(a, sep)
  {
    assert (a + b)[..|sep|] == a[..|sep|];
    if a[..|sep|] != sep {
      assert (a + b)[1..] == a[1..] + b;
      FindFirstExtends(a[1..], b, sep);
    }
  }

  /** A separator of two different characters that does not occur in `a` is first found
      right behind `a`. */
  lemma {:induction false} FindFirstBehind(a: string, b: string, sep: string)
    requires |sep| == 1 || (|sep| == 2 && sep[0] != sep[1])
    requires FindFirst(a, sep) == None
    ensures FindFirst(a + sep + b, sep) == Some(|a|)
  {
    var s := a + sep + b;
    if a == [] {
      assert s[..|sep|] == sep;
    } else {
      if |sep| <= |a| {
        assert s[..|sep|] == a[..|sep|];
      } else {
        assert |a| == 1 && s[1] == sep[0];
        assert s[..2][1] == sep[0];
      }
      assert s[1..] == a[1..] + sep + b;
      FindFirstBehind(a[1..], b, sep);
    }
  }

  // ---- splitting ----

  function Split(s: string, sep: string): (parts: seq<string>)
    requires sep != []
    ensures |parts| > 0
    decreases |s|
  {
    match FindFirst(s, sep)
    case None => [s]
    case Some(k) => [s[..k]] + Split(s[k + |sep|..], sep)
  }

  function Join(parts: seq<string>, sep: string): string
    requires parts != []
  {
    if |parts| == 1 then parts[0] else parts[0] + sep + Join(parts[1..], sep)
  }

  /** Splitting loses nothing. */
  lemma {:induction false} JoinOfSplit(s: string, sep: string)
    requires sep != []
    ensures Join(Split(s, sep), sep) == s
    decreases |s|
  {
    FindFirstIsLeftmost(s, sep);
    match FindFirst(s, sep)
    case None =>
    case Some(k) =>
      JoinOfSplit(s[k + |sep|..], sep);
      assert s == s[..k] + s[k..k + |sep|] + s[k + |sep|..];
  }

  /** Splitting undoes joining when no part contains the separator. */
  lemma {:induction false} SplitOfJoin(parts: seq<string>, sep: string)
    requires parts != [] && (|sep| == 1 || (|sep| == 2 && sep[0] != sep[1]))
    requires forall i :: 0 <= i < |parts| ==> FindFirst(parts[i], sep) == None
    ensures Split(Join(parts, sep), sep) == parts
    decreases |parts|
  {
    hide FindFirst;
    if |parts| > 1 {
      var rest := Join(parts[1..], sep);
      FindFirstBehind(parts[0], rest, sep);
      SplitOfJoin(parts[1..], sep);
      var s := parts[0] + sep + rest;
      assert s[..|parts[0]|] == parts[0] && s[|parts[0]| + |sep|..] == rest;
    }
  }

  // ---- decimal numbers ----

  const UINT_RANGE: nat := 0x1_0000_0000

  predicate IsDigit(c: char) { '0' <= c <= '9' }

  function DigitValue(c: char): nat
    requires IsDigit(c)
  {
    c as nat - '0' as nat
  }

  predicate AllDigits(s: string) {
    forall i :: 0 <= i < |s| ==> IsDigit(s[i])
  }

  function DecimalValue(s: string): nat
    requires AllDigits(s)
  {
    if s == [] then 0 else 10 * DecimalValue(s[..|s| - 1]) + DigitValue(s[|s| - 1])
  }

  predicate IsSign(c: char) { c == '+' || c == '-' }

  function Unsigned(s: string): string {
    if s != [] && IsSign(s[0]) then s[1..] else s
  }

  /** A number is a non-empty string of digits below 2^32 behind at most one sign; a minus
      sign negates it modulo 2^32. */
  function ParseUnsigned(s: string): Option<nat> {
    var digits := Unsigned(s);
    if digits == [] || !AllDigits(digits) || DecimalValue(digits) >= UINT_RANGE then None
    else if s[0] == '-' then Some((UINT_RANGE - DecimalValue(digits)) % UINT_RANGE)
    else Some(DecimalValue(digits))
  }

  /** Numbers consist of digits and signs. */
  predicate Numeral(s: string) {
    forall c :: c in s ==> IsDigit(c) || IsSign(c)
  }

  lemma ParsedIsNumeral(s: string)
    requires ParseUnsigned(s).Some?
    ensures Numeral(s)
  {
    assert s == (if Unsigned(s) == s then [] else [s[0]]) + Unsigned(s);
  }

  function Decimal(n: nat): string {
    (if n < 10 then [] else Decimal(n / 10)) + [('0' as nat + n % 10) as char]
  }

  lemma {:induction false} DecimalIsDigits(n: nat)
    ensures AllDigits(Decimal(n)) && Decimal(n) != [] && DecimalValue(Decimal(n)) == n
  {
    hide DecimalValue, AllDigits;
    var c := ('0' as nat + n % 10) as char;
    EmptyDecimal();
    if n < 10 {
      ValueOfAppended([], c);
      assert [] + [c] == [c];
    } else {
      DecimalIsDigits(n / 10);
      ValueOfAppended(Decimal(n / 10), c);
      assert n == 10 * (n / 10) + n % 10;
    }
  }

  lemma EmptyDecimal()
    ensures AllDigits([]) && DecimalValue([]) == 0
  {
  }

  lemma ValueOfAppended(s: string, c: char)
    requires AllDigits(s) && IsDigit(c)
    ensures AllDigits(s + [c]) && DecimalValue(s + [c]) == 10 * DecimalValue(s) + DigitValue(c)
  {
    assert (s + [c])[..|s|] == s;
  }

  lemma DecimalRoundTrip(n: nat)
    requires n < UINT_RANGE
    ensures ParseUnsigned(Decimal(n)) == Some(n)
  {
    DecimalIsDigits(n);
    assert IsDigit(Decimal(n)[0]);
  }

  function Zeros(n: nat): string {
    seq(n, _ => '0')
  }

  lemma {:induction false} ZerosAddNothing(n: nat, d: string)
    requires AllDigits(d)
    ensures AllDigits(Zeros(n) + d) && DecimalValue(Zeros(n) + d) == DecimalValue(d)
    decreases |d|, n
  {
    if d != [] {
      var front, last := d[..|d| - 1], d[|d| - 1];
      ZerosAddNothing(n, front);
      ValueOfAppended(Zeros(n) + front, last);
      ValueOfAppended(front, last);
      assert d == front + [last] && Zeros(n) + d == Zeros(n) + front + [last];
    } else if n > 0 {
      ZerosAddNothing(n - 1, []);
      ValueOfAppended(Zeros(n - 1), '0');
      assert Zeros(n - 1) + [] == Zeros(n - 1);
      assert Zeros(n) + [] == Zeros(n - 1) + ['0'];
    }
  }

  /** Digits without a leading zero are the decimal spelling of their value. */
  lemma {:induction false} DigitsAreDecimal(d: string)
    requires d != [] && AllDigits(d) && d[0] != '0'
    ensures Decimal(DecimalValue(d)) == d && DecimalValue(d) > 0
    decreases |d|
  {
    var front, last := d[..|d| - 1], d[|d| - 1];
    assert d == front + [last];
    if front == [] {
      assert DecimalValue(front) == 0;
    } else {
      DigitsAreDecimal(front);
      assert DecimalValue(d) / 10 == DecimalValue(front);
    }
    assert DecimalValue(d) % 10 == DigitValue(last);
  }

  lemma {:induction false} SkipZeros(d: string) returns (n: nat)
    requires d != [] && AllDigits(d)
    ensures d == Zeros(n) + Decimal(DecimalValue(d))
    decreases |d|
  {
    if d[0] != '0' {
      DigitsAreDecimal(d);
      n := 0;
    } else if |d| == 1 {
      assert d == ['0'] && DecimalValue(d[..0]) == 0;
      n := 0;
    } else {
      var m := SkipZeros(d[1..]);
      n := m + 1;
      ZerosAddNothing(1, d[1..]);
      assert d == Zeros(1) + d[1..];
      assert Zeros(n) == Zeros(1) + Zeros(m);
    }
  }

  /** The spellings of a number: zeros and the decimal digits. */
  ghost predicate Spells(digits: string, k: nat) {
    exists n: nat :: digits == Zeros(n) + Decimal(k)
  }

  lemma SpellingsAreDigits(digits: string, k: nat)
    ensures Spells(digits, k) <==> digits != [] && AllDigits(digits) && DecimalValue(digits) == k
  {
    hide Decimal, DecimalValue, AllDigits;
    if n: nat :| digits == Zeros(n) + Decimal(k) {
      DecimalIsDigits(k);
      ZerosAddNothing(n, Decimal(k));
    }
    if digits != [] && AllDigits(digits) && DecimalValue(digits) == k {
      var n := SkipZeros(digits);
    }
  }

  ghost predicate ReadsAs(s: string, k: nat, n: nat) {
    || (Spells(s, k) && n == k)
    || (s != [] && s[0] == '+' && Spells(s[1..], k) && n == k)
    || (s != [] && s[0] == '-' && Spells(s[1..], k) && n < UINT_RANGE && (n + k) % UINT_RANGE == 0)
  }

  /** Exactly the spellings of numbers below 2^32 are read, alone or behind a sign; a number
      and the one behind a minus sign add up to 2^32 or zero. */
  lemma NumbersAreRead(s: string, n: nat)
    ensures ParseUnsigned(s) == Some(n)
            <==> exists k: nat :: k < UINT_RANGE && ReadsAs(s, k, n)
  {
    hide Spells, DecimalValue;
    forall d: string, k: nat ensures Spells(d, k) <==> d != [] && AllDigits(d) && DecimalValue(d) == k {
      SpellingsAreDigits(d, k);
    }
    if ParseUnsigned(s) == Some(n) {
      var k := DecimalValue(Unsigned(s));
      assert ReadsAs(s, k, n);
    }
  }

  /** Text without a character of the separator does not contain it. */
  lemma {:induction false} NotInside(s: string, sep: string, c: char)
    requires c in sep && c !in s
    ensures FindFirst(s, sep) == None
  {
    if |s| >= |sep| {
      var i :| 0 <= i < |sep| && sep[i] == c;
      assert s[..|sep|][i] in s;
      if s != [] {
        NotInside(s[1..], sep, c);
      }
    }
  }

  // ---- lower case ----

  function Lower(c: char): char {
    if 'A' <= c <= 'Z' then (c as nat + 32) as char else c
  }

  const UPPER_CASE := "ABCDEFGHIJKLMNOPQRSTUVWXYZ"
  const LOWER_CASE := "abcdefghijklmnopqrstuvwxyz"

  /** Each upper-case letter becomes its lower-case letter, and nothing else changes. */
  lemma LettersAreFolded(c: char)
    ensures forall i :: 0 <= i < 26 && UPPER_CASE[i] == c ==> Lower(c) == LOWER_CASE[i]
    ensures c !in UPPER_CASE ==> Lower(c) == c
  {
    assert forall i :: 0 <= i < 26 ==> UPPER_CASE[i] as nat == 'A' as nat + i && LOWER_CASE[i] as nat == 'a' as nat + i;
    if 'A' <= c <= 'Z' {
      assert UPPER_CASE[c as nat - 'A' as nat] == c;
    }
  }

  function ToLower(s: string): (r: string)
    ensures |r| == |s|
  {
    seq(|s|, i requires 0 <= i < |s| => Lower(s[i]))
  }
}
