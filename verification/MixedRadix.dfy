/** Time as a mixed-radix number.  A wheel hand is one digit; wheel 0 has 128 slots and
    wheels 1 to 4 have 64 each, so five digits count 2^31 milliseconds.  `High(v, k)` is
    the number that the digits k, k+1, ... of `v` form, and every fact about digits below
    is stated through it. */
module MixedRadix {
  const WHEEL_COUNT: nat := 5
  const RANGE: nat := 0x8000_0000

  function SlotCount(wheel: nat): (n: nat)
    ensures n > 0
  {
    if wheel == 0 then 128 else 64
  }

  function High(v: nat, k: nat): nat {
    if k == 0 then v else if k == 1 then v / 128 else High(v, k - 1) / 64
  }

  function Digit(v: nat, k: nat): (d: nat)
    ensures d < SlotCount(k)
  {
    if k == 0 then v % 128 else High(v, k) % 64
  }

  /** The least wheel above which `d` and `v` have the same digits. */
  ghost function Level(d: nat, v: nat): (w: nat)
    requires d < RANGE && v < RANGE
    ensures w < WHEEL_COUNT
    ensures High(d, w + 1) == High(v, w + 1)
    ensures w == 0 || High(d, w) != High(v, w)
  {
    LevelExists(d, v, WHEEL_COUNT);
    var w :| 0 <= w < WHEEL_COUNT && IsLevel(d, v, w);
    w
  }

  ghost predicate IsLevel(d: nat, v: nat, w: nat) {
    High(d, w + 1) == High(v, w + 1) && (w == 0 || High(d, w) != High(v, w))
  }

  lemma {:induction false} LevelExists(d: nat, v: nat, k: nat)
    requires d < RANGE && v < RANGE
    requires 0 < k && (High(d, k) == High(v, k) || k == WHEEL_COUNT)
    ensures exists w :: 0 <= w < k && IsLevel(d, v, w)
  {
    HighVanishes(d);
    HighVanishes(v);
    if k == 1 || High(d, k - 1) != High(v, k - 1) {
      assert IsLevel(d, v, k - 1);
    } else {
      LevelExists(d, v, k - 1);
    }
  }

  /** How much time one slot of a wheel spans. */
  function SlotWidth(wheel: nat): nat
    requires wheel <= WHEEL_COUNT
  {
    match wheel
    case 0 => 1
    case 1 => 0x80
    case 2 => 0x2000
    case 3 => 0x8_0000
    case 4 => 0x200_0000
    case _ => RANGE
  }

  /** The time that five hands show. */
  function Value(hands: seq<nat>): nat
    requires |hands| == WHEEL_COUNT
  {
    hands[0] + 128 * (hands[1] + 64 * (hands[2] + 64 * (hands[3] + 64 * hands[4])))
  }

  function Digits(v: nat): (hands: seq<nat>)
    ensures |hands| == WHEEL_COUNT
    ensures forall k :: 0 <= k < WHEEL_COUNT ==> hands[k] == Digit(v, k)
  {
    seq(WHEEL_COUNT, k requires 0 <= k => Digit(v, k))
  }

  lemma HighAtZero(v: nat)
    ensures High(v, 0) == v
  {
  }

  lemma HighUnfold(v: nat)
    ensures High(v, 0) == v
    ensures High(v, 1) == v / 128
    ensures High(v, 2) == v / 128 / 64
    ensures High(v, 3) == v / 128 / 64 / 64
    ensures High(v, 4) == v / 128 / 64 / 64 / 64
    ensures High(v, 5) == v / 128 / 64 / 64 / 64 / 64
  {
    assert High(v, 2) == High(v, 1) / 64;
    assert High(v, 3) == High(v, 2) / 64;
    assert High(v, 4) == High(v, 3) / 64;
  }

  lemma HighVanishes(v: nat)
    requires v < RANGE
    ensures High(v, WHEEL_COUNT) == 0
  {
    HighUnfold(v);
  }

  /** The hands determine the time and the time determines the hands. */
  lemma ValueOfDigits(v: nat)
    ensures Value(Digits(v)) == v % RANGE
  {
    HighUnfold(v);
    var a := v / 128;
    var b := a / 64;
    var c := b / 64;
    var d := c / 64;
    assert v == 128 * a + v % 128;
    assert a == 64 * b + a % 64;
    assert b == 64 * c + b % 64;
    assert c == 64 * d + c % 64;
    assert d == 64 * (d / 64) + d % 64;
  }

  lemma HighStep(v: nat, k: nat)
    ensures High(v, k) == (if k == 0 then 128 * High(v, k + 1) else 64 * High(v, k + 1)) + Digit(v, k)
  {
    if k == 0 {
      assert v == 128 * (v / 128) + v % 128;
    } else {
      assert High(v, k + 1) == High(v, k) / 64;
    }
  }

  lemma {:induction false} HighMonotone(a: nat, b: nat, k: nat)
    requires a <= b
    ensures High(a, k) <= High(b, k)
  {
    if k > 1 {
      HighMonotone(a, b, k - 1);
    }
  }

  lemma {:induction false} HighAgreesAbove(a: nat, b: nat, j: nat, k: nat)
    requires j <= k && High(a, j) == High(b, j)
    ensures High(a, k) == High(b, k)
    decreases k - j
  {
    if j < k {
      HighStep(a, j);
      HighStep(b, j);
      assert High(a, j + 1) == High(b, j + 1);
      HighAgreesAbove(a, b, j + 1, k);
    }
  }

  /** `Level` is the only wheel with its two defining properties. */
  lemma LevelUnique(d: nat, v: nat, w: nat)
    requires d < RANGE && v < RANGE && w < WHEEL_COUNT
    requires High(d, w + 1) == High(v, w + 1)
    requires w == 0 || High(d, w) != High(v, w)
    ensures Level(d, v) == w
  {
    var l := Level(d, v);
    if l < w {
      HighAgreesAbove(d, v, l + 1, w);
    } else if w < l {
      HighAgreesAbove(d, v, w + 1, l);
    }
  }

  /** Two times that share all digits from `k` up differ by less than a slot of wheel `k`. */
  lemma SameSlotIsClose(a: nat, b: nat, k: nat)
    requires k < WHEEL_COUNT && High(a, k) == High(b, k)
    ensures a < b + SlotWidth(k) && b < a + SlotWidth(k)
  {
    HighBounds(a, k);
    HighBounds(b, k);
  }

  lemma HighBounds(v: nat, k: nat)
    requires k < WHEEL_COUNT
    ensures High(v, k) * SlotWidth(k) <= v < High(v, k) * SlotWidth(k) + SlotWidth(k)
  {
    HighStep(v, 0);
    if k > 1 { HighStep(v, 1); }
    if k > 2 { HighStep(v, 2); }
    if k > 3 { HighStep(v, 3); }
  }

  /** Where a deadline `d` lies relative to the new time `u` can be read off its position
      relative to the old time `v`: wheels below the hand that stops are due, wheels above
      are not, and in the wheel that stops the digit decides. */
  lemma PositionDecides(d: nat, v: nat, u: nat)
    requires v <= u < RANGE && v <= d < RANGE
    ensures Level(d, v) < Level(u, v) ==> d < u
    ensures Level(d, v) > Level(u, v) ==> d > u
    ensures Level(d, v) == Level(u, v) && Digit(d, Level(d, v)) < Digit(u, Level(d, v)) ==> d < u
    ensures Level(d, v) == Level(u, v) && Digit(d, Level(d, v)) > Digit(u, Level(d, v)) ==> d > u
    ensures Digit(v, Level(d, v)) <= Digit(d, Level(d, v))
  {
    var e, w := Level(u, v), Level(d, v);
    if w < e {
      HighAgreesAbove(d, v, w + 1, e);
      HighMonotone(v, u, e);
      if u <= d { HighMonotone(u, d, e); }
    } else if e < w {
      HighAgreesAbove(u, v, e + 1, w);
      HighMonotone(v, d, w);
      if d <= u { HighMonotone(d, u, w); }
    } else {
      HighStep(d, w);
      HighStep(u, w);
      if d <= u { HighMonotone(d, u, w); }
      if u <= d { HighMonotone(u, d, w); }
    }
    HighStep(d, w);
    HighStep(v, w);
    HighMonotone(v, d, w);
  }

  /** How the position of a deadline `d` still ahead changes when the time moves from `v`
      to `u`: only the slot in which the hand stops is emptied, into lower wheels. */
  lemma PositionAfter(d: nat, v: nat, u: nat)
    requires v <= u < d < RANGE
    ensures Level(u, v) <= Level(d, v)
    ensures Level(d, v) == Level(u, v) && Digit(d, Level(u, v)) == Digit(u, Level(u, v))
            <==> Level(d, u) < Level(u, v)
    ensures Level(d, u) < Level(u, v) || Level(d, u) == Level(d, v)
    ensures Level(d, u) == Level(u, v) ==> Digit(d, Level(u, v)) > Digit(u, Level(u, v))
  {
    hide Digit, SlotCount;
    var e, w, x := Level(u, v), Level(d, v), Level(d, u);
    PositionDecides(d, v, u);
    HighStep(d, e);
    HighStep(u, e);
    if e < w {
      HighAgreesAbove(u, v, e + 1, w);
      HighAgreesAbove(u, v, e + 1, w + 1);
      LevelUnique(d, u, w);
    } else {
      if Digit(d, e) == Digit(u, e) {
        assert High(d, e) == High(u, e);
        if e <= x { HighAgreesAbove(d, u, e, x); }
      } else {
        LevelUnique(d, u, e);
      }
    }
  }

  /** Positions are ordered as deadlines are. */
  lemma PositionIsMonotone(v: nat, d: nat, e: nat)
    requires v <= d <= e < RANGE
    ensures Level(d, v) <= Level(e, v)
    ensures Level(d, v) == Level(e, v) ==> Digit(d, Level(d, v)) <= Digit(e, Level(d, v))
    ensures Level(d, v) == Level(e, v) && Digit(d, Level(d, v)) == Digit(e, Level(d, v))
            ==> High(d, Level(d, v)) == High(e, Level(d, v))
  {
    var w, x := Level(d, v), Level(e, v);
    if x < w {
      HighAgreesAbove(e, v, x + 1, w);
      HighMonotone(v, d, w);
      HighMonotone(d, e, w);
    } else {
      HighStep(d, w);
      HighStep(e, w);
      HighMonotone(d, e, w);
    }
  }

  /** Slot of `d` before slot of `e`, wheel by wheel, while the hands show `v`. */
  ghost predicate PositionBefore(d: nat, e: nat, v: nat)
    requires d < RANGE && e < RANGE && v < RANGE
  {
    Level(d, v) < Level(e, v)
    || (Level(d, v) == Level(e, v) && Digit(d, Level(d, v)) < Digit(e, Level(e, v)))
  }

  ghost predicate SamePosition(d: nat, e: nat, v: nat)
    requires d < RANGE && e < RANGE && v < RANGE
  {
    Level(d, v) == Level(e, v) && Digit(d, Level(d, v)) == Digit(e, Level(e, v))
  }

  /** A later deadline `e` placed no later than `d` shares its slot, above wheel 0, so it is
      later by less than the slot is wide. */
  lemma InversionSharesSlot(v: nat, d: nat, e: nat)
    requires v <= d < e < RANGE
    requires PositionBefore(e, d, v) || SamePosition(e, d, v)
    ensures SamePosition(e, d, v) && Level(e, v) > 0 && e < d + SlotWidth(Level(e, v))
  {
    PositionIsMonotone(v, d, e);
    SameSlotIsClose(d, e, Level(d, v));
  }

  ghost predicate HandsInRange(hands: seq<nat>) {
    |hands| == WHEEL_COUNT && forall k :: 0 <= k < WHEEL_COUNT ==> hands[k] < SlotCount(k)
  }

  lemma DigitsOfValue(hands: seq<nat>)
    requires HandsInRange(hands)
    ensures Value(hands) < RANGE && Digits(Value(hands)) == hands
  {
    var v := Value(hands);
    HighUnfold(v);
    var a := hands[1] + 64 * (hands[2] + 64 * (hands[3] + 64 * hands[4]));
    var b := hands[2] + 64 * (hands[3] + 64 * hands[4]);
    var c := hands[3] + 64 * hands[4];
    assert v == 128 * a + hands[0] && hands[0] < SlotCount(0);
    assert v / 128 == a;
    assert a == 64 * b + hands[1] && hands[1] < SlotCount(1);
    assert a / 64 == b;
    assert b == 64 * c + hands[2] && hands[2] < SlotCount(2);
    assert b / 64 == c;
    assert hands[3] < SlotCount(3) && c / 64 == hands[4];
    assert hands[4] < SlotCount(4);
  }

  /** One digit of an addition: the rest of the addend plus the carry is what the higher
      digits grow by. */
  lemma CarryStep(v: nat, t: nat, k: nat, addend: nat)
    requires addend + High(v, k) == High(t, k)
    ensures var sum := addend % SlotCount(k) + Digit(v, k);
            var carry := if sum >= SlotCount(k) then 1 else 0;
            Digit(t, k) == sum - carry * SlotCount(k)
            && addend / SlotCount(k) + carry + High(v, k + 1) == High(t, k + 1)
  {
    HighStep(v, k);
    HighStep(t, k);
    if k == 0 {
      assert addend == 128 * (addend / 128) + addend % 128;
    } else {
      assert addend == 64 * (addend / 64) + addend % 64;
    }
  }

  lemma RangeByHigh(t: nat)
    ensures High(t, WHEEL_COUNT) == 0 <==> t < RANGE
  {
    HighUnfold(t);
  }

  lemma SameDigitsAbove(a: nat, b: nat, j: nat, k: nat)
    requires 0 < j <= k && High(a, j) == High(b, j)
    ensures Digit(a, k) == Digit(b, k)
  {
    HighAgreesAbove(a, b, j, k);
  }
}
