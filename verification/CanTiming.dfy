/** The CAN bit timing search (common/canopendriver/can_driver.c). */
module CanTiming {
  const F_OSC_CAN := 42_000_000
  const PRESCALERS := 0x400

  /** Prescaler and quanta count of a bit time. */
  predicate Timing(prescaler: nat, quanta: nat) {
    1 <= prescaler < PRESCALERS && 5 <= quanta <= 16
  }

  /** The bit rate of a timing, rounded down. */
  function RateOf(prescaler: nat, quanta: nat): nat
    requires Timing(prescaler, quanta)
  {
    Positive(prescaler, quanta);
    F_OSC_CAN / (prescaler * quanta)
  }

  lemma Positive(a: nat, b: nat)
    requires a > 0 && b > 0
    ensures a * b > 0
  {}

  /** Integer division as C has it. */
  function Div(a: int, b: int): int
    requires b != 0
  {
    if a >= 0 then a / b else -((-a) / b)
  }

  lemma DivTwice(n: nat, a: nat, b: nat)
    requires a > 0 && b > 0
    ensures a * b > 0 && n / a / b == n / (a * b)
  {
    Positive(a, b);
    var p := n / a;
    Nested(n, a, p, n % a, b, p / b, p % b);
  }

  lemma Nested(n: nat, a: nat, p: nat, r1: nat, b: nat, q: nat, r2: nat)
    requires n == a * p + r1 && r1 < a && p == b * q + r2 && r2 < b && a * b > 0
    ensures n / (a * b) == q
  {
    Expand(a, b, q, r2);
    Small(a, b, r1, r2);
    Quotient(n, a * b, q, a * r2 + r1);
  }

  lemma Expand(a: nat, b: nat, q: nat, r: nat)
    ensures a * (b * q + r) == (a * b) * q + a * r
  {}

  lemma Small(a: nat, b: nat, r1: nat, r2: nat)
    requires r1 < a && r2 < b
    ensures a * r2 + r1 < a * b
  {
    Split(a, r2, b - r2);
    AtLeast(a, b - r2);
  }

  lemma Split(a: nat, x: nat, y: nat)
    ensures a * (x + y) == a * x + a * y
  {}

  lemma Quotient(n: nat, d: nat, q: nat, r: nat)
    requires d > 0 && n == d * q + r && r < d
    ensures n / d == q
  {
    Unique(d, q, r, n / d, n % d);
  }

  lemma Unique(d: nat, q: nat, r: nat, k: nat, s: nat)
    requires d * q + r == d * k + s && r < d && s < d
    ensures q == k
  {
    if q > k {
      AtLeast(d, q - k);
    } else if q < k {
      AtLeast(d, k - q);
    }
  }

  lemma AtLeast(d: nat, x: nat)
    requires x >= 1
    ensures d * x >= d
  {}

  /** The test of the search loop. */
  predicate Works(brp: nat, bitRate: int)
    requires 1 <= brp && bitRate != 0
  {
    var tqs := Div(F_OSC_CAN / brp, bitRate);
    5 <= tqs <= 16 && Div(F_OSC_CAN / brp, tqs) == bitRate
  }

  /** The loop's test misses no quanta count that gives the rate. */
  lemma WorksExactly(brp: nat, bitRate: int)
    requires 1 <= brp < PRESCALERS && bitRate != 0
    ensures Works(brp, bitRate) <==> exists quanta :: Timing(brp, quanta) && RateOf(brp, quanta) == bitRate
    ensures Works(brp, bitRate) ==>
              var tqs := Div(F_OSC_CAN / brp, bitRate); Timing(brp, tqs) && RateOf(brp, tqs) == bitRate
  {
    var n := F_OSC_CAN / brp;
    if Works(brp, bitRate) {
      var tqs := Div(n, bitRate);
      DivTwice(F_OSC_CAN, brp, tqs);
      assert Timing(brp, tqs) && RateOf(brp, tqs) == bitRate;
    }
    if quanta :| Timing(brp, quanta) && RateOf(brp, quanta) == bitRate {
      DivTwice(F_OSC_CAN, brp, quanta);
      LowestRate(brp, quanta);
      OnlyQuanta(n, quanta, bitRate);
    }
  }

  /** No timing is slower than this, which is more than sixteen. */
  lemma LowestRate(prescaler: nat, quanta: nat)
    requires Timing(prescaler, quanta)
    ensures RateOf(prescaler, quanta) >= 2565
  {
    DivTwice(F_OSC_CAN, prescaler, quanta);
    var n := F_OSC_CAN / prescaler;
    LowestClock(prescaler, n, F_OSC_CAN % prescaler);
    LowestQuotient(n, quanta, n / quanta, n % quanta);
  }

  lemma LowestQuotient(n: nat, quanta: nat, q: nat, r: nat)
    requires n >= 41055 && quanta <= 16 && n == quanta * q + r && r < quanta
    ensures q >= 2565
  {
    assert quanta * q <= 16 * q by {
      assert (16 - quanta) * q >= 0;
    }
  }

  lemma LowestClock(prescaler: nat, n: nat, r: nat)
    requires prescaler < PRESCALERS && F_OSC_CAN == prescaler * n + r && r < prescaler
    ensures n >= 41055
  {
    var least := prescaler * 41055;
    assert least <= 1023 * 41055 < F_OSC_CAN;
    if n < 41055 {
      AtLeast(prescaler, 41055 - n);
      assert false;
    }
  }

  lemma OnlyQuanta(n: nat, quanta: nat, rate: nat)
    requires 5 <= quanta <= 16 < rate && n / quanta == rate
    ensures n / rate == quanta
  {
    var r := n % quanta;
    assert n == rate * quanta + r;
    Quotient(n, rate, quanta, r);
  }

  /** The search loop: the least prescaler that works, PRESCALERS if there is none. */
  method Search(bitRate: int) returns (brp: nat, tqs: int)
    requires bitRate != 0
    ensures 1 <= brp <= PRESCALERS && Least(brp, bitRate)
    ensures brp < PRESCALERS ==> tqs >= 0 && Timing(brp, tqs) && RateOf(brp, tqs) == bitRate
  {
    hide RateOf, Div;
    brp, tqs := 1, 0;
    while brp < PRESCALERS
      invariant 1 <= brp <= PRESCALERS && Least(brp, bitRate)
    {
      WorksExactly(brp, bitRate);
      tqs := Div(F_OSC_CAN / brp, bitRate);
      if tqs >= 5 && tqs <= 16 && Div(F_OSC_CAN / brp, tqs) == bitRate {
        return;
      }
      assert !Works(brp, bitRate);
      brp := brp + 1;
    }
  }

  /** No smaller prescaler gives the rate. */
  ghost predicate Least(prescaler: nat, bitRate: int) {
    forall p: nat, q: nat :: Timing(p, q) && RateOf(p, q) == bitRate ==> prescaler <= p
  }

  // ----- The register -----

  const FIELDS: bv32 := 0x3ff | (0x7f << 16)

  function ToFive(x: nat): (b: bv5)
    requires x < 32
    ensures FromFive(b) == x
  {
    x as bv5
  }

  function FromFive(b: bv5): nat {
    b as nat
  }

  function ToFour(x: nat): (b: bv4)
    requires x < 16
    ensures FromFour(b) == x
  {
    x as bv4
  }

  function FromFour(b: bv4): nat {
    b as nat
  }

  function ToThree(x: nat): (b: bv3)
    requires x < 8
    ensures FromThree(b) == x
  {
    x as bv3
  }

  function FromThree(b: bv3): nat {
    b as nat
  }

  function Ten(hi: bv5, lo: bv5): bv32 {
    (hi as bv32 << 5) | lo as bv32
  }

  /** A ten-bit number, in two halves that are cheap to convert. */
  function TenBits(x: nat): bv32
    requires x < 0x400
  {
    Ten(ToFive(x / 32), ToFive(x % 32))
  }

  function PrescalerBits(btr: bv32): (bv5, bv5) {
    (((btr >> 5) & 0x1f) as bv5, (btr & 0x1f) as bv5)
  }

  function Prescaler(btr: bv32): nat {
    var (hi, lo) := PrescalerBits(btr);
    32 * FromFive(hi) + FromFive(lo) + 1
  }

  function Segment1(btr: bv32): bv4 {
    ((btr >> 16) & 0xf) as bv4
  }

  function Segment2(btr: bv32): bv3 {
    ((btr >> 20) & 0x7) as bv3
  }

  /** The lengths of the segments before and after the sample point, in quanta. */
  function Before(btr: bv32): nat {
    FromFour(Segment1(btr)) + 1
  }

  function Behind(btr: bv32): nat {
    FromThree(Segment2(btr)) + 1
  }

  /** One quantum of synchronisation and both segments. */
  function Quanta(btr: bv32): nat {
    1 + Before(btr) + Behind(btr)
  }

  /** All bits outside the two fields are the same. */
  predicate SameRest(before: bv32, after: bv32) {
    after & !FIELDS == before & !FIELDS
  }

  /** What the timing register holds when the search has succeeded; the bit is sampled in the middle, with an
      odd quantum before the sample point. */
  ghost predicate Programmed(before: bv32, btr: bv32, bitRate: int) {
    && Behind(btr) <= Before(btr) <= Behind(btr) + 1
    && Timing(Prescaler(btr), Quanta(btr)) && RateOf(Prescaler(btr), Quanta(btr)) == bitRate
    && SameRest(before, btr)
  }

  function Packed(reg: bv32, b: bv32, s1: bv4, s2: bv3): bv32 {
    (reg & !FIELDS) | (b | (s1 as bv32 << 16) | (s2 as bv32 << 20))
  }

  lemma Unpacked(reg: bv32, hi: bv5, lo: bv5, s1: bv4, s2: bv3)
    ensures var r := Packed(reg, Ten(hi, lo), s1, s2);
            && PrescalerBits(r) == (hi, lo) && Segment1(r) == s1 && Segment2(r) == s2
            && SameRest(reg, r)
  {}

  lemma Decoded(reg: bv32, brp: nat, tseg1: nat, tseg2: nat)
    requires 1 <= brp <= 0x400 && 1 <= tseg1 <= 16 && 1 <= tseg2 <= 8
    ensures var btr := Packed(reg, TenBits(brp - 1), ToFour(tseg1 - 1), ToThree(tseg2 - 1));
            && Prescaler(btr) == brp && Before(btr) == tseg1 && Behind(btr) == tseg2
            && Quanta(btr) == 1 + tseg1 + tseg2 && SameRest(reg, btr)
  {
    hide Packed, PrescalerBits, Segment1, Segment2, SameRest, ToFive, FromFive, ToFour, FromFour, ToThree,
         FromThree, Ten;
    var x := brp - 1;
    Unpacked(reg, ToFive(x / 32), ToFive(x % 32), ToFour(tseg1 - 1), ToThree(tseg2 - 1));
  }

  /** The register for 1 MBit/s: prescaler 3, segments of 7 and 6 quanta. */
  lemma OneMegabit()
    ensures Packed(0, TenBits(2), ToFour(6), ToThree(5)) == 0x0056_0002
    ensures var btr: bv32 := 0x0056_0002; Prescaler(btr) == 3 && Before(btr) == 7 && Behind(btr) == 6
    ensures RateOf(3, 14) == 1_000_000
  {}

  class Can {
    var btr: bv32

    /** `can_drv_check_set_bitrate`: finds the least prescaler, for every bit rate but zero. */
    method CheckSetBitrate(bitRate: int, isSet: bool) returns (res: int)
      requires bitRate != 0
      modifies this
      ensures res == bitRate || res == 0
      ensures res == bitRate <==> exists p: nat, q: nat :: Timing(p, q) && RateOf(p, q) == bitRate
      ensures res == bitRate && isSet ==> Programmed(old(btr), btr, bitRate) && Least(Prescaler(btr), bitRate)
      ensures res == 0 || !isSet ==> btr == old(btr)
    {
      hide RateOf, Div, Before, Behind;
      var brp, tqs := Search(bitRate);
      if brp >= PRESCALERS {
        return 0;
      }
      if isSet {
        SetTiming(brp, tqs);
      }
      return bitRate;
    }

    /** Splits the quanta into the two segments and writes the register. */
    method SetTiming(brp: nat, tqs: nat)
      requires Timing(brp, tqs)
      modifies this
      ensures Prescaler(btr) == brp && Quanta(btr) == tqs && SameRest(old(btr), btr)
      ensures Behind(btr) <= Before(btr) <= Behind(btr) + 1
    {
      hide Prescaler, Quanta, Before, Behind, Packed, TenBits, ToFour, ToThree, SameRest;
      var tseg1, tseg2 := (tqs - 1) / 2, (tqs - 1) / 2;
      if tqs - (1 + tseg1 + tseg2) == 1 {
        tseg1 := tseg1 + 1;
      }
      if tseg2 > 8 {
        tseg1, tseg2 := tseg1 + tseg2 - 8, 8;
      }
      Decoded(btr, brp, tseg1, tseg2);
      btr := Packed(btr, TenBits(brp - 1), ToFour(tseg1 - 1), ToThree(tseg2 - 1));
    }
  }
}
