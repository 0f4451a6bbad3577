/** The numbers behind boothsRadix4 (algorithm.py). The source works on
    strings of '0'/'1'; for rs below 2**12 and rt, r3 below 2**6 those strings
    always spell the 13-bit accumulator A, so the model works on that integer:
    every step adds the recoded addend modulo 2**13 and shifts A right by two,
    copying the sign bit. */
module Booth {
  import opened Common

  const BigLen: nat := 6            // operand width
  const MaxLen: nat := 12           // product width, BigLen * 2
  const AccLen: nat := 13           // accumulator width: the product and one pad bit
  const TotNumShifts: nat := 3      // BigLen / 2 recoding steps

  /** A multiplicand (rt) or "2B" (r3) value: its 6-digit rendering followed
      by seven '0's is the 13-digit addend. */
  type Operand = v: nat | v < 64

  /** A multiplier (rs) value: zero-extended to 12 digits with the pad bit
      appended it is the 13-digit A, that is 2 * rs. */
  type Multiplier = v: nat | v < 4096

  /** The addend chosen by the last three bits of A. The source builds B,
      2B, -B and -2B as a 6-bit rendering followed by seven '0's, that is the
      value times 2**7; "2B" and "-2B" are built from register r3, not from rt. */
  function Addend(pad: nat, rt: Operand, r3: Operand): (a: nat)
    requires pad < 8
    ensures a <= 8192 && a % 128 == 0
    ensures pad == 0 || pad == 7 ==> a == 0
  {
    Pow2Values();
    if pad == 1 || pad == 2 then rt * 128
    else if pad == 3 then r3 * 128
    else if pad == 4 then TwosComplement(r3) * 128
    else if pad == 5 || pad == 6 then TwosComplement(rt) * 128
    else 0
  }

  /** The signed multiple of the multiplicand that an addend stands for, read
      in the 6-bit field it occupies (bits 7 to 12 of A). */
  function AddendValue(pad: nat, rt: Operand, r3: Operand): int
    requires pad < 8
  {
    if pad == 1 || pad == 2 then UnsignedToSigned(rt, 6)
    else if pad == 3 then UnsignedToSigned(r3, 6)
    else if pad == 4 then UnsignedToSigned(TwosComplement(r3), 6)
    else if pad == 5 || pad == 6 then UnsignedToSigned(TwosComplement(rt), 6)
    else 0
  }

  /** The arithmetic right shift by two within 13 bits: the source shifts and
      then re-extends with '1's when bit 12 was set before the shift (for a
      13-bit x, is_MSB_signed(x, 13) is exactly x >= 4096; see Signed13). */
  function Asr2(x: nat): (r: nat)
    requires x < 8192
    ensures r < 8192
    ensures r == x / 4 || r == x / 4 + 6144
  {
    if x >= 4096 then x / 4 + 6144 else x / 4
  }

  /** Asr2 divides the signed reading by four, rounding down. */
  lemma Asr2Signed(x: nat)
    requires x < 8192
    ensures UnsignedToSigned(Asr2(x), 13) == UnsignedToSigned(x, 13) / 4
  {
    Pow2Values();
    Signed13(x);
    Signed13(Asr2(x));
  }

  /** One recoding step: add, drop the carry out of 13 bits, shift. */
  function Step(a: nat, rt: Operand, r3: Operand): (r: nat)
    requires a < 8192
    ensures r < 8192
  {
    Asr2((a + Addend(a % 8, rt, r3)) % 8192)
  }

  /** Step as the source performs it: add the addend, clear the carry bit
      when the sum needs a fourteenth bit, shift right by two, and put back
      '1's above the shifted bits when bit 12 was set. */
  lemma StepByParts(a: nat, rt: Operand, r3: Operand, sum: int, c: int, res: int)
    requires a < Pow2(AccLen) && sum == a + Addend(a % 8, rt, r3)
    requires c == if sum >= Pow2(AccLen) then sum - Pow2(AccLen) else sum
    requires res == if IsMsbSigned(c, AccLen) then c / 4 + (Pow2(AccLen) - Pow2(AccLen - 2)) else c / 4
    ensures res == Step(a, rt, r3)
  {
    Pow2Values();
    DivModUnique(sum, 8192, if sum >= 8192 then 1 else 0, c);
    Signed13(c);
  }

  /** A after k steps; A starts as rs zero-extended to 12 bits with the
      pad bit 0 appended, which is 2 * rs. */
  function Acc(rs: Multiplier, rt: Operand, r3: Operand, k: nat): (a: nat)
    requires k <= TotNumShifts
    ensures a < 8192
  {
    if k == 0 then 2 * rs else Step(Acc(rs, rt, r3, k - 1), rt, r3)
  }

  /** What bth writes to rd: A after the three steps with the pad bit dropped. */
  function Product(rs: Multiplier, rt: Operand, r3: Operand): (p: nat)
    ensures p < 4096
  {
    Acc(rs, rt, r3, TotNumShifts) / 2
  }

  /** The multiplier bits inspected at step k: (q1 q0 0), (q3 q2 q1), (q5 q4 q3). */
  function Triple(rs: Multiplier, k: nat): nat
    requires k < TotNumShifts
  {
    if k == 0 then (2 * rs) % 8 else if k == 1 then (rs / 2) % 8 else (rs / 8) % 8
  }

  /** The radix-4 recoding digit of a triple, as the source's branches read it. */
  function Digit(pad: nat): int
    requires pad < 8
  {
    if pad == 1 || pad == 2 then 1 else if pad == 3 then 2
    else if pad == 4 then -2 else if pad == 5 || pad == 6 then -1 else 0
  }

  // ---------------------------------------------------------------------
  // Reading 13- and 12-bit values as signed numbers

  lemma Signed13(x: int)
    requires 0 <= x < 8192
    ensures UnsignedToSigned(x, 13) == if x >= 4096 then x - 8192 else x
    ensures IsMsbSigned(x, 13) <==> x >= 4096
  {
    Pow2Values();
    UnsignedToSignedUnique(x, 13, if x >= 4096 then x - 8192 else x);
  }

  lemma Signed12(x: int)
    requires 0 <= x < 4096
    ensures UnsignedToSigned(x, 12) == if x >= 2048 then x - 4096 else x
  {
    Pow2Values();
    UnsignedToSignedUnique(x, 12, if x >= 2048 then x - 4096 else x);
  }

  lemma Signed6(x: int)
    requires 0 <= x <= 64
    ensures UnsignedToSigned(x, 6) == if x == 64 then 0 else if x >= 32 then x - 64 else x
  {
    Pow2Values();
    UnsignedToSignedUnique(x, 6, if x == 64 then 0 else if x >= 32 then x - 64 else x);
  }

  /** The addend, read as a 13-bit signed number, is its 6-bit field's value
      times 2**7. */
  lemma AddendSigned(pad: nat, rt: Operand, r3: Operand)
    requires pad < 8
    ensures UnsignedToSigned(Addend(pad, rt, r3) % 8192, 13) == 128 * AddendValue(pad, rt, r3)
  {
    Pow2Values();
    var x := Addend(pad, rt, r3) / 128;
    assert 0 <= x <= 64;
    Signed6(x);
    Signed13(Addend(pad, rt, r3) % 8192);
  }

  /** Addition modulo 2**13 is signed addition when the sum fits. */
  lemma AddSigned(a: nat, b: nat)
    requires a < 8192 && b <= 8192
    requires -4096 <= UnsignedToSigned(a, 13) + UnsignedToSigned(b % 8192, 13) < 4096
    ensures UnsignedToSigned((a + b) % 8192, 13) == UnsignedToSigned(a, 13) + UnsignedToSigned(b % 8192, 13)
  {
    DivModUnique(b, 8192, if b == 8192 then 1 else 0, if b == 8192 then 0 else b);
    DivModUnique(a + b, 8192, if a + b >= 8192 then 1 else 0, if a + b >= 8192 then a + b - 8192 else a + b);
    Signed13(a);
    Signed13(b % 8192);
    Signed13((a + b) % 8192);
  }

  /** A step that does not overflow divides the signed sum by four. */
  lemma StepSigned(a: nat, rt: Operand, r3: Operand)
    requires a < 8192
    requires -4096 <= UnsignedToSigned(a, 13) + 128 * AddendValue(a % 8, rt, r3) < 4096
    ensures UnsignedToSigned(Step(a, rt, r3), 13)
         == (UnsignedToSigned(a, 13) + 128 * AddendValue(a % 8, rt, r3)) / 4
  {
    var add := Addend(a % 8, rt, r3);
    var x := (a + add) % 8192;
    assert Step(a, rt, r3) == Asr2(x);
    AddendSigned(a % 8, rt, r3);
    AddSigned(a, add);
    Asr2Signed(x);
  }

  // ---------------------------------------------------------------------
  // Which bits each step inspects

  /** Addends are multiples of 2**7, so a step only moves the low bits of A
      two places down (and the re-extension only touches bits 11 and 12). */
  lemma StepLow(a: nat, rt: Operand, r3: Operand)
    requires a < 8192
    ensures Step(a, rt, r3) % 32 == (a % 128) / 4
  {
    Pow2Values();
    var add := Addend(a % 8, rt, r3);
    var x := (a + add) % 8192;
    var c := Asr2(x) - x / 4;
    LowBitsShift(a, add / 128, (a + add) / 8192, c);
  }

  /** Arithmetic behind StepLow, with everything named. */
  lemma LowBitsShift(a: int, i: int, j: int, c: int)
    requires c == 0 || c == 6144
    ensures ((a + 128 * i - 8192 * j) / 4 + c) % 32 == (a % 128) / 4
  {
    var m := a % 128;
    var x := a + 128 * i - 8192 * j;
    assert x == 128 * (i - 64 * j + a / 128) + m;
    DivModUnique(x, 4, 32 * (i - 64 * j + a / 128) + m / 4, m % 4);
    DivModUnique(x / 4 + c, 32, i - 64 * j + a / 128 + c / 32, m / 4);
  }

  /** The triple inspected at step k depends on rs alone:
      (q1 q0 0), then (q3 q2 q1), then (q5 q4 q3). */
  lemma InspectedTriples(rs: Multiplier, rt: Operand, r3: Operand, k: nat)
    requires k < TotNumShifts
    ensures Acc(rs, rt, r3, k) % 8 == Triple(rs, k)
  {
    var a0 := Acc(rs, rt, r3, 0);
    assert a0 == 2 * rs;
    if k > 0 {
      var a1 := Acc(rs, rt, r3, 1);
      StepLow(a0, rt, r3);
      FirstShift(rs, a0, a1 % 32);
      ModMod(a1, 8, 4);
      if k > 1 {
        var a2 := Acc(rs, rt, r3, 2);
        StepLow(a1, rt, r3);
        SecondShift(rs, a1, a2 % 32);
        ModMod(a2, 8, 4);
      }
    }
  }

  lemma FirstShift(rs: int, a0: int, low: int)
    requires 0 <= rs && a0 == 2 * rs && low == (a0 % 128) / 4
    ensures low == (rs % 64) / 2 && low % 8 == (rs / 2) % 8
  {
    DivModUnique(a0, 128, rs / 64, 2 * (rs % 64));
    DivModUnique(rs % 64, 2, (rs / 2) % 32, rs % 2) by {
      ModDiv(rs, 2, 32);
      ModMod(rs, 2, 32);
    }
    ModMod(rs / 2, 8, 4);
  }

  lemma SecondShift(rs: int, a1: int, low: int)
    requires 0 <= rs && a1 % 32 == (rs % 64) / 2 && low == (a1 % 128) / 4
    ensures low % 8 == (rs / 8) % 8
  {
    ModDiv(a1, 4, 32);
    ModMod(a1 / 4, 8, 4);
    ModDiv(a1, 4, 8);
    DivDiv(rs % 64, 2, 4);
    ModDiv(rs, 8, 8);
  }

  lemma {:induction false} AccIgnoresR3(rs: Multiplier, rt: Operand, r3: Operand, r3': Operand, k: nat)
    requires k <= TotNumShifts
    requires forall j :: 0 <= j < TotNumShifts ==> Triple(rs, j) != 3 && Triple(rs, j) != 4
    ensures Acc(rs, rt, r3, k) == Acc(rs, rt, r3', k)
  {
    if k > 0 {
      AccIgnoresR3(rs, rt, r3, r3', k - 1);
      assert Triple(rs, k - 1) != 3 && Triple(rs, k - 1) != 4;
      StepIgnoresR3(rs, rt, r3, r3', k);
    }
  }

  /** One step whose inspected triple is neither 011 nor 100 does not read r3. */
  lemma StepIgnoresR3(rs: Multiplier, rt: Operand, r3: Operand, r3': Operand, k: nat)
    requires 0 < k <= TotNumShifts
    requires Acc(rs, rt, r3, k - 1) == Acc(rs, rt, r3', k - 1)
    requires Triple(rs, k - 1) != 3 && Triple(rs, k - 1) != 4
    ensures Acc(rs, rt, r3, k) == Acc(rs, rt, r3', k)
  {
    InspectedTriples(rs, rt, r3, k - 1);
    var a := Acc(rs, rt, r3, k - 1);
    StepSameAddend(a, rt, r3, r3');
    assert Acc(rs, rt, r3, k) == Step(a, rt, r3) && Acc(rs, rt, r3', k) == Step(a, rt, r3');
  }

  /** Low bits other than 011 and 100 select an addend that does not use r3. */
  lemma StepSameAddend(a: nat, rt: Operand, r3: Operand, r3': Operand)
    requires a < 8192 && a % 8 != 3 && a % 8 != 4
    ensures Step(a, rt, r3) == Step(a, rt, r3')
  {
    var x := (a + Addend(a % 8, rt, r3)) % 8192;
    assert Addend(a % 8, rt, r3) == Addend(a % 8, rt, r3');
    assert Step(a, rt, r3) == Asr2(x);
  }

  /** Register r3 matters only when some inspected triple is 011 or 100. */
  lemma R3Irrelevant(rs: Multiplier, rt: Operand, r3: Operand, r3': Operand)
    requires forall j :: 0 <= j < TotNumShifts ==> Triple(rs, j) != 3 && Triple(rs, j) != 4
    ensures Product(rs, rt, r3) == Product(rs, rt, r3')
  {
    AccIgnoresR3(rs, rt, r3, r3', TotNumShifts);
  }

  // ---------------------------------------------------------------------
  // What the three steps compute

  /** Radix-4 recoding: the digits of the three triples, weighted 1, 4 and
      16, add up to rs read as a 6-bit signed number. */
  lemma BoothRecoding(rs: Operand)
    ensures UnsignedToSigned(rs, 6) == Digit(Triple(rs, 0)) + 4 * Digit(Triple(rs, 1)) + 16 * Digit(Triple(rs, 2))
  {
    var lo, mid, hi := rs % 4, (rs / 4) % 4, rs / 16;
    TripleParts(rs, lo, mid, hi);
    RecodeDigits(rs, lo, mid, hi, Triple(rs, 0), Triple(rs, 1), Triple(rs, 2));
    Signed6(rs);
  }

  /** The recoding identity on the base-4 digits of rs. */
  lemma RecodeDigits(rs: int, lo: nat, mid: nat, hi: nat, t0: nat, t1: nat, t2: nat)
    requires lo < 4 && mid < 4 && hi < 4 && rs == lo + 4 * mid + 16 * hi
    requires t0 == 2 * lo && t1 == 2 * mid + lo / 2 && t2 == 2 * hi + mid / 2
    ensures Digit(t0) + 4 * Digit(t1) + 16 * Digit(t2) == if rs >= 32 then rs - 64 else rs
  {
    DigitPair(lo, 0, t0);
    DigitPair(mid, lo / 2, t1);
    DigitPair(hi, mid / 2, t2);
    RecodeArith(rs, lo, mid, hi);
  }

  function Signed2(x: int): int {
    if x >= 2 then x - 4 else x
  }

  lemma RecodeArith(rs: int, lo: int, mid: int, hi: int)
    requires 0 <= lo < 4 && 0 <= mid < 4 && 0 <= hi < 4 && rs == lo + 4 * mid + 16 * hi
    ensures (if rs >= 32 then rs - 64 else rs)
         == Signed2(lo) + 4 * (Signed2(mid) + lo / 2) + 16 * (Signed2(hi) + mid / 2)
  {
    assert Signed2(lo) + 4 * (lo / 2) == lo;
    assert Signed2(mid) + 4 * (mid / 2) == mid;
  }

  /** rs in base 4, and the triples in terms of its digits. */
  lemma TripleParts(rs: Operand, lo: nat, mid: nat, hi: nat)
    requires lo == rs % 4 && mid == (rs / 4) % 4 && hi == rs / 16
    ensures rs == lo + 4 * mid + 16 * hi && hi < 4
    ensures Triple(rs, 0) == 2 * lo
    ensures Triple(rs, 1) == 2 * mid + lo / 2
    ensures Triple(rs, 2) == 2 * hi + mid / 2
  {
    DivModUnique(rs, 4, rs / 4, lo);
    DivModUnique(rs / 4, 4, hi, mid) by { DivDiv(rs, 4, 4); }
    DivModUnique(2 * rs, 8, rs / 4, 2 * lo);
    DivModUnique(rs, 2, 2 * mid + 8 * hi + lo / 2, lo % 2);
    DivModUnique(rs / 2, 8, hi, 2 * mid + lo / 2);
    DivModUnique(rs, 8, 2 * hi + mid / 2, rs - 8 * (2 * hi + mid / 2));
    DivModUnique(rs / 8, 8, 0, rs / 8);
  }

  /** The digit of a triple whose top two bits read x and whose low bit is carry. */
  lemma DigitPair(x: nat, carry: nat, t: nat)
    requires x < 4 && carry < 2 && t == 2 * x + carry
    ensures Digit(t) == Signed2(x) + carry
  {
  }

  /** The signed number A stands for after each step that does not overflow. */
  ghost predicate NoOverflow(rs: Operand, rt: Operand, r3: Operand)
  {
    forall k :: 0 <= k < TotNumShifts ==>
      -4096 <= UnsignedToSigned(Acc(rs, rt, r3, k), 13) + 128 * AddendValue(Triple(rs, k), rt, r3) < 4096
  }

  /** Without overflow, the product is the sum of the three chosen addends
      weighted 1, 4 and 16, read as a 12-bit signed number. */
  lemma BoothValue(rs: Operand, rt: Operand, r3: Operand)
    requires NoOverflow(rs, rt, r3)
    ensures UnsignedToSigned(Product(rs, rt, r3), 12)
         == AddendValue(Triple(rs, 0), rt, r3) + 4 * AddendValue(Triple(rs, 1), rt, r3)
          + 16 * AddendValue(Triple(rs, 2), rt, r3)
  {
    Pow2Values();
    var e0, e1, e2 := AddendValue(Triple(rs, 0), rt, r3), AddendValue(Triple(rs, 1), rt, r3), AddendValue(Triple(rs, 2), rt, r3);
    var v0, v1, v2, v3 := SignedAcc(rs, rt, r3, 0), SignedAcc(rs, rt, r3, 1), SignedAcc(rs, rt, r3, 2), SignedAcc(rs, rt, r3, 3);
    assert v0 == 2 * rs by { Signed13(2 * rs); }
    assert v1 == (v0 + 128 * e0) / 4 by { StepThrough(rs, rt, r3, 0); }
    assert v2 == (v1 + 128 * e1) / 4 by { StepThrough(rs, rt, r3, 1); }
    assert v3 == (v2 + 128 * e2) / 4 by { StepThrough(rs, rt, r3, 2); }
    var a3 := Acc(rs, rt, r3, 3);
    Signed13(a3);
    Signed12(a3 / 2);
    assert UnsignedToSigned(Product(rs, rt, r3), 12) == v3 / 2;
    assert v1 == rs / 2 + 32 * e0;
    assert v2 == rs / 8 + 8 * e0 + 32 * e1;
    assert v3 == rs / 32 + 2 * e0 + 8 * e1 + 32 * e2;
  }

  function SignedAcc(rs: Operand, rt: Operand, r3: Operand, k: nat): int
    requires k <= TotNumShifts
  {
    UnsignedToSigned(Acc(rs, rt, r3, k), 13)
  }

  lemma StepThrough(rs: Operand, rt: Operand, r3: Operand, k: nat)
    requires k < TotNumShifts
    requires -4096 <= SignedAcc(rs, rt, r3, k) + 128 * AddendValue(Triple(rs, k), rt, r3) < 4096
    ensures SignedAcc(rs, rt, r3, k + 1) == (SignedAcc(rs, rt, r3, k) + 128 * AddendValue(Triple(rs, k), rt, r3)) / 4
  {
    InspectedTriples(rs, rt, r3, k);
    StepSigned(Acc(rs, rt, r3, k), rt, r3);
  }

  /** With "2B" in r3 (r3 read as 6-bit signed is twice rt) the addends are
      the recoding digits times the multiplicand. */
  lemma AddendIsDigitTimes(pad: nat, rt: Operand, r3: Operand)
    requires pad < 8
    requires -15 <= UnsignedToSigned(rt, 6) <= 15
    requires UnsignedToSigned(r3, 6) == 2 * UnsignedToSigned(rt, 6)
    ensures AddendValue(pad, rt, r3) == Digit(pad) * UnsignedToSigned(rt, 6)
  {
    Signed6(rt);
    Signed6(r3);
    TwosComplementNegates(rt);
    TwosComplementNegates(r3);
  }

  /** The multiplier is correct when r3 holds 2B and the multiplicand rt lies
      in [-15, 15]: then no step overflows and bth writes rs * rt as a 12-bit
      two's complement number. (At rt = -16 it fails: see
      ExampleMinusSixteenOverflows.) */
  lemma BoothMultiplies(rs: Operand, rt: Operand, r3: Operand)
    requires -15 <= UnsignedToSigned(rt, 6) <= 15
    requires UnsignedToSigned(r3, 6) == 2 * UnsignedToSigned(rt, 6)
    ensures UnsignedToSigned(Product(rs, rt, r3), 12) == UnsignedToSigned(rs, 6) * UnsignedToSigned(rt, 6)
  {
    var b := UnsignedToSigned(rt, 6);
    var d0, d1, d2 := Digit(Triple(rs, 0)), Digit(Triple(rs, 1)), Digit(Triple(rs, 2));
    var e0, e1, e2 := AddendValue(Triple(rs, 0), rt, r3), AddendValue(Triple(rs, 1), rt, r3), AddendValue(Triple(rs, 2), rt, r3);
    AddendIsDigitTimes(Triple(rs, 0), rt, r3);
    AddendIsDigitTimes(Triple(rs, 1), rt, r3);
    AddendIsDigitTimes(Triple(rs, 2), rt, r3);
    DigitAddendsNoOverflow(rs, rt, r3, b);
    BoothValue(rs, rt, r3);
    BoothRecoding(rs);
    Distribute(UnsignedToSigned(Product(rs, rt, r3), 12), UnsignedToSigned(rs, 6), b, d0, d1, d2, e0, e1, e2);
  }

  /** Addends that are the recoding digits times one b in [-15, 15] never
      overflow the 13-bit accumulator: before step k it holds about 2**(7-2k)
      times b times the part of rs recoded so far, which lies in [-2, 1],
      [-8, 7] and [-32, 31] for k = 0, 1, 2. */
  lemma DigitAddendsNoOverflow(rs: Operand, rt: Operand, r3: Operand, b: int)
    requires -15 <= b <= 15
    requires AddendValue(Triple(rs, 0), rt, r3) == Digit(Triple(rs, 0)) * b
    requires AddendValue(Triple(rs, 1), rt, r3) == Digit(Triple(rs, 1)) * b
    requires AddendValue(Triple(rs, 2), rt, r3) == Digit(Triple(rs, 2)) * b
    ensures NoOverflow(rs, rt, r3)
  {
    var lo, mid, hi := rs % 4, (rs / 4) % 4, rs / 16;
    TripleParts(rs, lo, mid, hi);
    var d0, d1, d2 := Digit(Triple(rs, 0)), Digit(Triple(rs, 1)), Digit(Triple(rs, 2));
    DigitPair(lo, 0, Triple(rs, 0));
    DigitPair(mid, lo / 2, Triple(rs, 1));
    PartialRecoding(lo, mid, d0, d1);
    BoothRecoding(rs);
    Signed6(rs);
    var e0, e1, e2 := AddendValue(Triple(rs, 0), rt, r3), AddendValue(Triple(rs, 1), rt, r3), AddendValue(Triple(rs, 2), rt, r3);
    var v0, v1, v2 := SignedAcc(rs, rt, r3, 0), SignedAcc(rs, rt, r3, 1), SignedAcc(rs, rt, r3, 2);
    assert v0 == 2 * rs by { Pow2Values(); Signed13(2 * rs); }
    FirstStepFits(rs, b, d0, e0);
    StepThrough(rs, rt, r3, 0);
    SecondStepFits(rs, b, d0, d1, e0, e1, v1);
    StepThrough(rs, rt, r3, 1);
    ThirdStepFits(rs, b, d0, d1, d2, e0, e1, e2, v1, v2);
    forall k | 0 <= k < TotNumShifts
      ensures -4096 <= SignedAcc(rs, rt, r3, k) + 128 * AddendValue(Triple(rs, k), rt, r3) < 4096
    {
      if k == 0 {
      } else if k == 1 {
      } else {
        assert k == 2;
      }
    }
  }

  /** The first one and two recoding digits stand for the low two and four
      bits of rs, the top one of them read as a sign. */
  lemma PartialRecoding(lo: nat, mid: nat, d0: int, d1: int)
    requires lo < 4 && mid < 4 && d0 == Signed2(lo) && d1 == Signed2(mid) + lo / 2
    ensures -2 <= d0 <= 1 && -8 <= d0 + 4 * d1 <= 7
  {
    assert Signed2(lo) + 4 * (lo / 2) == lo;
  }

  lemma FirstStepFits(rs: int, b: int, d0: int, e0: int)
    requires 0 <= rs < 64 && -15 <= b <= 15 && -2 <= d0 <= 2 && e0 == d0 * b
    ensures -4096 <= 2 * rs + 128 * e0 < 4096
  {
    MulBound(d0, b, 2, 15);
  }

  lemma SecondStepFits(rs: int, b: int, d0: int, d1: int, e0: int, e1: int, v1: int)
    requires 0 <= rs < 64 && -15 <= b <= 15 && -8 <= d0 + 4 * d1 <= 8
    requires e0 == d0 * b && e1 == d1 * b && v1 == (2 * rs + 128 * e0) / 4
    ensures v1 == rs / 2 + 32 * e0
    ensures -4096 <= v1 + 128 * e1 < 4096
  {
    DivModUnique(2 * rs + 128 * e0, 4, rs / 2 + 32 * e0, 2 * (rs % 2));
    assert e0 + 4 * e1 == (d0 + 4 * d1) * b;
    MulBound(d0 + 4 * d1, b, 8, 15);
  }

  lemma ThirdStepFits(rs: int, b: int, d0: int, d1: int, d2: int, e0: int, e1: int, e2: int, v1: int, v2: int)
    requires 0 <= rs < 64 && -15 <= b <= 15 && -32 <= d0 + 4 * d1 + 16 * d2 <= 32
    requires e0 == d0 * b && e1 == d1 * b && e2 == d2 * b
    requires v1 == rs / 2 + 32 * e0 && v2 == (v1 + 128 * e1) / 4
    ensures -4096 <= v2 + 128 * e2 < 4096
  {
    DivModUnique(v1 + 128 * e1, 4, rs / 2 / 4 + 8 * (e0 + 4 * e1), (rs / 2) % 4);
    DivDiv(rs, 2, 4);
    assert e0 + 4 * e1 + 16 * e2 == (d0 + 4 * d1 + 16 * d2) * b;
    MulBound(d0 + 4 * d1 + 16 * d2, b, 32, 15);
  }

  /** The weighted sum of the addends is the recoded multiplier times b. */
  lemma Distribute(p: int, s: int, b: int, d0: int, d1: int, d2: int, e0: int, e1: int, e2: int)
    requires p == e0 + 4 * e1 + 16 * e2 && s == d0 + 4 * d1 + 16 * d2
    requires e0 == d0 * b && e1 == d1 * b && e2 == d2 * b
    ensures p == s * b
  {
    assert (d0 + 4 * d1 + 16 * d2) * b == d0 * b + 4 * (d1 * b) + 16 * (d2 * b);
  }

  /** A product of two bounded integers is bounded by the product of the bounds. */
  lemma MulBound(x: int, y: int, m: int, n: int)
    requires 0 <= m && 0 <= n && -m <= x <= m && -n <= y <= n
    ensures -(m * n) <= x * y <= m * n
  {
    MulMono(y, n, m);
    MulMono(-n, y, m);
    if y >= 0 {
      MulMono(x, m, y);
      MulMono(-m, x, y);
    } else {
      MulMono(x, m, -y);
      MulMono(-m, x, -y);
    }
  }

  /** Multiplying by a non-negative number keeps an order. */
  lemma MulMono(a: int, b: int, c: int)
    requires a <= b && 0 <= c
    ensures a * c <= b * c
  {
    assert b * c - a * c == (b - a) * c;
  }


  // ---------------------------------------------------------------------
  // Worked examples behind the "Product of" line

  /** The product from the three accumulator values the steps produce. */
  lemma ProductBySteps(rs: Multiplier, rt: Operand, r3: Operand, a1: nat, a2: nat, a3: nat)
    requires 2 * rs < 8192 && a1 < 8192 && a2 < 8192
    requires Step(2 * rs, rt, r3) == a1 && Step(a1, rt, r3) == a2 && Step(a2, rt, r3) == a3
    ensures Product(rs, rt, r3) == a3 / 2
  {
    assert Acc(rs, rt, r3, 1) == a1;
    assert Acc(rs, rt, r3, 2) == a2;
  }

  /** 5 * 3 = 15: the triples are 010, 010, 000, so r3 plays no part. */
  lemma ExampleFiveTimesThree(r3: Operand)
    ensures Product(5, 3, r3) == 15
  {
    Pow2Values();
    assert Addend(2, 3, r3) == 384 && Addend(0, 3, r3) == 0;
    assert Step(10, 3, r3) == 98;
    assert Step(98, 3, r3) == 120;
    assert Step(120, 3, r3) == 30;
    ProductBySteps(5, 3, r3, 98, 120, 30);
  }

  /** 5 * -3: rt = 61 is -3 in 6 bits, and the 12-bit result 4081 is -15. */
  lemma ExampleFiveTimesMinusThree(r3: Operand)
    ensures Product(5, 61, r3) == 4081
    ensures UnsignedToSigned(Product(5, 61, r3), 12) == -15
  {
    Pow2Values();
    assert Addend(2, 61, r3) == 7808 && Addend(0, 61, r3) == 0;
    assert Step(10, 61, r3) == 8098;
    assert Step(8098, 61, r3) == 8072;
    assert Step(8072, 61, r3) == 8162;
    ProductBySteps(5, 61, r3, 8098, 8072, 8162);
    Signed12(4081);
  }

  /** 6 * 3: the triples are 100 and 011, so the result needs "2B" = 6 in r3. */
  lemma ExampleSixTimesThree()
    ensures Product(6, 3, 6) == 18
  {
    Pow2Values();
    assert Step(12, 3, 6) == 8003;
    assert Step(8003, 3, 6) == 144;
    assert Step(144, 3, 6) == 36;
    ProductBySteps(6, 3, 6, 8003, 144, 36);
  }

  /** At rt = -16 (48) with "2B" = -32 (32) in r3 the accumulator overflows
      in the last step, and 2 * -16 comes out as -96. */
  lemma ExampleMinusSixteenOverflows()
    ensures UnsignedToSigned(48, 6) == -16 && UnsignedToSigned(32, 6) == 2 * UnsignedToSigned(48, 6)
    ensures Product(2, 48, 32) == 4000
    ensures UnsignedToSigned(Product(2, 48, 32), 12) == -96
    ensures UnsignedToSigned(2, 6) * UnsignedToSigned(48, 6) == -32
  {
    Pow2Values();
    Signed6(48);
    Signed6(32);
    Signed6(2);
    assert Step(4, 48, 32) == 7169;
    assert Step(7169, 48, 32) == 7424;
    assert Step(7424, 48, 32) == 8000;
    ProductBySteps(2, 48, 32, 7169, 7424, 8000);
    Signed12(4000);
  }

  /** A multiplier of 12 bits: rs = 4087 (-9 in 12 bits) times 3 with r3 = 6.
      A starts at 8174, and the steps give 8091, 166 and 8137. */
  /** s6(rt) = -16 does not always overflow: with rs = 1 the product is
      exact, 1 times 48 (-16) with r3 = 32 giving 4080, which is -16. */
  lemma ExampleMinusSixteenTimesOne()
    ensures UnsignedToSigned(48, 6) == -16 && UnsignedToSigned(32, 6) == 2 * UnsignedToSigned(48, 6)
    ensures Product(1, 48, 32) == 4080
    ensures UnsignedToSigned(Product(1, 48, 32), 12) == UnsignedToSigned(1, 6) * UnsignedToSigned(48, 6)
  {
    Pow2Values();
    Signed6(48);
    Signed6(32);
    Signed6(1);
    assert Step(2, 48, 32) == 7680;
    assert Step(7680, 48, 32) == 8064;
    assert Step(8064, 48, 32) == 8160;
    ProductBySteps(1, 48, 32, 7680, 8064, 8160);
    Signed12(4080);
  }

  lemma ExampleWideMultiplier()
    ensures Product(4087, 3, 6) == 4068
  {
    Pow2Values();
    assert Step(8174, 3, 6) == 8091;
    assert Step(8091, 3, 6) == 166;
    assert Step(166, 3, 6) == 8137;
    ProductBySteps(4087, 3, 6, 8091, 166, 8137);
  }

  /** With r3 = 3, as if r3 held rt itself, 6 * 3 comes out as 9. */
  lemma ExampleSixTimesThreeR3Unset()
    ensures Product(6, 3, 3) == 9
  {
    Pow2Values();
    assert Step(12, 3, 3) == 8099;
    assert Step(8099, 3, 3) == 72;
    assert Step(72, 3, 3) == 18;
    ProductBySteps(6, 3, 3, 8099, 72, 18);
  }
}
