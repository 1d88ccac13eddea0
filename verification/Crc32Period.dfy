/** Two errors far apart (cx_crc32 of src/cx_wrappers.c): the powers of x modulo the generator repeat only after
    2^32 - 1 of them. */
module Crc32Period {
  import opened Crc32Table
  import opened Crc32
  import D = Divisors

  /** The polynomial 1, as a register holds it. */
  const ONE: bv32 := 0x80000000

  /** x^k modulo the generator. */
  function Power(k: nat): bv32 { Shifts(ONE, k) }

  // ------------------------------------------------------------------ multiplication modulo the generator

  /** y times a, the coefficients of y from the highest one on; acc is what there is already. */
  function Combine(acc: bv32, y: Poly, a: bv32): bv32
    decreases |y|
  {
    if y == [] then acc else Combine(Add(ShiftBit(acc), if y[0] then a else 0), y[1..], a)
  }

  function Moved1(y: bv32): bv32 { y >> 1 }
  function Moved2(y: bv32): bv32 { y >> 2 }
  function Moved4(y: bv32): bv32 { y >> 4 }
  function Moved8(y: bv32): bv32 { y >> 8 }
  function Moved16(y: bv32): bv32 { y >> 16 }

  /** The same for registers, by 1 to 16 bits of y. */
  function Mul1(acc: bv32, y: bv32, a: bv32): bv32 { if y & 1 == 1 then Add(ShiftBit(acc), a) else ShiftBit(acc) }
  function Mul2(acc: bv32, y: bv32, a: bv32): bv32 { Mul1(Mul1(acc, y, a), Moved1(y), a) }
  function Mul4(acc: bv32, y: bv32, a: bv32): bv32 { Mul2(Mul2(acc, y, a), Moved2(y), a) }
  function Mul8(acc: bv32, y: bv32, a: bv32): bv32 { Mul4(Mul4(acc, y, a), Moved4(y), a) }
  function Mul16(acc: bv32, y: bv32, a: bv32): bv32 { Mul8(Mul8(acc, y, a), Moved8(y), a) }
  function Times(y: bv32, a: bv32): bv32 { Mul16(Mul16(0, y, a), Moved16(y), a) }

  lemma {:induction false} CombineConcat(acc: bv32, p: Poly, q: Poly, a: bv32)
    ensures Combine(acc, p + q, a) == Combine(Combine(acc, p, a), q, a)
    decreases |p|
  {
    hide Add, ShiftBit;
    if p == [] {
      assert p + q == q;
    } else {
      assert (p + q)[1..] == p[1..] + q;
      CombineConcat(Add(ShiftBit(acc), if p[0] then a else 0), p[1..], q, a);
    }
  }

  lemma Twice1(y: bv32)
    ensures Moved1(Moved1(y)) == Moved2(y)
  {
  }

  lemma Twice2(y: bv32)
    ensures Moved2(Moved2(y)) == Moved4(y)
  {
  }

  lemma Twice4(y: bv32)
    ensures Moved4(Moved4(y)) == Moved8(y)
  {
  }

  lemma Twice8(y: bv32)
    ensures Moved8(Moved8(y)) == Moved16(y)
  {
  }

  lemma HalvedOne(y: bv32)
    ensures Halved(y, 1) == Moved1(y)
  {
  }

  /** The parts of a word that the steps work on. */
  lemma HalvedIs(y: bv32)
    ensures Halved(y, 2) == Moved2(y) && Halved(y, 4) == Moved4(y) && Halved(y, 8) == Moved8(y)
    ensures Halved(y, 16) == Moved16(y)
  {
    hide *;
    HalvedTwo(y);
    HalvedFour(y);
    HalvedEight(y);
    HalvedTwice(y, 8, 8);
    HalvedEight(Moved8(y));
    Twice8(y);
  }

  lemma HalvedTwo(y: bv32)
    ensures Halved(y, 2) == Moved2(y)
  {
    hide *;
    HalvedTwice(y, 1, 1);
    HalvedOne(y);
    HalvedOne(Moved1(y));
    Twice1(y);
  }

  lemma HalvedFour(y: bv32)
    ensures Halved(y, 4) == Moved4(y)
  {
    hide *;
    HalvedTwice(y, 2, 2);
    HalvedTwo(y);
    HalvedTwo(Moved2(y));
    Twice2(y);
  }

  lemma HalvedEight(y: bv32)
    ensures Halved(y, 8) == Moved8(y)
  {
    hide *;
    HalvedTwice(y, 4, 4);
    HalvedFour(y);
    HalvedFour(Moved4(y));
    Twice4(y);
  }

  lemma Mul1Is(acc: bv32, y: bv32, a: bv32)
    ensures Mul1(acc, y, a) == Combine(acc, Bits(y, 1), a)
  {
    AddZero(ShiftBit(acc));
    hide Add, ShiftBit;
    var b := y & 1 == 1;
    BitsStep(y, 1);
    BitsStep(y >> 1, 0);
    assert Bits(y, 1) == [b];
    assert [b][1..] == [];
  }

  lemma Mul2Is(acc: bv32, y: bv32, a: bv32)
    ensures Mul2(acc, y, a) == Combine(acc, Bits(y, 2), a)
  {
    hide Mul1, Moved1, Combine, Bits, Halved;
    BitsSplit(y, 1, 1);
    HalvedOne(y);
    CombineConcat(acc, Bits(y, 1), Bits(Moved1(y), 1), a);
    Mul1Is(acc, y, a);
    Mul1Is(Mul1(acc, y, a), Moved1(y), a);
  }

  lemma Mul4Is(acc: bv32, y: bv32, a: bv32)
    ensures Mul4(acc, y, a) == Combine(acc, Bits(y, 4), a)
  {
    hide Mul2, Moved2, Combine, Bits, Halved;
    BitsSplit(y, 2, 2);
    HalvedIs(y);
    CombineConcat(acc, Bits(y, 2), Bits(Moved2(y), 2), a);
    Mul2Is(acc, y, a);
    Mul2Is(Mul2(acc, y, a), Moved2(y), a);
  }

  lemma Mul8Is(acc: bv32, y: bv32, a: bv32)
    ensures Mul8(acc, y, a) == Combine(acc, Bits(y, 8), a)
  {
    hide Mul4, Moved4, Combine, Bits, Halved;
    BitsSplit(y, 4, 4);
    HalvedIs(y);
    CombineConcat(acc, Bits(y, 4), Bits(Moved4(y), 4), a);
    Mul4Is(acc, y, a);
    Mul4Is(Mul4(acc, y, a), Moved4(y), a);
  }

  lemma Mul16Is(acc: bv32, y: bv32, a: bv32)
    ensures Mul16(acc, y, a) == Combine(acc, Bits(y, 16), a)
  {
    hide Mul8, Moved8, Combine, Bits, Halved;
    BitsSplit(y, 8, 8);
    HalvedIs(y);
    CombineConcat(acc, Bits(y, 8), Bits(Moved8(y), 8), a);
    Mul8Is(acc, y, a);
    Mul8Is(Mul8(acc, y, a), Moved8(y), a);
  }

  lemma TimesIs(y: bv32, a: bv32)
    ensures Times(y, a) == Combine(0, Coefficients(y), a)
  {
    hide Mul16, Moved16, Combine, Bits, Halved;
    BitsSplit(y, 16, 16);
    HalvedIs(y);
    CombineConcat(0, Bits(y, 16), Bits(Moved16(y), 16), a);
    Mul16Is(0, y, a);
    Mul16Is(Mul16(0, y, a), Moved16(y), a);
  }

  // ------------------------------------------------------------------ multiplication and powers

  lemma ShiftOfZero()
    ensures ShiftBit(0) == 0
  {
  }

  /** Multiplication and shifting can be done in either order. */
  lemma {:induction false} CombineShift(acc: bv32, y: Poly, a: bv32)
    ensures ShiftBit(Combine(acc, y, a)) == Combine(ShiftBit(acc), y, ShiftBit(a))
    decreases |y|
  {
    hide Add, ShiftBit;
    if y != [] {
      var b := if y[0] then a else 0;
      ShiftOfZero();
      ShiftBitLinear(ShiftBit(acc), b);
      CombineShift(Add(ShiftBit(acc), b), y[1..], a);
    }
  }

  lemma {:induction false} CombineShifts(y: Poly, a: bv32, k: nat)
    ensures Shifts(Combine(0, y, a), k) == Combine(0, y, Shifts(a, k))
    decreases k
  {
    hide ShiftBit, Combine;
    if k > 0 {
      ShiftOfZero();
      CombineShift(0, y, a);
      CombineShifts(y, ShiftBit(a), k - 1);
    }
  }

  lemma EightZeros()
    ensures Zeros(8) == [false, false, false, false, false, false, false, false]
    ensures Zeros(7) + [true] == [false, false, false, false, false, false, false, true]
  {
  }

  lemma LowBytesOfOne()
    ensures Bits(0x80000000, 8) == [false, false, false, false, false, false, false, false]
    ensures Bits(0x800000, 8) == [false, false, false, false, false, false, false, false]
  {
  }

  lemma HighBytesOfOne()
    ensures Bits(0x8000, 8) == [false, false, false, false, false, false, false, false]
    ensures Bits(0x80, 8) == [false, false, false, false, false, false, false, true]
  {
  }

  lemma CoefficientsOfOne()
    ensures Coefficients(ONE) == Zeros(31) + [true]
  {
    assert Coefficients(ONE) == Bits(0x80000000, 32);
    hide *;
    LowBytesOfOne();
    HighBytesOfOne();
    EightZeros();
    LowByteFirst(0x80000000, 24);
    LowByteFirst(0x800000, 16);
    LowByteFirst(0x8000, 8);
    FourBytes();
  }

  lemma FourBytes()
    ensures Zeros(8) + (Zeros(8) + (Zeros(8) + (Zeros(7) + [true]))) == Zeros(31) + [true]
  {
  }

  lemma MovedRow(p: Poly)
    requires |p| < 32
    ensures DivideOnce(Zeros(32 - |p|) + p) == Zeros(31 - |p|) + (p + [false])
  {
    assert (Zeros(32 - |p|) + p)[1..] == Zeros(31 - |p|) + p;
  }

  lemma LastSet(z: Poly, p: Poly)
    requires |z| + |p| == 31
    ensures AddToFront(z + (p + [false]), Zeros(31) + [true]) == z + (p + [true])
  {
  }

  /** One more coefficient of y, as long as the register does not overflow. */
  lemma NextCoefficient(acc: bv32, p: Poly, b: bool)
    requires |p| < 32 && Coefficients(acc) == Zeros(32 - |p|) + p
    ensures Coefficients(Add(ShiftBit(acc), if b then ONE else 0)) == Zeros(31 - |p|) + (p + [b])
  {
    var x := ShiftBit(acc);
    assert Coefficients(Add(x, ONE)) == AddToFront(Coefficients(x), Coefficients(ONE)) by { BitsAdd(x, ONE, 32); }
    hide *;
    ShiftBitDivides(acc);
    CoefficientsOfOne();
    AddZero(x);
    MovedRow(p);
    LastSet(Zeros(31 - |p|), p);
  }

  lemma {:induction false} CombineOneFrom(acc: bv32, p: Poly, q: Poly)
    requires |p| + |q| == 32 && Coefficients(acc) == Zeros(32 - |p|) + p
    ensures Coefficients(Combine(acc, q, ONE)) == p + q
    decreases |q|
  {
    hide Coefficients, Add, ShiftBit;
    if q == [] {
      assert Zeros(0) + p == p == p + q;
    } else {
      NextCoefficient(acc, p, q[0]);
      CombineOneFrom(Add(ShiftBit(acc), if q[0] then ONE else 0), p + [q[0]], q[1..]);
      assert p + [q[0]] + q[1..] == p + q;
    }
  }

  /** Times 1. */
  lemma CombineOne(y: bv32)
    ensures Combine(0, Coefficients(y), ONE) == y
  {
    hide *;
    CoefficientsOfNothing();
    CombineOneFrom(0, [], Coefficients(y));
    assert [] + Coefficients(y) == Coefficients(y);
    SameCoefficients(Combine(0, Coefficients(y), ONE), y);
  }

  lemma CoefficientsOfNothing()
    ensures Coefficients(0) == Zeros(32) + []
  {
    BitsOfZero(32);
  }

  lemma SameCoefficients(x: bv32, y: bv32)
    requires Coefficients(x) == Coefficients(y)
    ensures x == y
  {
    hide Bits, Halved;
    NothingLeft(x);
    NothingLeft(y);
    BitsInjective(x, y, 32);
  }

  lemma {:induction false} ShiftsAdd(r: bv32, j: nat, k: nat)
    ensures Shifts(r, j + k) == Shifts(Shifts(r, j), k)
    decreases j
  {
    hide ShiftBit;
    if j > 0 { ShiftsAdd(ShiftBit(r), j - 1, k); }
  }

  /** Powers are multiplied by adding the exponents. */
  lemma Product(j: nat, k: nat)
    ensures Power(j + k) == Times(Power(j), Power(k))
  {
    hide Shifts, Times, Combine, Coefficients;
    var y := Power(j);
    ShiftsAdd(ONE, j, k);
    CombineOne(y);
    CombineShifts(Coefficients(y), ONE, k);
    TimesIs(y, Power(k));
  }

  // ------------------------------------------------------------------ x to the powers of two

  function TwoTo(i: nat): nat { if i == 0 then 1 else 2 * TwoTo(i - 1) }

  /** x^(2^i), for i up to 32. */
  function Square(i: nat): bv32 {
    match i
    case 0 => 0x40000000 case 1 => 0x20000000 case 2 => 0x08000000 case 3 => 0x00800000
    case 4 => 0x00008000 case 5 => 0xedb88320 case 6 => 0xb1e6b092 case 7 => 0xa06a2517
    case 8 => 0xed627dae case 9 => 0x88d14467 case 10 => 0xd7bbfe6a case 11 => 0xec447f11
    case 12 => 0x8e7ea170 case 13 => 0x6427800e case 14 => 0x4d47bae0 case 15 => 0x09fe548f
    case 16 => 0x83852d0f case 17 => 0x30362f1a case 18 => 0x7b5a9cc3 case 19 => 0x31fec169
    case 20 => 0x9fec022a case 21 => 0x6c8dedc4 case 22 => 0x15d6874d case 23 => 0x5fde7a4e
    case 24 => 0xbad90e37 case 25 => 0x2e4e5eef case 26 => 0x4eaba214 case 27 => 0xa8a472c0
    case 28 => 0x429a969e case 29 => 0x148d302a case 30 => 0xc40ba6d0 case 31 => 0xc4e22c3c
    case _ => 0x40000000
  }

  lemma Squares0(i: nat)
    requires 0 <= i < 4
    ensures Times(Square(i), Square(i)) == Square(i + 1)
  {
    if i == 0 {} else if i == 1 {} else if i == 2 {} else {}
  }

  lemma Squares4(i: nat)
    requires 4 <= i < 8
    ensures Times(Square(i), Square(i)) == Square(i + 1)
  {
    if i == 4 {} else if i == 5 {} else if i == 6 {} else {}
  }

  lemma Squares8(i: nat)
    requires 8 <= i < 12
    ensures Times(Square(i), Square(i)) == Square(i + 1)
  {
    if i == 8 {} else if i == 9 {} else if i == 10 {} else {}
  }

  lemma Squares12(i: nat)
    requires 12 <= i < 16
    ensures Times(Square(i), Square(i)) == Square(i + 1)
  {
    if i == 12 {} else if i == 13 {} else if i == 14 {} else {}
  }

  lemma Squares16(i: nat)
    requires 16 <= i < 20
    ensures Times(Square(i), Square(i)) == Square(i + 1)
  {
    if i == 16 {} else if i == 17 {} else if i == 18 {} else {}
  }

  lemma Squares20(i: nat)
    requires 20 <= i < 24
    ensures Times(Square(i), Square(i)) == Square(i + 1)
  {
    if i == 20 {} else if i == 21 {} else if i == 22 {} else {}
  }

  lemma Squares24(i: nat)
    requires 24 <= i < 28
    ensures Times(Square(i), Square(i)) == Square(i + 1)
  {
    if i == 24 {} else if i == 25 {} else if i == 26 {} else {}
  }

  lemma Squares28(i: nat)
    requires 28 <= i < 32
    ensures Times(Square(i), Square(i)) == Square(i + 1)
  {
    if i == 28 {} else if i == 29 {} else if i == 30 {} else {}
  }

  lemma Squared(k: nat)
    requires k < 32
    ensures Times(Square(k), Square(k)) == Square(k + 1)
  {
    hide *;
    if k < 4 { Squares0(k); } else if k < 8 { Squares4(k); }
    else if k < 12 { Squares8(k); } else if k < 16 { Squares12(k); }
    else if k < 20 { Squares16(k); } else if k < 24 { Squares20(k); }
    else if k < 28 { Squares24(k); } else { Squares28(k); }
  }

  lemma FirstPower()
    ensures Power(TwoTo(0)) == Square(0)
  {
    assert Shifts(ONE, 1) == ShiftBit(ONE);
  }

  lemma Doubled(i: nat)
    requires i > 0
    ensures TwoTo(i) == TwoTo(i - 1) + TwoTo(i - 1)
  {
  }

  lemma {:induction false} SquareIsPower(i: nat)
    requires i <= 32
    ensures Power(TwoTo(i)) == Square(i)
  {
    hide *;
    if i == 0 {
      FirstPower();
    } else {
      SquareIsPower(i - 1);
      Doubled(i);
      Product(TwoTo(i - 1), TwoTo(i - 1));
      Squared(i - 1);
    }
  }

  // ------------------------------------------------------------------ the period

  /** x^k is 1. */
  predicate IsPeriod(k: nat) { Power(k) == ONE }

  /** What the registers are repeated after. */
  const PERIOD := 0xFFFF_FFFF

  lemma PowerSum(j: nat, k: nat)
    requires IsPeriod(j)
    ensures Power(j + k) == Power(k)
  {
    ShiftsAdd(ONE, j, k);
    hide Shifts;
  }

  lemma PeriodsSubtract(j: nat, k: nat)
    requires IsPeriod(j) && IsPeriod(k) && k <= j
    ensures IsPeriod(j - k)
  {
    hide Power;
    PowerSum(k, j - k);
  }

  lemma {:induction false} PeriodTimes(d: nat, m: nat)
    requires IsPeriod(d)
    ensures IsPeriod(d * m)
    decreases m
  {
    if m == 0 {
      assert Shifts(ONE, 0) == ONE;
    } else {
      hide Power;
      PeriodTimes(d, m - 1);
      assert d * m == d + d * (m - 1);
      PowerSum(d, d * (m - 1));
    }
  }

  lemma PowersOfTwo()
    ensures TwoTo(0) == 1 && TwoTo(2) == 4 && TwoTo(4) == 16 && TwoTo(6) == 64 && TwoTo(8) == 256
    ensures TwoTo(10) == 0x400 && TwoTo(12) == 0x1000 && TwoTo(14) == 0x4000 && TwoTo(16) == 0x1_0000
    ensures TwoTo(18) == 0x4_0000 && TwoTo(20) == 0x10_0000 && TwoTo(22) == 0x40_0000 && TwoTo(24) == 0x100_0000
    ensures TwoTo(26) == 0x400_0000 && TwoTo(28) == 0x1000_0000 && TwoTo(30) == 0x4000_0000
    ensures TwoTo(32) == 0x1_0000_0000
  {
  }

  /** 2^32 - 1 is a period. */
  lemma WholePeriod()
    ensures IsPeriod(PERIOD)
  {
    PowersOfTwo();
    SquareIsPower(32);
    SquareIsPower(0);
    assert Power(PERIOD + 1) == Power(1) == Square(0);
    ShiftsAdd(ONE, PERIOD, 1);
    ShiftsAdd(ONE, 0, 1);
    hide *;
    SameWithoutLast(PERIOD);
  }

  lemma SameWithoutLast(k: nat)
    requires Power(k + 1) == Power(1)
    ensures IsPeriod(k)
  {
    ShiftsAdd(ONE, k, 1);
    assert Shifts(ONE, 0) == ONE;
    hide ShiftBit, UnshiftBit;
    ShiftsInjective(Shifts(ONE, k), ONE, 1);
  }

  /** Products of two and of four of the squares: x^(2^i * 0x10001) and x^(2^i * 0x01010101). */
  function Half(i: nat): bv32 {
    match i
    case 0 => 0xac7a15a7 case 2 => 0x216c9960 case 4 => 0x816532e8 case 6 => 0x934ee480
    case 8 => 0x4630d51a case 10 => 0x72642ca4 case 12 => 0xac191907 case _ => 0x0770ba16
  }

  function Fourth(i: nat): bv32 {
    match i
    case 0 => 0x316b5ba1 case 2 => 0xaebf57a4 case 4 => 0x0c283ca0 case _ => 0x13fc30a5
  }

  lemma Halves0(i: nat)
    requires i == 0 || i == 2 || i == 4 || i == 6
    ensures Times(Square(i), Square(i + 16)) == Half(i)
  {
    if i == 0 {} else if i == 2 {} else if i == 4 {} else {}
  }

  lemma Halves8(i: nat)
    requires i == 8 || i == 10 || i == 12 || i == 14
    ensures Times(Square(i), Square(i + 16)) == Half(i)
  {
    if i == 8 {} else if i == 10 {} else if i == 12 {} else {}
  }

  lemma Fourths(i: nat)
    requires i == 0 || i == 2 || i == 4 || i == 6
    ensures Times(Half(i), Half(i + 8)) == Fourth(i)
  {
    if i == 0 {} else if i == 2 {} else if i == 4 {} else {}
  }

  lemma Eighth0()
    ensures Times(0x316b5ba1, 0x0c283ca0) == 0x3d436701
  {
  }

  lemma Eighth2()
    ensures Times(0xaebf57a4, 0x13fc30a5) == 0xbd436701
  {
  }

  lemma Sixteenth()
    ensures Times(0x3d436701, 0xbd436701) == 0xc736eb52
  {
  }

  lemma FourthIsPower(i: nat)
    requires i == 0 || i == 2 || i == 4 || i == 6
    ensures Power(TwoTo(i) + TwoTo(i + 16)) == Half(i) && Power(TwoTo(i + 8) + TwoTo(i + 24)) == Half(i + 8)
    ensures Power(TwoTo(i) + TwoTo(i + 16) + (TwoTo(i + 8) + TwoTo(i + 24))) == Fourth(i)
  {
    hide *;
    SquareIsPower(i);
    SquareIsPower(i + 8);
    SquareIsPower(i + 16);
    SquareIsPower(i + 24);
    Product(TwoTo(i), TwoTo(i + 16));
    Product(TwoTo(i + 8), TwoTo(i + 24));
    Product(TwoTo(i) + TwoTo(i + 16), TwoTo(i + 8) + TwoTo(i + 24));
    Halves0(i);
    Halves8(i + 8);
    Fourths(i);
  }

  lemma PowersUsed()
    ensures Power(1) == 0x40000000 && Power(0x1_0000) == 0x83852d0f
    ensures Power(0x1_0001) == 0xac7a15a7 && Power(0x100_0100) == 0x4630d51a
    ensures Power(0x0101_0101) == 0x316b5ba1 && Power(0x0404_0404) == 0xaebf57a4
    ensures Power(0x1010_1010) == 0x0c283ca0 && Power(0x4040_4040) == 0x13fc30a5
  {
    PowersOfTwo();
    hide Power, TwoTo;
    SquareIsPower(0);
    SquareIsPower(16);
    FourthIsPower(0);
    FourthIsPower(2);
    FourthIsPower(4);
    FourthIsPower(6);
  }

  lemma MorePowers()
    ensures Power(0x1111_1111) == 0x3d436701 && Power(0x4444_4444) == 0xbd436701 && Power(0x5555_5555) == 0xc736eb52
  {
    hide *;
    PowersUsed();
    Eighth0();
    Eighth2();
    Sixteenth();
    Product(0x0101_0101, 0x1010_1010);
    Product(0x0404_0404, 0x4040_4040);
    Product(0x1111_1111, 0x4444_4444);
  }

  /** None of the quotients of 2^32 - 1 by its primes is a period. */
  lemma NoShorterPeriod(q: nat)
    requires q == 3 || q == 5 || q == 17 || q == 257 || q == 65537
    ensures !IsPeriod(PERIOD / q)
  {
    assert PERIOD / 3 == 0x5555_5555 && PERIOD / 5 == 0x3333_3333 && PERIOD / 17 == 0x0f0f_0f0f;
    assert PERIOD / 257 == 0x00ff_00ff && PERIOD / 65537 == 0xffff;
    PowersUsed();
    MorePowers();
    hide Power;
    if IsPeriod(PERIOD / q) {
      if q == 5 {
        PowerSum(0x3333_3333, 0x1111_1111);
      } else if q == 17 {
        PowerSum(0x0f0f_0f0f, 0x0101_0101);
      } else if q == 257 {
        PowerSum(0x00ff_00ff, 0x1_0001);
      } else if q == 65537 {
        PowerSum(0xffff, 1);
      }
    }
  }

  /** The powers of x repeat exactly after 2^32 - 1 of them: the generator is primitive. */
  lemma PeriodIff(k: nat)
    ensures IsPeriod(k) <==> k % PERIOD == 0
  {
    WholePeriod();
    hide IsPeriod;
    if k % PERIOD == 0 {
      PeriodTimes(PERIOD, k / PERIOD);
    }
    if IsPeriod(k) && k > 0 {
      AllPeriods(k);
    }
  }

  lemma AllPeriods(k: nat)
    requires IsPeriod(k) && k > 0 && IsPeriod(PERIOD)
    ensures k % PERIOD == 0
  {
    var P := (n: nat) => IsPeriod(n);
    assert Power(0) == ONE;
    assert P(0);
    hide IsPeriod;
    forall i: nat, j: nat | P(i) && P(j) && j <= i ensures P(i - j) {
      PeriodsSubtract(i, j);
    }
    var d := D.LeastDivides(P, PERIOD);
    assert P(k) && P(PERIOD);
    assert PERIOD % d == 0 && k % d == 0;
    var e := PERIOD / d;
    if e > 1 {
      var q := D.ProperDivisor(d, e);
      D.Quotient(q, d, e, PERIOD / q);
      PeriodTimes(d, e / q);
      NoShorterPeriod(q);
    }
  }

  // ------------------------------------------------------------------ two errors

  lemma FeedBitDifference(r: bv32, delta: bv32, bit: bool)
    ensures FeedBit(Add(r, delta), bit) == Add(FeedBit(r, bit), ShiftBit(delta))
  {
    hide Add, ShiftBit;
    ShiftBitLinear(r, delta);
    AddAssociates(r, delta, 1);
    AddCommutes(delta, 1);
    AddAssociates(r, 1, delta);
    ShiftBitLinear(Add(r, 1), delta);
  }

  /** A difference between two registers develops on its own. */
  lemma {:induction false} FeedDifference(r: bv32, delta: bv32, p: Poly)
    ensures Feed(Add(r, delta), p) == Add(Feed(r, p), Shifts(delta, |p|))
    decreases |p|
  {
    hide Add, ShiftBit, FeedBit;
    if p != [] {
      FeedBitDifference(r, delta, p[0]);
      FeedDifference(FeedBit(r, p[0]), ShiftBit(delta), p[1..]);
    }
  }

  lemma AddSame(x: bv32, y: bv32)
    ensures Add(x, y) == x <==> y == 0
  {
    hide *;
    AddZero(x);
    if Add(x, y) == x { AddCancelsLeft(y, 0, x); }
  }

  lemma SumZero(x: bv32, y: bv32)
    ensures Add(x, y) == 0 <==> x == y
  {
    hide *;
    AddZero(y);
    if Add(x, y) == 0 { AddCancels(x, y, y); }
  }

  lemma FeedOne(r: bv32, bit: bool)
    ensures Feed(r, [bit]) == FeedBit(r, bit)
  {
    FeedStep(r, bit, []);
    FeedNothing(r);
    assert [bit] + [] == [bit];
  }

  /** Two bits that are wrong, with the bits p between them. */
  lemma WrongEnds(r: bv32, x: bool, p: Poly, y: bool)
    ensures Feed(r, [!x] + p + [!y]) == Feed(r, [x] + p + [y]) <==> IsPeriod(|p| + 1)
  {
    hide *;
    var r1, n := FeedBit(r, x), |p|;
    var r2 := Feed(r1, p);
    assert [!x] + p + [!y] == [!x] + (p + [!y]) && [x] + p + [y] == [x] + (p + [y]);
    FeedStep(r, x, p + [y]);
    FeedStep(r, !x, p + [!y]);
    OtherBit(r, x);
    FeedConcat(r1, p, [y]);
    FeedConcat(Add(r1, POLY), p, [!y]);
    FeedDifference(r1, POLY, p);
    FeedOne(r2, y);
    FeedOne(Add(r2, Shifts(POLY, n)), !y);
    FeedBitDifference(r2, Shifts(POLY, n), !y);
    OtherBit(r2, y);
    AddAssociates(FeedBit(r2, y), POLY, ShiftBit(Shifts(POLY, n)));
    AddSame(FeedBit(r2, y), Add(POLY, ShiftBit(Shifts(POLY, n))));
    SumZero(POLY, ShiftBit(Shifts(POLY, n)));
    GeneratorComesBack(n);
  }

  lemma GeneratorIsPower()
    ensures POLY == Power(32)
  {
    assert TwoTo(5) == 32;
    SquareIsPower(5);
    hide Power;
  }

  /** The generator, as a register, is x^32. */
  lemma GeneratorComesBack(n: nat)
    ensures POLY == ShiftBit(Shifts(POLY, n)) <==> IsPeriod(n + 1)
  {
    GeneratorIsPower();
    assert Power(32) == Shifts(ONE, 32) && Power(n + 1) == Shifts(ONE, n + 1);
    assert IsPeriod(n + 1) <==> Power(n + 1) == ONE;
    assert Shifts(Shifts(POLY, n), 1) == ShiftBit(Shifts(POLY, n));
    hide *;
    ShiftsAdd(POLY, n, 1);
    ShiftsAdd(ONE, 32, n + 1);
    ShiftsAdd(ONE, n + 1, 32);
    if Shifts(Shifts(ONE, n + 1), 32) == Shifts(ONE, 32) {
      ShiftsInjective(Shifts(ONE, n + 1), ONE, 32);
    }
  }

  /** Two sequences of bits differ in the places i and j, and nowhere else. */
  ghost predicate DifferAt(p: Poly, q: Poly, i: nat, j: nat) {
    |p| == |q| && i < j < |p| && forall k :: 0 <= k < |p| ==> (p[k] != q[k] <==> k == i || k == j)
  }

  lemma CutAtErrors(p: Poly, q: Poly, i: nat, j: nat)
    requires DifferAt(p, q, i, j)
    ensures i < j < |p|
    ensures p[i..j + 1] == [p[i]] + p[i + 1..j] + [p[j]]
    ensures q[i..j + 1] == [!p[i]] + p[i + 1..j] + [!p[j]]
    ensures AgreeOutside(p, q, i, j + 1 - i)
  {
  }

  lemma CloseBits(n: nat, k: int)
    ensures 0 < k < 8 * n && n < 0x2000_0000 ==> k % PERIOD != 0
  {
  }

  /** Two messages that differ in exactly two bits have the same checksum exactly if the distance of the two is a
      multiple of 2^32 - 1, which takes messages of at least 2^29 bytes. */
  lemma TwoBits(a: seq<bv8>, b: seq<bv8>, i: nat, j: nat)
    requires |a| == |b| && DifferAt(Message(a), Message(b), i, j)
    ensures Crc(a) == Crc(b) <==> (j - i) % PERIOD == 0
    ensures |a| < 0x2000_0000 ==> Crc(a) != Crc(b)
  {
    var p := Message(a);
    hide *;
    CloseBits(|a|, j - i);
    CutAtErrors(p, Message(b), i, j);
    CrcOfParts(a, b, i, j + 1);
    WrongEnds(Feed(CX_CRC32_INIT, p[..i]), p[i], p[i + 1..j], p[j]);
    PeriodIff(j - i);
  }
}
