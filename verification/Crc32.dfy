/** CRC-32 (src/cx_wrappers.c): the table-driven update against the division of polynomials over GF(2). */
module Crc32 {
  import opened Crc32Table

  const CX_CRC32_INIT: bv32 := 0xFFFFFFFF

  // ------------------------------------------------------------------ polynomials over GF(2)

  /** A polynomial as its coefficients, the highest power first. */
  type Poly = seq<bool>

  /** The exponents of the generator polynomial, below x^32. */
  const EXPONENTS: set<int> := {26, 23, 22, 16, 12, 11, 10, 8, 7, 5, 4, 2, 1, 0}

  /** The generator without its leading x^32. */
  function Generator(): (g: Poly)
    ensures |g| == 32
  {
    seq(32, i => (31 - i) in EXPONENTS)
  }

  /** p with the coefficients of q added to its first ones. */
  function AddToFront(p: Poly, q: Poly): (r: Poly)
    requires |q| <= |p|
    ensures |r| == |p|
    ensures forall i :: 0 <= i < |p| ==> r[i] == if i < |q| then p[i] != q[i] else p[i]
  {
    seq(|p|, i requires 0 <= i < |p| => if i < |q| then p[i] != q[i] else p[i])
  }

  /** The remainder modulo the generator, by long division from the leading coefficient on. */
  function Remainder(p: Poly): (r: Poly)
    requires |p| >= 32
    ensures |r| == 32
    decreases |p|
  {
    if |p| == 32 then p
    else if p[0] then Remainder(AddToFront(p[1..], Generator()))
    else Remainder(p[1..])
  }

  function Zeros(n: nat): (p: Poly)
    ensures |p| == n && forall i :: 0 <= i < n ==> !p[i]
  {
    seq(n, _ => false)
  }

  /** The n lowest bits of a word, from bit 0 on. */
  function Bits(x: bv32, n: nat): (p: Poly)
    ensures |p| == n
    decreases n
  {
    if n == 0 then [] else [x & 1 == 1] + Bits(x >> 1, n - 1)
  }

  /** The coefficients that a register holds, x^31 in bit 0. */
  function Coefficients(r: bv32): (p: Poly)
    ensures |p| == 32
  {
    Bits(r, 32)
  }

  /** The bits of a message, each byte from its lowest bit on. */
  function Message(buf: seq<bv8>): (p: Poly)
    ensures |p| == 8 * |buf|
    decreases |buf|
  {
    if buf == [] then [] else Bits(buf[0] as bv32, 8) + Message(buf[1..])
  }

  // ------------------------------------------------------------------ the implementation

  // The bit-vector operators of the code, by name: addition over GF(2), a byte added to the register, the eight
  // low coefficients (which eight shifts move out), the others, and the others moved by eight.
  function Add(x: bv32, y: bv32): bv32 { x ^ y }
  function WithByte(crc: bv32, b: bv8): bv32 { crc ^ (b as bv32) }
  function Low(x: bv32): bv32 { x & 0xff }
  function High(x: bv32): bv32 { x & 0xffffff00 }
  function Moved(x: bv32): bv32 { x >> 8 }

  /** One byte of the update: crc = cx_ccitt32[(crc ^ b) & 0xff] ^ (crc >> 8) */
  function Step(crc: bv32, b: bv8): bv32 {
    Add(TableAt(Low(WithByte(crc, b))), Moved(crc))
  }

  /** The register after a message. */
  function Register(crc: bv32, buf: seq<bv8>): bv32
    decreases |buf|
  {
    if buf == [] then crc else Register(Step(crc, buf[0]), buf[1..])
  }

  // ------------------------------------------------------------------ the register is a shift register

  lemma ShiftBitLinear(x: bv32, y: bv32)
    ensures ShiftBit(Add(x, y)) == Add(ShiftBit(x), ShiftBit(y))
  {
    hide ShiftBit, Add;
    LowBit(x);
    LowBit(y);
    if x & 1 == 0 {
      if y & 1 == 0 { ShiftBitEvenEven(x, y); } else { ShiftBitEvenOdd(x, y); }
    } else {
      if y & 1 == 0 { ShiftBitOddEven(x, y); } else { ShiftBitOddOdd(x, y); }
    }
  }

  lemma LowBit(x: bv32)
    ensures x & 1 == 0 || x & 1 == 1
  {
  }

  lemma ShiftBitEvenEven(x: bv32, y: bv32)
    requires x & 1 == 0 && y & 1 == 0
    ensures ShiftBit(Add(x, y)) == Add(ShiftBit(x), ShiftBit(y))
  {
  }

  lemma ShiftBitEvenOdd(x: bv32, y: bv32)
    requires x & 1 == 0 && y & 1 == 1
    ensures ShiftBit(Add(x, y)) == Add(ShiftBit(x), ShiftBit(y))
  {
  }

  lemma AddCommutes(x: bv32, y: bv32)
    ensures Add(x, y) == Add(y, x)
  {
  }

  lemma ShiftBitOddEven(x: bv32, y: bv32)
    requires x & 1 == 1 && y & 1 == 0
    ensures ShiftBit(Add(x, y)) == Add(ShiftBit(x), ShiftBit(y))
  {
    hide Add, ShiftBit;
    AddCommutes(x, y);
    ShiftBitEvenOdd(y, x);
    AddCommutes(ShiftBit(x), ShiftBit(y));
  }

  lemma ShiftBitOddOdd(x: bv32, y: bv32)
    requires x & 1 == 1 && y & 1 == 1
    ensures ShiftBit(Add(x, y)) == Add(ShiftBit(x), ShiftBit(y))
  {
  }

  function Shifts(r: bv32, n: nat): bv32
    decreases n
  {
    if n == 0 then r else Shifts(ShiftBit(r), n - 1)
  }

  /** Shifting is additive. */
  lemma {:induction false} ShiftsLinear(x: bv32, y: bv32, n: nat)
    ensures Shifts(Add(x, y), n) == Add(Shifts(x, n), Shifts(y, n))
    decreases n
  {
    hide ShiftBit, Add;
    if n > 0 {
      ShiftBitLinear(x, y);
      ShiftsLinear(ShiftBit(x), ShiftBit(y), n - 1);
    }
  }

  lemma ShiftByteIsShifts(r: bv32)
    ensures ShiftByte(r) == Shifts(r, 8)
  {
    hide ShiftBit;
  }

  lemma ShiftByteLinear(x: bv32, y: bv32)
    ensures ShiftByte(Add(x, y)) == Add(ShiftByte(x), ShiftByte(y))
  {
    hide *;
    ShiftByteIsShifts(Add(x, y));
    ShiftByteIsShifts(x);
    ShiftByteIsShifts(y);
    ShiftsLinear(x, y, 8);
  }

  lemma LowAndHigh(x: bv32)
    ensures Add(Low(x), High(x)) == x && Low(x) <= 0xff
  {
  }

  /** Without any of the eight low bits, eight shifts only move the others. */
  lemma ShiftByteHigh(x: bv32)
    ensures ShiftByte(High(x)) == Moved(x)
  {
    HighShifts(x & 0xffffff00);
  }

  lemma HighShifts(x: bv32)
    requires x & 0xff == 0
    ensures ShiftByte(x) == x >> 8
  {
  }

  lemma ShiftByteSplit(x: bv32)
    ensures ShiftByte(x) == Add(ShiftByte(Low(x)), Moved(x))
  {
    hide *;
    LowAndHigh(x);
    ShiftByteLinear(Low(x), High(x));
    ShiftByteHigh(x);
  }

  lemma ByteIsLow(crc: bv32, b: bv8)
    ensures Moved(WithByte(crc, b)) == Moved(crc)
  {
  }

  /** The table look-up is eight shifts of the register with the byte added. */
  lemma StepIsShifts(crc: bv32, b: bv8)
    ensures Step(crc, b) == ShiftByte(WithByte(crc, b))
  {
    hide TableAt, Add, WithByte, Low, High, Moved, ShiftByte;
    var x := WithByte(crc, b);
    ByteIsLow(crc, b);
    LowAndHigh(x);
    TableCorrect(Low(x));
    ShiftByteSplit(x);
  }

  // ------------------------------------------------------------------ the shift register divides

  lemma XorMoves(x: bv32, y: bv32)
    ensures (x ^ y) >> 1 == (x >> 1) ^ (y >> 1)
  {
  }

  lemma AddMoves(x: bv32, y: bv32)
    ensures Add(x, y) >> 1 == Add(x >> 1, y >> 1)
  {
    calc {
      Add(x, y) >> 1;
      (x ^ y) >> 1;
      { XorMoves(x, y); }
      (x >> 1) ^ (y >> 1);
      Add(x >> 1, y >> 1);
    }
  }

  lemma AddLowBits(x: bv32, y: bv32)
    ensures Add(x, y) & 1 == Add(x & 1, y & 1)
  {
  }

  lemma AddLow(x: bv32, y: bv32)
    ensures (Add(x, y) & 1 == 1) == ((x & 1 == 1) != (y & 1 == 1))
  {
    AddLowBits(x, y);
    LowBit(x);
    LowBit(y);
  }

  lemma {:induction false} BitsAdd(x: bv32, y: bv32, n: nat)
    ensures Bits(Add(x, y), n) == AddToFront(Bits(x, n), Bits(y, n))
    decreases n
  {
    hide *;
    BitsStep(x, n);
    BitsStep(y, n);
    BitsStep(Add(x, y), n);
    if n == 0 {
      NothingAdded();
    } else {
      AddMoves(x, y);
      AddLow(x, y);
      BitsAdd(x >> 1, y >> 1, n - 1);
      AddedInFront(x & 1 == 1, Bits(x >> 1, n - 1), y & 1 == 1, Bits(y >> 1, n - 1));
    }
  }

  lemma BitsStep(x: bv32, n: nat)
    ensures Bits(x, n) == if n == 0 then [] else [x & 1 == 1] + Bits(x >> 1, n - 1)
  {
  }

  lemma NothingAdded()
    ensures AddToFront([], []) == []
  {
  }

  lemma AddedInFront(a: bool, p: Poly, b: bool, q: Poly)
    requires |p| == |q|
    ensures AddToFront([a] + p, [b] + q) == [a != b] + AddToFront(p, q)
  {
  }

  function Mask(n: nat): bv32
    decreases n
  {
    if n == 0 then 1 else Mask(n - 1) << 1
  }

  lemma MaskMoves(x: bv32, m: bv32)
    ensures ((x >> 1) & m != 0) == (x & (m << 1) != 0)
  {
  }

  lemma {:induction false} BitsLast(x: bv32, n: nat)
    ensures Bits(x, n + 1) == Bits(x, n) + [x & Mask(n) != 0]
    decreases n
  {
    if n == 0 {
      assert (x & 1 == 1) == (x & 1 != 0);
    } else {
      BitsLast(x >> 1, n - 1);
      MaskMoves(x, Mask(n - 1));
    }
  }

  lemma TopMask()
    ensures Mask(31) == 0x80000000
  {
    assert Mask(8) == 0x100;
    assert Mask(16) == 0x10000;
    assert Mask(24) == 0x1000000;
  }

  lemma CoefficientsMove(r: bv32)
    ensures Coefficients(r >> 1) == Coefficients(r)[1..] + [false]
  {
    BitsLast(r >> 1, 31);
    TopMask();
    assert (r >> 1) & 0x80000000 == 0;
  }

  lemma LowByteFirst(x: bv32, k: nat)
    ensures Bits(x, 8 + k) == Bits(x, 8) + Bits(x >> 8, k)
  {
    BitsSplit(x, 8, k);
    assert Halved(x, 8) == x >> 8;
  }

  lemma GeneratorLow()
    ensures Bits(0xEDB88320, 8) == [false, false, false, false, false, true, false, false]
    ensures Bits(0xEDB883, 8) == [true, true, false, false, false, false, false, true]
  {
  }

  lemma GeneratorHigh()
    ensures Bits(0xEDB8, 8) == [false, false, false, true, true, true, false, true]
    ensures Bits(0xED, 8) == [true, false, true, true, false, true, true, true]
  {
  }

  lemma CoefficientsOfGenerator()
    ensures Coefficients(POLY) == Generator()
  {
    hide Bits, Halved;
    GeneratorLow();
    GeneratorHigh();
    LowByteFirst(0xEDB88320, 24);
    LowByteFirst(0xEDB883, 16);
    LowByteFirst(0xEDB8, 8);
  }

  lemma {:induction false} BitsOfZero(n: nat)
    ensures Bits(0, n) == Zeros(n)
    decreases n
  {
    if n > 0 { BitsOfZero(n - 1); }
  }

  function Halved(x: bv32, n: nat): bv32
    decreases n
  {
    if n == 0 then x else Halved(x >> 1, n - 1)
  }

  lemma {:induction false} BitsSplit(x: bv32, n: nat, k: nat)
    ensures Bits(x, n + k) == Bits(x, n) + Bits(Halved(x, n), k)
    decreases n
  {
    if n > 0 { BitsSplit(x >> 1, n - 1, k); }
  }

  /** A byte occupies the first eight coefficients of the register. */
  lemma BitsOfByte(b: bv8)
    ensures Bits(b as bv32, 32) == Bits(b as bv32, 8) + Zeros(24)
  {
    var x := b as bv32;
    LowByteFirst(x, 24);
    assert x >> 8 == 0;
    BitsOfZero(24);
  }

  /** One step of the division on the 32 leading coefficients, with a zero coming in from the right. */
  function DivideOnce(c: Poly): (r: Poly)
    requires |c| == 32
    ensures |r| == 32
  {
    var m := c[1..] + [false];
    if c[0] then AddToFront(m, Generator()) else m
  }

  function Divide(c: Poly, n: nat): (r: Poly)
    requires |c| == 32
    ensures |r| == 32
    decreases n
  {
    if n == 0 then c else Divide(DivideOnce(c), n - 1)
  }

  lemma ShiftBitDivides(r: bv32)
    ensures Coefficients(ShiftBit(r)) == DivideOnce(Coefficients(r))
  {
    CoefficientsMove(r);
    assert Coefficients(r)[0] == (r & 1 == 1);
    if r & 1 == 1 {
      assert ShiftBit(r) == Add(r >> 1, POLY);
      BitsAdd(r >> 1, POLY, 32);
      CoefficientsOfGenerator();
    }
  }

  lemma {:induction false} ShiftsDivide(r: bv32, n: nat)
    ensures Coefficients(Shifts(r, n)) == Divide(Coefficients(r), n)
    decreases n
  {
    hide Coefficients, DivideOnce, ShiftBit;
    if n > 0 {
      ShiftBitDivides(r);
      ShiftsDivide(ShiftBit(r), n - 1);
    }
  }

  /** Where the dividend is zero apart from what is in c, one step of the division happens in c. */
  lemma DivisionStep(t: Poly, c: Poly)
    requires |c| == 32 && |t| > 32 && !t[0]
    ensures Remainder(AddToFront(t, c)) == Remainder(AddToFront(t[1..], DivideOnce(c)))
  {
    var p := AddToFront(t, c);
    if c[0] {
      assert AddToFront(p[1..], Generator()) == AddToFront(t[1..], DivideOnce(c));
    } else {
      assert p[1..] == AddToFront(t[1..], DivideOnce(c));
    }
  }

  lemma {:induction false} DivisionSteps(t: Poly, c: Poly, n: nat)
    requires |c| == 32 && |t| >= 32 + n && forall i :: 0 <= i < n ==> !t[i]
    ensures Remainder(AddToFront(t, c)) == Remainder(AddToFront(t[n..], Divide(c, n)))
    decreases n
  {
    if n == 0 {
      assert t[0..] == t;
    } else {
      DivisionStep(t, c);
      DivisionSteps(t[1..], DivideOnce(c), n - 1);
      assert t[1..][n - 1..] == t[n..];
    }
  }

  /** The first byte of the dividend, moved into the register. */
  lemma ByteMoved(crc: bv32, b: bv8, rest: Poly)
    requires |rest| >= 32
    ensures AddToFront(Bits(b as bv32, 8) + rest, Coefficients(crc))
         == AddToFront(Zeros(8) + rest, Coefficients(WithByte(crc, b)))
  {
    var x := b as bv32;
    assert WithByte(crc, b) == Add(crc, x);
    BitsAdd(crc, x, 32);
    BitsOfByte(b);
    var c, w := Coefficients(crc), Coefficients(WithByte(crc, b));
    var byte := Bits(x, 8);
    assert w == AddToFront(c, byte + Zeros(24));
    SameSum(byte, rest, c, w);
  }

  lemma SameSum(byte: Poly, rest: Poly, c: Poly, w: Poly)
    requires |byte| == 8 && |rest| >= 32 && |c| == 32
    requires w == AddToFront(c, byte + Zeros(24))
    ensures AddToFront(byte + rest, c) == AddToFront(Zeros(8) + rest, w)
  {
  }

  lemma StepDivides(crc: bv32, b: bv8)
    ensures Coefficients(Step(crc, b)) == Divide(Coefficients(WithByte(crc, b)), 8)
  {
    hide *;
    StepIsShifts(crc, b);
    ShiftByteIsShifts(WithByte(crc, b));
    ShiftsDivide(WithByte(crc, b), 8);
  }

  /** One byte of the message: division by long division and division by the register go together. */
  lemma ByteDivides(crc: bv32, b: bv8, rest: Poly)
    requires |rest| >= 32
    ensures Remainder(AddToFront(Bits(b as bv32, 8) + rest, Coefficients(crc)))
         == Remainder(AddToFront(rest, Coefficients(Step(crc, b))))
  {
    hide *;
    ByteMoved(crc, b, rest);
    var c := Coefficients(WithByte(crc, b));
    DivisionSteps(Zeros(8) + rest, c, 8);
    assert (Zeros(8) + rest)[8..] == rest;
    StepDivides(crc, b);
  }

  /** The register after a message is the remainder of the message, times x^32, with the initial register
      added to its 32 leading coefficients. */
  lemma {:induction false} RegisterIsRemainder(crc: bv32, buf: seq<bv8>)
    ensures Coefficients(Register(crc, buf)) == Remainder(AddToFront(Message(buf) + Zeros(32), Coefficients(crc)))
    decreases |buf|
  {
    hide Coefficients, Bits, Step, Remainder;
    if buf == [] {
      RemainderOfRegister(Coefficients(crc));
    } else {
      var rest := Message(buf[1..]) + Zeros(32);
      assert Message(buf) + Zeros(32) == Bits(buf[0] as bv32, 8) + rest;
      ByteDivides(crc, buf[0], rest);
      RegisterIsRemainder(Step(crc, buf[0]), buf[1..]);
    }
  }

  lemma RemainderOfRegister(c: Poly)
    requires |c| == 32
    ensures Remainder(AddToFront([] + Zeros(32), c)) == c
  {
    assert AddToFront([] + Zeros(32), c) == c;
  }

  // ------------------------------------------------------------------ cx_crc32_update and cx_crc32

  /** The value of cx_crc32_update. */
  function Updated(crc: bv32, buf: seq<bv8>): bv32 {
    Add(Register(crc, buf), CX_CRC32_INIT)
  }

  function Complement(p: Poly): (r: Poly)
    ensures |r| == |p|
  {
    seq(|p|, i requires 0 <= i < |p| => !p[i])
  }

  lemma OneBit(x: bv32, y: bv32, n: nat)
    requires x & 1 == 1 && x >> 1 == y && Bits(y, n) == Complement(Zeros(n))
    ensures Bits(x, n + 1) == Complement(Zeros(n + 1))
  {
    var p := Bits(y, n);
    assert Bits(x, n + 1) == [true] + p;
    hide Bits;
    assert Complement(Zeros(n + 1)) == [true] + p;
  }

  /** Four ones in front of n ones; x1 to x4 are the word shifted. */
  lemma FourOnes(x: bv32, x1: bv32, x2: bv32, x3: bv32, x4: bv32, n: nat)
    requires x & 1 == 1 && x1 & 1 == 1 && x2 & 1 == 1 && x3 & 1 == 1
    requires x >> 1 == x1 && x1 >> 1 == x2 && x2 >> 1 == x3 && x3 >> 1 == x4
    requires Bits(x4, n) == Complement(Zeros(n))
    ensures Bits(x, n + 4) == Complement(Zeros(n + 4))
  {
    hide *;
    OneBit(x3, x4, n);
    OneBit(x2, x3, n + 1);
    OneBit(x1, x2, n + 2);
    OneBit(x, x1, n + 3);
  }

  lemma AllOnes()
    ensures Bits(CX_CRC32_INIT, 32) == Complement(Zeros(32))
  {
    assert Bits(0, 0) == Complement(Zeros(0));
    hide Bits, Complement, Zeros;
    FourOnes(0xF, 0x7, 0x3, 0x1, 0x0, 0);
    FourOnes(0xFF, 0x7F, 0x3F, 0x1F, 0xF, 4);
    FourOnes(0xFFF, 0x7FF, 0x3FF, 0x1FF, 0xFF, 8);
    FourOnes(0xFFFF, 0x7FFF, 0x3FFF, 0x1FFF, 0xFFF, 12);
    FourOnes(0xFFFFF, 0x7FFFF, 0x3FFFF, 0x1FFFF, 0xFFFF, 16);
    FourOnes(0xFFFFFF, 0x7FFFFF, 0x3FFFFF, 0x1FFFFF, 0xFFFFF, 20);
    FourOnes(0xFFFFFFF, 0x7FFFFFF, 0x3FFFFFF, 0x1FFFFFF, 0xFFFFFF, 24);
    FourOnes(0xFFFFFFFF, 0x7FFFFFFF, 0x3FFFFFFF, 0x1FFFFFFF, 0xFFFFFFF, 28);
  }

  lemma CoefficientsOfComplement(x: bv32)
    ensures Coefficients(Add(x, CX_CRC32_INIT)) == Complement(Coefficients(x))
  {
    hide Bits, Add;
    BitsAdd(x, CX_CRC32_INIT, 32);
    AllOnes();
  }

  /** cx_crc32_update, for every buffer and every register to start from. */
  method Update(crc: bv32, buf: seq<bv8>) returns (r: bv32)
    ensures r == Updated(crc, buf)
    ensures Coefficients(r) == Complement(Remainder(AddToFront(Message(buf) + Zeros(32), Coefficients(crc))))
  {
    hide Step, Coefficients, Remainder;
    var c := crc;
    var i := 0;
    while i < |buf|
      invariant i <= |buf| && Register(c, buf[i..]) == Register(crc, buf)
    {
      assert buf[i..][1..] == buf[i + 1..];
      c := Step(c, buf[i]);
      i := i + 1;
    }
    RegisterIsRemainder(crc, buf);
    CoefficientsOfComplement(c);
    r := Add(c, CX_CRC32_INIT);
  }

  function Crc(buf: seq<bv8>): bv32 {
    Updated(CX_CRC32_INIT, buf)
  }

  /** cx_crc32: the message times x^32, its 32 leading coefficients complemented, divided by the generator. */
  method Checksum(buf: seq<bv8>) returns (r: bv32)
    ensures r == Crc(buf)
    ensures Coefficients(r)
         == Complement(Remainder(AddToFront(Message(buf) + Zeros(32), Complement(Zeros(32)))))
  {
    CoefficientsOfComplement(0);
    BitsOfZero(32);
    assert Add(0, CX_CRC32_INIT) == CX_CRC32_INIT;
    hide Updated, Bits, Message, Remainder;
    r := Update(CX_CRC32_INIT, buf);
  }

  // ------------------------------------------------------------------ messages in parts

  lemma {:induction false} RegisterConcat(crc: bv32, a: seq<bv8>, b: seq<bv8>)
    ensures Register(crc, a + b) == Register(Register(crc, a), b)
    decreases |a|
  {
    hide Step;
    if a == [] {
      assert a + b == b;
    } else {
      assert (a + b)[1..] == a[1..] + b;
      RegisterConcat(Step(crc, a[0]), a[1..], b);
    }
  }

  lemma ComplementTwice(x: bv32)
    ensures Add(Add(x, CX_CRC32_INIT), CX_CRC32_INIT) == x
  {
  }

  /** Updating over a, complementing again and updating over b is updating over a followed by b. */
  lemma UpdateInParts(crc: bv32, a: seq<bv8>, b: seq<bv8>)
    ensures Updated(Add(Updated(crc, a), CX_CRC32_INIT), b) == Updated(crc, a + b)
  {
    hide Register, Add;
    ComplementTwice(Register(crc, a));
    RegisterConcat(crc, a, b);
  }

  // ------------------------------------------------------------------ bursts of errors

  /** The step back: the highest bit tells whether the generator was added. */
  function UnshiftBit(r: bv32): bv32 {
    if r & 0x80000000 != 0 then ((r ^ POLY) << 1) | 1 else r << 1
  }

  lemma ShiftEvenInvertible(r: bv32)
    requires r & 1 == 0
    ensures UnshiftBit(ShiftBit(r)) == r
  {
  }

  lemma ShiftOddInvertible(r: bv32)
    requires r & 1 == 1
    ensures UnshiftBit(ShiftBit(r)) == r
  {
  }

  lemma ShiftBitInvertible(r: bv32)
    ensures UnshiftBit(ShiftBit(r)) == r
  {
    hide *;
    LowBit(r);
    if r & 1 == 1 { ShiftOddInvertible(r); } else { ShiftEvenInvertible(r); }
  }

  lemma {:induction false} ShiftsInjective(x: bv32, y: bv32, n: nat)
    requires Shifts(x, n) == Shifts(y, n)
    ensures x == y
    decreases n
  {
    hide ShiftBit, UnshiftBit;
    if n > 0 {
      ShiftsInjective(ShiftBit(x), ShiftBit(y), n - 1);
      ShiftBitInvertible(x);
      ShiftBitInvertible(y);
    }
  }

  lemma AddCancels(x: bv32, y: bv32, z: bv32)
    requires Add(x, z) == Add(y, z)
    ensures x == y
  {
  }

  /** Every step is a bijection of the register. */
  lemma StepInjective(x: bv32, y: bv32, b: bv8)
    requires Step(x, b) == Step(y, b)
    ensures x == y
  {
    assert WithByte(x, b) == Add(x, b as bv32) && WithByte(y, b) == Add(y, b as bv32);
    hide *;
    StepIsShifts(x, b);
    StepIsShifts(y, b);
    ShiftByteIsShifts(WithByte(x, b));
    ShiftByteIsShifts(WithByte(y, b));
    ShiftsInjective(WithByte(x, b), WithByte(y, b), 8);
    AddCancels(x, y, b as bv32);
  }

  lemma {:induction false} RegisterInjective(x: bv32, y: bv32, buf: seq<bv8>)
    requires Register(x, buf) == Register(y, buf)
    ensures x == y
    decreases |buf|
  {
    hide Step;
    if buf != [] {
      RegisterInjective(Step(x, buf[0]), Step(y, buf[0]), buf[1..]);
      StepInjective(x, y, buf[0]);
    }
  }

  // The register, bit by bit.

  function FeedBit(r: bv32, bit: bool): bv32 { ShiftBit(if bit then Add(r, 1) else r) }

  /** The register after some bits. */
  function Feed(r: bv32, bits: Poly): bv32
    decreases |bits|
  {
    if bits == [] then r else Feed(FeedBit(r, bits[0]), bits[1..])
  }

  lemma FeedStep(r: bv32, bit: bool, bits: Poly)
    ensures Feed(r, [bit] + bits) == Feed(FeedBit(r, bit), bits)
  {
    assert ([bit] + bits)[1..] == bits;
  }

  lemma {:induction false} FeedConcat(r: bv32, u: Poly, w: Poly)
    ensures Feed(r, u + w) == Feed(Feed(r, u), w)
    decreases |u|
  {
    hide FeedBit;
    if u == [] {
      assert u + w == w;
    } else {
      assert (u + w)[1..] == u[1..] + w;
      FeedConcat(FeedBit(r, u[0]), u[1..], w);
    }
  }

  lemma {:induction false} FeedInjective(x: bv32, y: bv32, bits: Poly)
    requires Feed(x, bits) == Feed(y, bits)
    ensures x == y
    decreases |bits|
  {
    hide ShiftBit, UnshiftBit, Add;
    if bits != [] {
      FeedInjective(FeedBit(x, bits[0]), FeedBit(y, bits[0]), bits[1..]);
      var x', y' := if bits[0] then Add(x, 1) else x, if bits[0] then Add(y, 1) else y;
      ShiftBitInvertible(x');
      ShiftBitInvertible(y');
      if bits[0] { AddCancels(x, y, 1); }
    }
  }

  function LowBitOf(x: bv32): bv32 { x & 1 }
  function Evened(x: bv32): bv32 { x & 0xfffffffe }

  lemma EvenedShifts(x: bv32)
    ensures ShiftBit(Evened(x)) == x >> 1 && Add(LowBitOf(x), Evened(x)) == x
  {
    EvenedAdds(x);
    EvenedIsEven(x);
    EvenedMoves(x);
    hide ShiftBit, Add, LowBitOf, Evened;
    EvenShifts(Evened(x));
  }

  lemma EvenedAdds(x: bv32)
    ensures Add(LowBitOf(x), Evened(x)) == x
  {
  }

  lemma EvenedIsEven(x: bv32)
    ensures Evened(x) & 1 == 0
  {
  }

  lemma EvenedMoves(x: bv32)
    ensures Evened(x) >> 1 == x >> 1
  {
  }

  lemma EvenShifts(x: bv32)
    requires x & 1 == 0
    ensures ShiftBit(x) == x >> 1
  {
  }

  lemma AddAssociates(x: bv32, y: bv32, z: bv32)
    ensures Add(Add(x, y), z) == Add(x, Add(y, z))
  {
  }

  lemma AddZero(x: bv32)
    ensures Add(x, 0) == x && Add(0, x) == x && Add(x, x) == 0
  {
  }

  lemma FeedLowBit(r: bv32, x: bv32)
    ensures FeedBit(r, x & 1 == 1) == ShiftBit(Add(r, LowBitOf(x)))
  {
    hide ShiftBit, Add;
    LowBit(x);
    AddZero(r);
  }

  lemma HalvedStep(x: bv32, n: nat)
    ensures Halved(x, n) == if n == 0 then x else Halved(x >> 1, n - 1)
  {
  }

  lemma FeedNothing(r: bv32)
    ensures Feed(r, []) == r
  {
  }

  lemma ShiftsStep(r: bv32, n: nat)
    ensures Shifts(r, n) == if n == 0 then r else Shifts(ShiftBit(r), n - 1)
  {
  }

  /** All the bits of a word enter the register as one word. */
  lemma {:induction false} FeedWord(r: bv32, x: bv32, n: nat)
    requires Halved(x, n) == 0
    ensures Feed(r, Bits(x, n)) == Shifts(Add(r, x), n)
    decreases n
  {
    hide *;
    BitsStep(x, n);
    HalvedStep(x, n);
    ShiftsStep(Add(r, x), n);
    if n == 0 {
      FeedNothing(r);
      AddZero(r);
    } else {
      FeedStep(r, x & 1 == 1, Bits(x >> 1, n - 1));
      FeedLowBit(r, x);
      EvenedShifts(x);
      AddAssociates(r, LowBitOf(x), Evened(x));
      ShiftBitLinear(Add(r, LowBitOf(x)), Evened(x));
      FeedWord(FeedBit(r, x & 1 == 1), x >> 1, n - 1);
    }
  }

  lemma ByteIsWord(b: bv8)
    ensures Halved(b as bv32, 8) == 0
  {
    var x := b as bv32;
    assert Halved(x, 8) == x >> 8;
  }

  lemma StepFeeds(crc: bv32, b: bv8)
    ensures Step(crc, b) == Feed(crc, Bits(b as bv32, 8))
  {
    assert WithByte(crc, b) == Add(crc, b as bv32);
    hide *;
    StepIsShifts(crc, b);
    ShiftByteIsShifts(WithByte(crc, b));
    ByteIsWord(b);
    FeedWord(crc, b as bv32, 8);
  }

  /** The bytewise register is the bitwise one, fed with the bits of the message. */
  lemma {:induction false} RegisterFeeds(crc: bv32, buf: seq<bv8>)
    ensures Register(crc, buf) == Feed(crc, Message(buf))
    decreases |buf|
  {
    hide Step, Feed, Bits;
    if buf == [] {
      FeedNothing(crc);
    } else {
      StepFeeds(crc, buf[0]);
      FeedConcat(crc, Bits(buf[0] as bv32, 8), Message(buf[1..]));
      RegisterFeeds(Step(crc, buf[0]), buf[1..]);
    }
  }

  // Bits as words.

  function Odd(x: bv32): bv32 { (x << 1) | 1 }
  function Even(x: bv32): bv32 { x << 1 }
  function Doubled(x: bv32, low: bool): bv32 { if low then Odd(x) else Even(x) }

  /** The word with the given lowest bits. */
  function Packed(bits: Poly): bv32
    decreases |bits|
  {
    if bits == [] then 0 else Doubled(Packed(bits[1..]), bits[0])
  }

  lemma OddHalves(x: bv32)
    requires x & 0x80000000 == 0
    ensures Odd(x) >> 1 == x
  {
  }

  lemma EvenHalves(x: bv32)
    requires x & 0x80000000 == 0
    ensures Even(x) >> 1 == x
  {
  }

  lemma OddAndEven(x: bv32)
    ensures Odd(x) & 1 == 1 && Even(x) & 1 == 0
  {
  }

  lemma DoubledIs(x: bv32, low: bool)
    ensures Doubled(x, low) == if low then Odd(x) else Even(x)
  {
  }

  lemma DoubledHalves(x: bv32, low: bool)
    requires x & 0x80000000 == 0
    ensures Doubled(x, low) >> 1 == x
  {
    hide *;
    DoubledIs(x, low);
    if low { OddHalves(x); } else { EvenHalves(x); }
  }

  lemma DoubledLow(x: bv32, low: bool)
    ensures Doubled(x, low) & 1 == 1 <==> low
  {
    hide *;
    DoubledIs(x, low);
    OddAndEven(x);
  }

  /** A word of less than 32 bits has room for another one. */
  lemma TopFree(x: bv32, n: nat)
    requires n < 32 && Halved(x, n) == 0
    ensures x & 0x80000000 == 0
  {
    hide *;
    BitsSplit(x, n, 32 - n);
    BitsOfZero(32 - n);
    BitsLast(x, 31);
    TopMask();
    assert Bits(x, 32)[31] == Zeros(32 - n)[31 - n];
  }

  lemma ShortDoubledHalves(x: bv32, low: bool, n: nat)
    requires n < 32 && Halved(x, n) == 0
    ensures Doubled(x, low) >> 1 == x
  {
    hide *;
    TopFree(x, n);
    DoubledHalves(x, low);
  }

  lemma HalvedOnce(x: bv32, y: bv32, n: nat)
    requires y >> 1 == x
    ensures Halved(y, n + 1) == Halved(x, n)
  {
  }

  lemma BitInFront(x: bv32, y: bv32, low: bool, n: nat)
    requires y >> 1 == x && (y & 1 == 1 <==> low)
    ensures Bits(y, n + 1) == [low] + Bits(x, n)
  {
  }

  lemma DoubledHalved(x: bv32, low: bool, n: nat)
    requires n < 32 && Halved(x, n) == 0
    ensures Halved(Doubled(x, low), n + 1) == 0
  {
    hide *;
    ShortDoubledHalves(x, low, n);
    HalvedOnce(x, Doubled(x, low), n);
  }

  lemma DoubledBits(x: bv32, low: bool, n: nat)
    requires n < 32 && Halved(x, n) == 0
    ensures Bits(Doubled(x, low), n + 1) == [low] + Bits(x, n)
  {
    hide *;
    ShortDoubledHalves(x, low, n);
    DoubledLow(x, low);
    BitInFront(x, Doubled(x, low), low, n);
  }

  lemma {:induction false} PackedBits(bits: Poly)
    requires |bits| <= 32
    ensures Halved(Packed(bits), |bits|) == 0 && Bits(Packed(bits), |bits|) == bits
    decreases |bits|
  {
    hide Bits, Halved, Doubled;
    if bits == [] {
      BitsStep(0, 0);
      HalvedStep(0, 0);
    } else {
      PackedBits(bits[1..]);
      DoubledHalved(Packed(bits[1..]), bits[0], |bits| - 1);
      DoubledBits(Packed(bits[1..]), bits[0], |bits| - 1);
      assert bits == [bits[0]] + bits[1..];
    }
  }

  lemma SameHalves(x: bv32, y: bv32)
    requires x >> 1 == y >> 1 && (x & 1 == 1 <==> y & 1 == 1)
    ensures x == y
  {
    LowBit(x);
    LowBit(y);
    assert x & 1 == y & 1;
  }

  lemma {:induction false} BitsInjective(x: bv32, y: bv32, n: nat)
    requires Halved(x, n) == 0 && Halved(y, n) == 0 && Bits(x, n) == Bits(y, n)
    ensures x == y
    decreases n
  {
    hide *;
    HalvedStep(x, n);
    HalvedStep(y, n);
    BitsStep(x, n);
    BitsStep(y, n);
    if n > 0 {
      assert Bits(x, n)[0] == Bits(y, n)[0] && Bits(x, n)[1..] == Bits(y, n)[1..];
      BitsInjective(x >> 1, y >> 1, n - 1);
      SameHalves(x, y);
    }
  }

  /** At most 32 bits fed into the same register can be told from its new value. */
  lemma BurstInRegister(r: bv32, u: Poly, w: Poly)
    requires |u| == |w| <= 32 && Feed(r, u) == Feed(r, w)
    ensures u == w
  {
    hide *;
    PackedBits(u);
    PackedBits(w);
    FeedWord(r, Packed(u), |u|);
    FeedWord(r, Packed(w), |w|);
    ShiftsInjective(Add(r, Packed(u)), Add(r, Packed(w)), |u|);
    AddCancelsLeft(Packed(u), Packed(w), r);
  }

  lemma AddCancelsLeft(x: bv32, y: bv32, z: bv32)
    requires Add(z, x) == Add(z, y)
    ensures x == y
  {
  }

  lemma {:induction false} MessageInjective(a: seq<bv8>, b: seq<bv8>)
    requires |a| == |b| && Message(a) == Message(b)
    ensures a == b
    decreases |a|
  {
    hide Bits, Halved;
    if a != [] {
      var x, y := a[0] as bv32, b[0] as bv32;
      assert Message(a)[..8] == Bits(x, 8) && Message(b)[..8] == Bits(y, 8);
      assert Message(a)[8..] == Message(a[1..]) && Message(b)[8..] == Message(b[1..]);
      ByteIsWord(a[0]);
      ByteIsWord(b[0]);
      BitsInjective(x, y, 8);
      SameByte(a[0], b[0]);
      MessageInjective(a[1..], b[1..]);
      assert a == [a[0]] + a[1..] && b == [b[0]] + b[1..];
    }
  }

  lemma SameByte(x: bv8, y: bv8)
    requires x as bv32 == y as bv32
    ensures x == y
  {
  }

  /** Two sequences of bits agree outside n places from i on. */
  ghost predicate AgreeOutside(p: Poly, q: Poly, i: nat, n: nat) {
    |p| == |q| && forall k :: 0 <= k < |p| && !(i <= k < i + n) ==> p[k] == q[k]
  }

  /** Checksums are equal exactly if the bits in between leave the same register. */
  lemma CrcOfParts(a: seq<bv8>, b: seq<bv8>, i: nat, j: nat)
    requires |a| == |b| && i <= j <= 8 * |a| && AgreeOutside(Message(a), Message(b), i, j - i)
    ensures var r := Feed(CX_CRC32_INIT, Message(a)[..i]);
      Crc(a) == Crc(b) <==> Feed(r, Message(a)[i..j]) == Feed(r, Message(b)[i..j])
    ensures a == b <==> Message(a)[i..j] == Message(b)[i..j]
  {
    var p, q := Message(a), Message(b);
    assert p[..i] == q[..i] && p[j..] == q[j..];
    hide *;
    Cut(p, i, j);
    Cut(q, i, j);
    CrcFeeds(a, i, j);
    CrcFeeds(b, i, j);
    var r := Feed(CX_CRC32_INIT, p[..i]);
    var x, y := Feed(r, p[i..j]), Feed(r, q[i..j]);
    if Crc(a) == Crc(b) {
      AddCancels(Feed(x, p[j..]), Feed(y, q[j..]), CX_CRC32_INIT);
      FeedInjective(x, y, p[j..]);
    }
    if p[i..j] == q[i..j] {
      MessageInjective(a, b);
    }
  }

  lemma Cut(p: Poly, i: nat, j: nat)
    requires i <= j <= |p|
    ensures p == p[..i] + p[i..j] + p[j..]
  {
  }

  lemma CrcFeeds(a: seq<bv8>, i: nat, j: nat)
    requires i <= j <= 8 * |a|
    ensures var p := Message(a);
      Crc(a) == Add(Feed(Feed(Feed(CX_CRC32_INIT, p[..i]), p[i..j]), p[j..]), CX_CRC32_INIT)
  {
    var p := Message(a);
    RegisterFeeds(CX_CRC32_INIT, a);
    hide Feed, Register, Add, Message;
    Cut(p, i, j);
    FeedConcat(CX_CRC32_INIT, p[..i] + p[i..j], p[j..]);
    FeedConcat(CX_CRC32_INIT, p[..i], p[i..j]);
  }

  /** Any two different messages of equal length that agree outside 32 consecutive bits have different checksums. */
  lemma BitBurst(a: seq<bv8>, b: seq<bv8>, i: nat)
    requires |a| == |b| && i <= 8 * |a| && a != b && AgreeOutside(Message(a), Message(b), i, 32)
    ensures Crc(a) != Crc(b)
  {
    var j := if i + 32 <= 8 * |a| then i + 32 else 8 * |a|;
    assert AgreeOutside(Message(a), Message(b), i, j - i);
    hide *;
    CrcOfParts(a, b, i, j);
    var r := Feed(CX_CRC32_INIT, Message(a)[..i]);
    if Feed(r, Message(a)[i..j]) == Feed(r, Message(b)[i..j]) {
      BurstInRegister(r, Message(a)[i..j], Message(b)[i..j]);
    }
  }

  /** Bytes that agree have bits that agree. */
  lemma {:induction false} BitsOfBytes(a: seq<bv8>, b: seq<bv8>, i: nat)
    requires |a| == |b| && forall k :: 0 <= k < |a| && !(i <= k < i + 4) ==> a[k] == b[k]
    ensures AgreeOutside(Message(a), Message(b), 8 * i, 32)
    decreases |a|
  {
    hide Bits;
    if a != [] && i > 0 {
      BitsOfBytes(a[1..], b[1..], i - 1);
    } else if |a| > 4 {
      MessageFrom(a, 4);
      MessageFrom(b, 4);
      assert a[4..] == b[4..];
      forall k | 32 <= k < 8 * |a| ensures Message(a)[k] == Message(b)[k] {
        assert Message(a)[k] == Message(a)[32..][k - 32];
      }
    }
  }

  lemma {:induction false} MessageFrom(a: seq<bv8>, n: nat)
    requires n <= |a|
    ensures Message(a)[8 * n..] == Message(a[n..])
    decreases n
  {
    hide Bits;
    if n > 0 {
      MessageFrom(a[1..], n - 1);
      assert a[1..][n - 1..] == a[n..];
      assert Message(a)[8 * n..] == Message(a)[8..][8 * (n - 1)..];
    }
  }

  /** Any two different messages of equal length that agree outside four consecutive bytes have different
      checksums. */
  lemma BurstInPlace(a: seq<bv8>, b: seq<bv8>, i: nat)
    requires |a| == |b| && i <= |a| && a != b
    requires forall k :: 0 <= k < |a| && !(i <= k < i + 4) ==> a[k] == b[k]
    ensures Crc(a) != Crc(b)
  {
    BitsOfBytes(a, b, i);
    hide *;
    BitBurst(a, b, 8 * i);
  }

  /** Two messages that differ in at most four bytes between a common beginning and a common end have
      different checksums. */
  lemma BurstDetected(p: seq<bv8>, u: seq<bv8>, w: seq<bv8>, s: seq<bv8>)
    requires |u| == |w| <= 4 && u != w
    ensures Crc(p + u + s) != Crc(p + w + s)
  {
    hide *;
    var a, b := p + u + s, p + w + s;
    assert a[|p|..|p| + |u|] == u && b[|p|..|p| + |u|] == w;
    BurstInPlace(a, b, |p|);
  }

  // ------------------------------------------------------------------ bursts of 33 bits

  /** The generator with its leading x^32. */
  function WholeGenerator(): (g: Poly)
    ensures |g| == 33
  {
    [true] + Generator()
  }

  lemma ShiftOfOne()
    ensures ShiftBit(1) == POLY
  {
  }

  /** Another bit makes a difference of the generator. */
  lemma OtherBit(r: bv32, bit: bool)
    ensures FeedBit(r, !bit) == Add(FeedBit(r, bit), POLY)
  {
    hide ShiftBit, Add;
    ShiftOfOne();
    ShiftBitLinear(r, 1);
    AddAssociates(ShiftBit(r), POLY, POLY);
    AddZero(POLY);
    AddZero(ShiftBit(r));
  }


  lemma {:induction false} HalvedTwice(x: bv32, m: nat, n: nat)
    ensures Halved(x, m + n) == Halved(Halved(x, m), n)
    decreases m
  {
    if m > 0 { HalvedTwice(x >> 1, m - 1, n); }
  }

  lemma HalvedByte(x: bv32)
    ensures Halved(x, 8) == Moved(x)
  {
  }

  lemma FourMoves(x: bv32)
    ensures Moved(Moved(Moved(Moved(x)))) == 0
  {
  }

  lemma NothingLeft(x: bv32)
    ensures Halved(x, 32) == 0
  {
    hide *;
    FourMoves(x);
    HalvedTwice(x, 8, 24);
    HalvedByte(x);
    HalvedTwice(Moved(x), 8, 16);
    HalvedByte(Moved(x));
    HalvedTwice(Moved(Moved(x)), 8, 8);
    HalvedByte(Moved(Moved(x)));
    HalvedByte(Moved(Moved(Moved(x))));
  }

  lemma AddedTwice(x: bv32, y: bv32, z: bv32)
    ensures Add(Add(x, z), Add(y, z)) == Add(x, y)
  {
    hide *;
    AddAssociates(x, z, Add(y, z));
    AddCommutes(z, Add(y, z));
    AddAssociates(y, z, z);
    AddZero(z);
    AddZero(y);
  }

  /** In the 32 bits behind, the rest of the generator takes the difference away. */
  lemma OtherWord(r: bv32, v: Poly)
    requires |v| == 32
    ensures Feed(Add(r, POLY), AddToFront(v, Generator())) == Feed(r, v)
  {
    assert Coefficients(POLY) == Bits(POLY, 32);
    hide *;
    var x := Packed(v);
    PackedBits(v);
    FeedWord(r, x, 32);
    BitsAdd(x, POLY, 32);
    CoefficientsOfGenerator();
    NothingLeft(Add(x, POLY));
    FeedWord(Add(r, POLY), Add(x, POLY), 32);
    AddedTwice(r, x, POLY);
  }

  lemma WithGenerator(u: Poly)
    requires |u| == 33
    ensures AddToFront(u, WholeGenerator()) == [!u[0]] + AddToFront(u[1..], Generator())
  {
    assert u == [u[0]] + u[1..];
    AddedInFront(u[0], u[1..], true, Generator());
  }

  lemma FeedFirst(r: bv32, u: Poly)
    requires u != []
    ensures Feed(r, u) == Feed(FeedBit(r, u[0]), u[1..])
  {
  }

  /** The generator's own pattern leaves no trace. */
  lemma PatternUnseen(r: bv32, u: Poly)
    requires |u| == 33
    ensures Feed(r, AddToFront(u, WholeGenerator())) == Feed(r, u)
  {
    hide *;
    WithGenerator(u);
    FeedFirst(r, u);
    FeedStep(r, !u[0], AddToFront(u[1..], Generator()));
    OtherBit(r, u[0]);
    OtherWord(FeedBit(r, u[0]), u[1..]);
  }

  lemma SameFirst(r: bv32, u: Poly, w: Poly)
    requires |u| == |w| == 33 && u[0] == w[0] && Feed(r, u) == Feed(r, w)
    ensures u == w
  {
    hide *;
    FeedFirst(r, u);
    FeedFirst(r, w);
    BurstInRegister(FeedBit(r, u[0]), u[1..], w[1..]);
    assert u == [u[0]] + u[1..] && w == [w[0]] + w[1..];
  }

  lemma LongBurstInRegister(r: bv32, u: Poly, w: Poly)
    requires |u| == |w| == 33
    ensures Feed(r, u) == Feed(r, w) <==> w == u || w == AddToFront(u, WholeGenerator())
  {
    hide *;
    PatternUnseen(r, u);
    WithGenerator(u);
    if Feed(r, u) == Feed(r, w) {
      if u[0] == w[0] {
        SameFirst(r, u, w);
      } else {
        SameFirst(r, AddToFront(u, WholeGenerator()), w);
      }
    }
  }

  /** 32 is the limit: of the messages that agree with a message outside 33 consecutive bits, exactly one other has
      its checksum, the one in which the generator is added there. */
  lemma LongBurst(a: seq<bv8>, b: seq<bv8>, i: nat)
    requires |a| == |b| && i + 33 <= 8 * |a| && AgreeOutside(Message(a), Message(b), i, 33)
    ensures Crc(a) == Crc(b) <==>
              a == b || Message(b)[i..i + 33] == AddToFront(Message(a)[i..i + 33], WholeGenerator())
  {
    hide *;
    CrcOfParts(a, b, i, i + 33);
    LongBurstInRegister(Feed(CX_CRC32_INIT, Message(a)[..i]), Message(a)[i..i + 33], Message(b)[i..i + 33]);
  }

  // ------------------------------------------------------------------ the check value

  lemma CheckSteps1()
    ensures Step(0xffffffff, 0x31) == 0x7c231048
    ensures Step(0x7c231048, 0x32) == 0xb0acbb32
  {
  }

  lemma CheckSteps3()
    ensures Step(0xb0acbb32, 0x33) == 0x77b79c2d
    ensures Step(0x77b79c2d, 0x34) == 0x641c1f5c
  {
  }

  lemma CheckSteps5()
    ensures Step(0x641c1f5c, 0x35) == 0x340ac5e3
    ensures Step(0x340ac5e3, 0x36) == 0xf68d2c9e
  {
  }

  lemma CheckSteps7()
    ensures Step(0xf68d2c9e, 0x37) == 0xaffc9660
    ensures Step(0xaffc9660, 0x38) == 0x651f2550
  {
  }

  lemma CheckSteps9()
    ensures Step(0x651f2550, 0x39) == 0x340bc6d9
  {
  }

  /** The checksum of the characters "123456789". */
  lemma CheckValue()
    ensures Crc([0x31, 0x32, 0x33, 0x34, 0x35, 0x36, 0x37, 0x38, 0x39]) == 0xcbf43926
  {
    CheckSteps1();
    CheckSteps3();
    CheckSteps5();
    CheckSteps7();
    CheckSteps9();
    hide Step;
    var buf: seq<bv8> := [0x31, 0x32, 0x33, 0x34, 0x35, 0x36, 0x37, 0x38, 0x39];
    assert buf[1..] == [0x32, 0x33, 0x34, 0x35, 0x36, 0x37, 0x38, 0x39];
    assert buf[1..][1..] == [0x33, 0x34, 0x35, 0x36, 0x37, 0x38, 0x39];
    assert Register(CX_CRC32_INIT, buf) == Register(0x77b79c2d, [0x34, 0x35, 0x36, 0x37, 0x38, 0x39]);
    assert Register(0x77b79c2d, [0x34, 0x35, 0x36, 0x37, 0x38, 0x39]) == Register(0xf68d2c9e, [0x37, 0x38, 0x39]);
    assert Register(0xf68d2c9e, [0x37, 0x38, 0x39]) == 0x340bc6d9;
    assert Add(0x340bc6d9, CX_CRC32_INIT) == 0xcbf43926;
  }
}
