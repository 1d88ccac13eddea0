/** Numbers as text, and the conversion that both printf interpreters of src/os_printf.c share. */
module Conversion {
  import opened CTypes
  import opened Numerals

  // ------------------------------------------------------------------ numerals

  /** g_pcHex and g_pcHex_cap */
  function DigitChar(d: nat, cap: bool): char
    requires d < 16
  {
    if d < 10 then ('0' as int + d) as char
    else if cap then ('A' as int + (d - 10)) as char
    else ('a' as int + (d - 10)) as char
  }

  function DigitValue(c: char): nat {
    if '0' <= c <= '9' then c as int - '0' as int
    else if 'a' <= c <= 'f' then c as int - 'a' as int + 10
    else if 'A' <= c <= 'F' then c as int - 'A' as int + 10
    else 0
  }

  function Chars(ds: seq<nat>, cap: bool): (s: string)
    requires forall i :: 0 <= i < |ds| ==> ds[i] < 16
    ensures |s| == |ds| && forall i :: 0 <= i < |s| ==> s[i] == DigitChar(ds[i], cap)
  {
    seq(|ds|, i requires 0 <= i < |ds| => DigitChar(ds[i], cap))
  }

  function Values(s: string): (ds: seq<nat>)
    ensures |ds| == |s| && forall i :: 0 <= i < |s| ==> ds[i] == DigitValue(s[i])
  {
    seq(|s|, i requires 0 <= i < |s| => DigitValue(s[i]))
  }

  /** The digits that are written for v: zero has one. */
  function WrittenDigits(v: nat, base: nat): seq<nat>
    requires base >= 2
  {
    if v == 0 then [0] else Digits(v, base)
  }

  lemma WrittenDigitsAreDigits(v: nat, base: nat)
    requires 2 <= base
    ensures AreDigits(WrittenDigits(v, base), base) && WrittenDigits(v, base) != []
    ensures Val(WrittenDigits(v, base), base) == v
    ensures WrittenDigits(v, base)[0] == 0 ==> v == 0
  {
    DigitsDenote(v, base);
    if v == 0 {
      assert [0][..0] == [];
      assert Val([], base) == 0;
    }
  }

  /** v in the given base. */
  function Numeral(v: nat, base: nat, cap: bool): string
    requires 2 <= base <= 16
  {
    WrittenDigitsAreDigits(v, base);
    Chars(WrittenDigits(v, base), cap)
  }

  /** Reading a numeral back gives the number; it has no superfluous leading zero. */
  lemma NumeralReadsBack(v: nat, base: nat, cap: bool)
    requires 2 <= base <= 16
    ensures var s := Numeral(v, base, cap);
      && s != "" && Val(Values(s), base) == v && (s[0] == '0' ==> v == 0)
      && forall i :: 0 <= i < |s| ==> s[i] == DigitChar(DigitValue(s[i]), cap) && DigitValue(s[i]) < base
  {
    WrittenDigitsAreDigits(v, base);
    var s, ds := Numeral(v, base, cap), WrittenDigits(v, base);
    hide WrittenDigits, Val, DigitChar, DigitValue;
    forall i | 0 <= i < |s| ensures DigitValue(s[i]) == ds[i] && (s[i] == '0' ==> ds[i] == 0) {
      DigitReadsBack(ds[i], cap);
    }
    assert Values(s) == ds;
  }

  lemma DigitReadsBack(d: nat, cap: bool)
    requires d < 16
    ensures DigitValue(DigitChar(d, cap)) == d && (DigitChar(d, cap) == '0' <==> d == 0)
    ensures d < 10 ==> '0' <= DigitChar(d, cap) <= '9'
  {
  }

  /** The digits of g_pcHex and g_pcHex_cap. */
  lemma DigitCharIs(d: nat, cap: bool)
    requires d < 16
    ensures DigitChar(d, cap) == if cap then "0123456789ABCDEF"[d] else "0123456789abcdef"[d]
  {
  }

  // ------------------------------------------------------------------ the field of a number

  /** A conversion specification for a number: its magnitude and sign, the base, and how to pad it. */
  datatype Field = Field(value: uint32, neg: bool, base: nat, cap: bool, width: uint32, fill: char)

  predicate Valid(f: Field) { f.base == 10 || f.base == 16 }

  function DigitsOf(f: Field): (n: nat)
    requires Valid(f)
  {
    |WrittenDigits(f.value, f.base)|
  }

  function Sign(f: Field): nat { if f.neg then 1 else 0 }

  /** How many fill characters go in front. The count is kept in an unsigned variable: it wraps around for a width
      that is smaller than the number, and nothing is filled in if 16 or more are missing. */
  function PadCount(f: Field): nat
    requires Valid(f)
  {
    var count := U32(f.width - (DigitsOf(f) - 1) - Sign(f));
    if 1 < count < 16 then count - 1 else 0
  }

  function Repeat(c: char, n: nat): (s: string)
    ensures |s| == n && forall i :: 0 <= i < n ==> s[i] == c
  {
    seq(n, _ => c)
  }

  /** What stands in front of the digits: zeros go behind the sign, spaces in front of it. */
  function Front(f: Field): string
    requires Valid(f)
  {
    var sign := if f.neg then "-" else "";
    if f.fill == '0' then sign + Repeat('0', PadCount(f)) else Repeat(f.fill, PadCount(f)) + sign
  }

  /** What the field is rendered as. */
  function Rendering(f: Field): string
    requires Valid(f)
  {
    Front(f) + Numeral(f.value, f.base, f.cap)
  }

  lemma AtMostTenDigits(f: Field)
    requires Valid(f)
    ensures 1 <= DigitsOf(f) <= 10
  {
    DigitsLength(f.value, f.base, 10);
    assert Pow(10, 10) == 100 * Pow(10, 8) == 100 * 10000 * Pow(10, 4) == 10_000_000_000;
    PowOfLargerBase(10, 16, 10);
    WrittenDigitsAreDigits(f.value, f.base);
  }

  lemma PowOfLargerBase(b: nat, c: nat, e: nat)
    requires b <= c
    ensures Pow(b, e) <= Pow(c, e)
  {
    if e > 0 {
      PowOfLargerBase(b, c, e - 1);
      MulMono(c, b, Pow(b, e - 1));
      MulMono(Pow(c, e - 1), Pow(b, e - 1), c);
    }
  }

  lemma PadCountIs(f: Field)
    requires Valid(f)
    ensures var n := DigitsOf(f) + Sign(f);
      PadCount(f) == if n < f.width <= n + 14 then f.width - n else 0
  {
    AtMostTenDigits(f);
  }

  lemma RenderingSize(f: Field)
    requires Valid(f)
    ensures |Rendering(f)| == PadCount(f) + Sign(f) + DigitsOf(f)
  {
  }

  /** The rendering is as long as the width asks for, or as the number needs, exactly if at most 14 characters are
      to be filled in. */
  lemma RenderingLength(f: Field)
    requires Valid(f)
    ensures var n := DigitsOf(f) + Sign(f);
      |Rendering(f)| == (if f.width > n then f.width else n) <==> f.width <= n + 14
  {
    RenderingSize(f);
    PadCountIs(f);
  }

  /** The rendering in full: at most 14 zeros behind the sign, or blanks in front of it; none if more are missing. */
  lemma RenderingText(f: Field)
    requires Valid(f) && (f.fill == '0' || f.fill == ' ')
    ensures var sign, num := if f.neg then "-" else "", Numeral(f.value, f.base, f.cap);
      var n := |sign| + |num|;
      var k := if n < f.width <= n + 14 then f.width - n else 0;
      Rendering(f) == if f.fill == '0' then sign + Repeat('0', k) + num else Repeat(' ', k) + sign + num
  {
    PadCountIs(f);
    NumeralChars(f.value, f.base, f.cap);
    hide PadCount, WrittenDigits, Numeral;
  }

  /** The 16 bytes of pcBuf suffice exactly for widths up to 16 and for those that are too large to be filled. */
  lemma ScratchSuffices(f: Field)
    requires Valid(f)
    ensures |Rendering(f)| <= 16 <==> f.width <= 16 || f.width >= DigitsOf(f) + Sign(f) + 15
  {
    RenderingSize(f);
    PadCountIs(f);
    AtMostTenDigits(f);
  }

  // ------------------------------------------------------------------ the conversion in place

  /** The test that ends the search for the highest power: the product may have wrapped around, but then it does
      not divide back. */
  lemma PowerTest(idx: uint32, base: nat, value: uint32)
    requires 2 <= base && idx > 0
    ensures U32(idx * base) <= value && U32(idx * base) / base == idx <==> idx * base <= value
  {
    var x := idx * base;
    DivModUnique(idx, 0, base);
    if x >= 0x1_0000_0000 {
      var y := U32(x);
      var q := y / base;
      assert y == q * base + y % base;
      assert q * base < idx * base;
    }
  }

  lemma PredWraps(x: int)
    ensures Pred(U32(x)) == U32(x - 1)
  {
  }

  lemma DigitCount(value: nat, base: nat, k: nat)
    requires 2 <= base && (Pow(base, k) <= value || k == 0) && value < Pow(base, k + 1)
    ensures |WrittenDigits(value, base)| == k + 1
  {
    DigitsLength(value, base, k);
    DigitsLength(value, base, k + 1);
    if value > 0 { assert Digits(value, base) != []; }
  }

  /** The highest power of the base that is at most the value, and the count less one for every digit but one. */
  method FindPower(value: uint32, base: nat, count0: uint32) returns (idx: uint32, count: uint32)
    requires base == 10 || base == 16
    ensures var n := |WrittenDigits(value, base)|;
      n >= 1 && idx == Pow(base, n - 1) && (idx <= value || idx == 1) && count == U32(count0 - (n - 1))
  {
    hide WrittenDigits, U32;
    idx, count := 1, count0;
    ghost var k := 0;
    assert Pow(base, 0) == 1;
    assert count0 == U32(count0) by { SmallU32(count0); }
    PowerTest(idx, base, value);
    while U32(idx * base) <= value && U32(idx * base) / base == idx
      invariant idx > 0 && idx == Pow(base, k) && (idx <= value || (k == 0 && idx == 1))
      invariant count == U32(count0 - k)
      invariant U32(idx * base) <= value && U32(idx * base) / base == idx <==> idx * base <= value
      decreases value as int - idx
    {
      SmallU32(idx * base);
      PredWraps(count0 - k);
      var old_ := idx;
      idx, count := U32(idx * base), Pred(count);
      k := k + 1;
      assert idx == old_ * base > old_;
      PowerTest(idx, base, value);
    }
    DigitCount(value, base, k);
  }

  lemma SmallU32(x: nat)
    requires x < 0x1_0000_0000
    ensures U32(x) == x
  {
  }

  lemma Regroup(q: int, r: int, b: int, p: int)
    ensures (q * b + r) * p == q * (p * b) + r * p
  {
    assert (q * b) * p == q * (p * b);
  }

  lemma DivDiv(v: nat, p: nat, b: nat)
    requires p > 0 && b > 0
    ensures p * b > 0 && (v / p) / b == v / (p * b)
  {
    var q, r := v / p, v % p;
    var q2, r2 := q / b, q % b;
    assert v == q * p + r;
    assert q == q2 * b + r2;
    Regroup(q2, r2, b, p);
    Regroup(1, r2 + 1 - b, b, p);
    MulMono(b, r2 + 1, p);
    var m := p * b;
    assert m > 0;
    var rest := r2 * p + r;
    assert rest < m by { assert (r2 + 1) * p == r2 * p + p; }
    assert v == q2 * m + rest;
    DivModUnique(q2, rest, m);
  }

  /** The digits of the value, from the highest power of the base down, behind what is in the buffer. */
  method EmitDigits(value: uint32, base: nat, cap: bool, idx0: uint32, pcBuf: array<char>, pos0: nat)
    returns (pos: nat)
    requires base == 10 || base == 16
    requires idx0 == Pow(base, |WrittenDigits(value, base)| - 1) && (idx0 <= value || idx0 == 1)
    requires pos0 + |WrittenDigits(value, base)| <= pcBuf.Length
    modifies pcBuf
    ensures pos == pos0 + |WrittenDigits(value, base)|
    ensures pcBuf[..pos] == old(pcBuf[..pos0]) + Numeral(value, base, cap)
  {
    hide *;
    NumeralChars(value, base, cap);
    ghost var num, front := Numeral(value, base, cap), pcBuf[..pos0];
    PowerIs(value, base, 0);
    var idx := idx0;
    pos := pos0;
    ghost var k := 0;
    while idx > 0
      invariant 0 <= k <= |num| && pos == pos0 + k && idx == PowerAt(value, base, k)
      invariant pcBuf[..pos0] == front && forall i :: 0 <= i < k ==> pcBuf[pos0 + i] == num[i]
    {
      PowerIs(value, base, k);
      PowerStep(value, base, cap, k);
      pcBuf[pos] := DigitChar((value / idx) % base, cap);
      pos := pos + 1;
      idx := idx / base;
      k := k + 1;
    }
    PowerIs(value, base, k);
    Joined(pcBuf[..], front, num, pos);
    assert pcBuf[..][..pos] == pcBuf[..pos];
  }

  lemma Joined(mem: string, front: string, num: string, pos: nat)
    requires pos == |front| + |num| <= |mem| && mem[..|front|] == front
    requires forall i :: 0 <= i < |num| ==> mem[|front| + i] == num[i]
    ensures mem[..pos] == front + num
  {
  }

  /** The power of the base at digit k counted from the left, and zero behind the last digit. */
  function PowerAt(value: nat, base: nat, k: nat): nat
    requires base >= 2
  {
    var n := |WrittenDigits(value, base)|;
    if k < n then Pow(base, n - 1 - k) else 0
  }

  lemma PowerIs(value: nat, base: nat, k: nat)
    requires 2 <= base <= 16
    ensures var n := |WrittenDigits(value, base)|;
      && PowerAt(value, base, k) == (if k < n then Pow(base, n - 1 - k) else 0)
      && (PowerAt(value, base, k) > 0 <==> k < n) && n == |Numeral(value, base, false)| > 0
  {
    NumeralChars(value, base, false);
    if k < |WrittenDigits(value, base)| { PowPositive(base, |WrittenDigits(value, base)| - 1 - k); }
  }

  lemma PowerStep(value: nat, base: nat, cap: bool, k: nat)
    requires 2 <= base <= 16 && k < |WrittenDigits(value, base)|
    ensures var idx := PowerAt(value, base, k);
      && idx > 0 && (value / idx) % base < 16 && k < |Numeral(value, base, cap)|
      && DigitChar((value / idx) % base, cap) == Numeral(value, base, cap)[k]
      && idx / base == PowerAt(value, base, k + 1)
  {
    DigitAt(value, base, k);
    PowerBelow(base, |WrittenDigits(value, base)| - 1 - k);
    NumeralChars(value, base, cap);
    hide WrittenDigits, Numeral, DigitChar, Pow;
  }

  lemma NumeralChars(v: nat, base: nat, cap: bool)
    requires 2 <= base <= 16
    ensures var ds, num := WrittenDigits(v, base), Numeral(v, base, cap);
      |num| == |ds| > 0 && forall i :: 0 <= i < |ds| ==> ds[i] < base && num[i] == DigitChar(ds[i], cap)
  {
    WrittenDigitsAreDigits(v, base);
  }

  /** Digit k counted from the left. */
  lemma DigitAt(v: nat, base: nat, k: nat)
    requires 2 <= base && k < |WrittenDigits(v, base)|
    ensures var ds := WrittenDigits(v, base);
      Pow(base, |ds| - 1 - k) > 0 && (v / Pow(base, |ds| - 1 - k)) % base == ds[k]
  {
    var ds := WrittenDigits(v, base);
    PowPositive(base, |ds| - 1 - k);
    if v == 0 {
    } else {
      DigitFromRight(v, base, |ds| - 1 - k);
    }
  }

  lemma {:induction false} DigitFromRight(v: nat, base: nat, j: nat)
    requires 2 <= base && j < |Digits(v, base)|
    ensures Pow(base, j) > 0 && (v / Pow(base, j)) % base == Digits(v, base)[|Digits(v, base)| - 1 - j]
    decreases j
  {
    PowPositive(base, j);
    var ds := Digits(v, base);
    assert v > 0;
    assert ds == Digits(v / base, base) + [v % base];
    if j > 0 {
      DigitFromRight(v / base, base, j - 1);
      DivDiv(v, base, Pow(base, j - 1));
    } else {
      assert Pow(base, 0) == 1;
    }
  }

  lemma PowerBelow(base: nat, j: nat)
    requires base >= 2
    ensures Pow(base, j) / base == if j == 0 then 0 else Pow(base, j - 1)
    ensures j > 0 ==> Pow(base, j - 1) > 0
  {
    if j == 0 {
      DivModUnique(0, 1, base);
    } else {
      PowPositive(base, j - 1);
      DivModUnique(Pow(base, j - 1), 0, base);
    }
  }

  /** The sign and the padding; count is what FindPower has left of the width. */
  method EmitFront(f: Field, count0: uint32, pcBuf: array<char>) returns (pos: nat)
    requires Valid(f) && pcBuf.Length == 16 && PadCount(f) + Sign(f) <= 16
    requires count0 == U32(f.width - (DigitsOf(f) - 1))
    modifies pcBuf
    ensures pos == |Front(f)| && pcBuf[..pos] == Front(f)
  {
    ghost var pad := PadCount(f);
    var count, neg := count0, f.neg;
    pos := 0;
    if neg {
      PredWraps(f.width - (DigitsOf(f) - 1));
      count := Pred(count);
    }
    assert pad == if 1 < count < 16 then count - 1 else 0;
    if neg && f.fill == '0' {
      pcBuf[pos] := '-';
      pos, neg := pos + 1, false;
    }
    hide PadCount, DigitsOf;
    ghost var before := pos;
    if 1 < count < 16 {
      count := count - 1;
      while count > 0
        invariant pos + count == before + pad && before <= pos
        invariant before == 1 ==> pcBuf[0] == '-'
        invariant forall i :: before <= i < pos ==> pcBuf[i] == f.fill
      {
        pcBuf[pos] := f.fill;
        pos, count := pos + 1, count - 1;
      }
    }
    if neg {
      pcBuf[pos] := '-';
      pos := pos + 1;
    }
    assert pcBuf[..pos] == Front(f);
  }

  /** The code at `convert`, up to the output of pcBuf. */
  method Convert(f: Field, pcBuf: array<char>) returns (pos: nat)
    requires Valid(f) && pcBuf.Length == 16 && |Rendering(f)| <= 16
    modifies pcBuf
    ensures pos == |Rendering(f)| && pcBuf[..pos] == Rendering(f)
  {
    RenderingSize(f);
    NumeralChars(f.value, f.base, f.cap);
    var idx, count := FindPower(f.value, f.base, f.width);
    pos := EmitFront(f, count, pcBuf);
    hide PadCount, Front, WrittenDigits, Numeral;
    pos := EmitDigits(f.value, f.base, f.cap, idx, pcBuf, pos);
  }

  // ------------------------------------------------------------------ what a rendering denotes

  /** The number that a rendering stands for: blanks in front are skipped, a minus sign negates. */
  function Denoted(s: string, base: nat): int {
    if s != "" && s[0] == ' ' then Denoted(s[1..], base)
    else if s != "" && s[0] == '-' then Negated(Val(Values(s[1..]), base))
    else Val(Values(s), base)
  }

  function Negated(x: int): int { -x }

  /** The number of a field. */
  function Meaning(f: Field): int {
    if f.neg then Negated(f.value) else f.value
  }

  /** Whatever the width and the filling, a rendering denotes its number. */
  lemma RenderingDenotes(f: Field)
    requires Valid(f) && (f.fill == '0' || f.fill == ' ')
    ensures Denoted(Rendering(f), f.base) == Meaning(f)
  {
    hide *;
    RenderingForm(f);
    if f.fill == '0' {
      ZeroFilledDenotes(f, PadCount(f));
    } else {
      BlankFilledDenotes(f, PadCount(f));
    }
  }

  lemma ZeroFilledDenotes(f: Field, pad: nat)
    requires Valid(f)
    ensures var body := Repeat('0', pad) + Numeral(f.value, f.base, f.cap);
      Denoted(if f.neg then ['-'] + body else body, f.base) == Meaning(f)
  {
    var num := Numeral(f.value, f.base, f.cap);
    NumeralReadsBack(f.value, f.base, f.cap);
    NotBlank(f.value, f.base, f.cap);
    hide *;
    ZerosInFront(pad, num, f.base);
    var body := Repeat('0', pad) + num;
    assert body != "" && body[0] != ' ' && body[0] != '-' by { assert pad > 0 ==> body[0] == '0'; }
    SignInFront(body, f);
  }

  lemma BlankFilledDenotes(f: Field, pad: nat)
    requires Valid(f)
    ensures var num := Numeral(f.value, f.base, f.cap);
      Denoted(Repeat(' ', pad) + (if f.neg then ['-'] + num else num), f.base) == Meaning(f)
  {
    var num := Numeral(f.value, f.base, f.cap);
    NumeralReadsBack(f.value, f.base, f.cap);
    NotBlank(f.value, f.base, f.cap);
    hide *;
    SignInFront(num, f);
    BlanksInFront(pad, if f.neg then ['-'] + num else num, f.base);
  }

  lemma RenderingForm(f: Field)
    requires Valid(f) && (f.fill == '0' || f.fill == ' ')
    ensures var num, pad := Numeral(f.value, f.base, f.cap), PadCount(f);
      Rendering(f) ==
        if f.fill == '0' then (if f.neg then ['-'] + (Repeat('0', pad) + num) else Repeat('0', pad) + num)
        else Repeat(' ', pad) + (if f.neg then ['-'] + num else num)
  {
    hide Numeral, PadCount;
  }

  lemma SignInFront(body: string, f: Field)
    requires body != "" && body[0] != ' ' && body[0] != '-' && Val(Values(body), f.base) == f.value
    ensures Denoted(if f.neg then ['-'] + body else body, f.base) == Meaning(f)
  {
    hide Val;
    assert (['-'] + body)[1..] == body;
  }

  lemma NotBlank(v: nat, base: nat, cap: bool)
    requires 2 <= base <= 16
    ensures Numeral(v, base, cap) != "" && Numeral(v, base, cap)[0] != ' ' && Numeral(v, base, cap)[0] != '-'
  {
    NumeralChars(v, base, cap);
  }

  lemma ZerosInFront(n: nat, num: string, base: nat)
    ensures Val(Values(Repeat('0', n) + num), base) == Val(Values(num), base)
  {
    hide Val;
    ValZeros(n, Values(num), base);
    assert Values(Repeat('0', n) + num) == Zeros(n) + Values(num);
  }

  lemma {:induction false} BlanksInFront(n: nat, body: string, base: nat)
    ensures Denoted(Repeat(' ', n) + body, base) == Denoted(body, base)
  {
    hide Val;
    if n == 0 {
      assert Repeat(' ', 0) + body == body;
    } else {
      assert (Repeat(' ', n) + body)[1..] == Repeat(' ', n - 1) + body;
      BlanksInFront(n - 1, body, base);
    }
  }
}
