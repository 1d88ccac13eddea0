/** The decimal printers of lib_standard_app/format.c. */
module Format {
  import opened CTypes
  import opened Numerals
  import opened Conversion

  /** A number in decimal. */
  function Decimal(v: nat): string { Numeral(v, 10, false) }

  // ------------------------------------------------------------------ format_u64

  /** The last digit and those before it. */
  lemma LastDigit(v: nat)
    ensures v <= 9 ==> Decimal(v) == [DigitChar(v, false)]
    ensures v > 9 ==> Decimal(v) == Decimal(v / 10) + [DigitChar(v % 10, false)]
  {
    NumeralChars(v, 10, false);
    NumeralChars(v / 10, 10, false);
    if v > 9 {
      assert WrittenDigits(v, 10) == WrittenDigits(v / 10, 10) + [v % 10];
    } else if v > 0 {
      assert Digits(v / 10, 10) == [];
      assert Digits(v, 10) == [] + [v];
    }
  }

  lemma DecimalNotEmpty(v: nat)
    ensures |Decimal(v)| > 0 && '\0' !in Decimal(v) && '.' !in Decimal(v)
    ensures forall i :: 0 <= i < |Decimal(v)| ==> '0' <= Decimal(v)[i] <= '9'
  {
    NumeralChars(v, 10, false);
    forall i | 0 <= i < |Decimal(v)| ensures '0' <= Decimal(v)[i] <= '9' {
      DigitReadsBack(WrittenDigits(v, 10)[i], false);
    }
  }

  /** A 64-bit number has at most 20 digits. */
  lemma AtMostTwentyDigits(v: uint64)
    ensures |Decimal(v)| <= 20
  {
    DigitsLength(v, 10, 20);
    assert Pow(10, 4) == 10000;
    PowAdd(10, 4, 4);
    PowAdd(10, 8, 8);
    PowAdd(10, 16, 4);
    NumeralChars(v, 10, false);
  }

  /** The digits from the last to the first, and then in their order. For a one-digit number a single character counts
      as enough room: the terminator is then the one character written behind the destination. */
  method FormatU64(out: array<char>, outLen0: nat, value: uint64) returns (ok: bool)
    requires outLen0 <= out.Length && (outLen0 == 1 && value <= 9 ==> out.Length >= 2)
    modifies out
    ensures ok <==> outLen0 > |Decimal(value)| || (outLen0 == 1 && value <= 9)
    ensures ok ==> |Decimal(value)| < out.Length
    ensures ok ==> out[..] == Decimal(value) + ['\0'] + old(out[..])[|Decimal(value)| + 1..]
    ensures var end := if outLen0 == 1 && value <= 9 then 2 else outLen0; out[end..] == old(out[end..])
  {
    hide *;
    DecimalNotEmpty(value);
    LastDigit(value);
    assert value <= 9 ==> |Decimal(value)| == 1;
    if outLen0 == 0 {
      return false;
    }
    ghost var before, num := out[..], Decimal(value);
    var outLen := outLen0 - 1;
    var i, last;
    ok, i, last := DigitsBackwards(out, outLen, value);
    if !ok {
      return;
    }
    out[i], out[i + 1] := DigitChar(last, false), '\0';
    ghost var written := out[..];
    Revert(out, i);
    ReversedDigits(num, before, written, out[..]);
  }

  /** The loop of format_u64: all digits but the first, the last one first, unless there are too many. */
  method DigitsBackwards(out: array<char>, outLen: nat, value: uint64) returns (ok: bool, i: nat, last: uint64)
    requires outLen < out.Length
    modifies out
    ensures |Decimal(value)| > 0 && (ok <==> outLen >= |Decimal(value)| || value <= 9)
    ensures ok ==> i <= outLen && i == |Decimal(value)| - 1 && last <= 9 && Decimal(value)[0] == DigitChar(last, false)
    ensures ok ==> forall k :: 0 <= k < i ==> out[k] == Decimal(value)[i - k]
    ensures ok ==> forall k :: i <= k < out.Length ==> out[k] == old(out[k])
    ensures out[outLen + 1..] == old(out[outLen + 1..])
  {
    hide *;
    ghost var before, num := out[..], Decimal(value);
    DecimalNotEmpty(value);
    assert num[..|num|] == num;
    i, last := 0, value;
    while last > 9
      invariant 0 <= i < |num| && Decimal(last) == num[..|num| - i]
      invariant if i == 0 then last == value else i + 1 <= outLen
      invariant forall k :: 0 <= k < i ==> out[k] == num[|num| - 1 - k]
      invariant forall k :: i <= k < out.Length ==> out[k] == before[k]
    {
      LastDigitOf(num, |num| - i, last);
      out[i] := DigitChar(last % 10, false);
      last := last / 10;
      i := i + 1;
      if i + 1 > outLen {
        return false, i, last;
      }
    }
    LastDigitOf(num, |num| - i, last);
    ok := true;
  }

  /** The last digit of a number that begins like num. */
  lemma LastDigitOf(num: string, n: nat, v: nat)
    requires n <= |num| && Decimal(v) == num[..n]
    ensures n > 0 && num[n - 1] == DigitChar(v % 10, false)
    ensures if v <= 9 then n == 1 else n > 1 && Decimal(v / 10) == num[..n - 1]
  {
    hide *;
    LastDigit(v);
    DecimalNotEmpty(v / 10);
    Peel(num, n, if v > 9 then Decimal(v / 10) else "", DigitChar(v % 10, false));
  }

  lemma ReversedDigits(num: string, before: string, written: string, now: string)
    requires 0 < |num| < |before| == |written| == |now|
    requires forall k :: 0 <= k < |num| ==> written[k] == num[|num| - 1 - k]
    requires written[|num|] == '\0' && forall k :: |num| < k < |before| ==> written[k] == before[k]
    requires forall k :: 0 <= k < |num| ==> now[k] == written[|num| - 1 - k]
    requires forall k :: |num| <= k < |now| ==> now[k] == written[k]
    ensures now == num + ['\0'] + before[|num| + 1..]
  {
    assert forall k :: 0 <= k < |num| ==> now[k] == num[k];
  }

  lemma Peel(num: string, m: nat, s: string, d: char)
    requires m <= |num| && num[..m] == s + [d]
    ensures m > 0 && s == num[..m - 1] && num[m - 1] == d
  {
    assert (s + [d])[|s|] == d;
    assert num[..m][..m - 1] == s;
  }

  /** The characters up to and including index i0, in opposite order. */
  method Revert(out: array<char>, i0: nat)
    requires i0 < out.Length
    modifies out
    ensures forall k :: 0 <= k <= i0 ==> out[k] == old(out[i0 - k])
    ensures forall k :: i0 < k < out.Length ==> out[k] == old(out[k])
  {
    var i, j := i0, 0;
    while j < i
      invariant j + i == i0 && -1 <= i
      invariant forall k :: 0 <= k < j || i < k <= i0 ==> out[k] == old(out[i0 - k])
      invariant forall k :: j <= k <= i || i0 < k < out.Length ==> out[k] == old(out[k])
    {
      out[j], out[i] := out[i], out[j];
      i, j := i - 1, j + 1;
    }
  }

  // ------------------------------------------------------------------ format_i64

  type int64 = x: int | -0x8000_0000_0000_0000 <= x < 0x8000_0000_0000_0000

  /** Division and remainder of signed numbers truncate towards zero. */
  function Quotient(x: int, y: nat): int
    requires y > 0
  {
    if x >= 0 then x / y else -((-x) / y)
  }

  function Remainder(x: int, y: nat): int
    requires y > 0
  {
    x - y * Quotient(x, y)
  }

  function Magnitude(x: int): nat { if x < 0 then -x else x }

  /** A signed number in decimal. */
  function Signed(value: int): string {
    if value < 0 then ['-'] + Decimal(Magnitude(value)) else Decimal(value)
  }

  lemma MagnitudeIs(x: int)
    ensures Magnitude(x) == if x < 0 then -x else x
  {
  }

  lemma TruncatedStep(num: int, sign: int)
    requires sign == if num < 0 then -1 else 1
    ensures Remainder(num, 10) * sign == Magnitude(num) % 10 && Magnitude(Quotient(num, 10)) == Magnitude(num) / 10
    ensures Quotient(num, 10) != 0 ==> (Quotient(num, 10) < 0 <==> num < 0)
  {
  }

  /** The digits of a number other than zero, the last one first. */
  method SignedBackwards(temp: array<char>, value: int64) returns (p: nat)
    requires temp.Length >= 21
    modifies temp
    ensures p == (if value == 0 then 0 else |Decimal(Magnitude(value))|) && p <= 20
    ensures forall k :: 0 <= k < p ==> temp[k] == Decimal(Magnitude(value))[p - 1 - k]
  {
    hide *;
    var num: int, sign := value, if value < 0 then -1 else 1;
    p := 0;
    ghost var text := Decimal(Magnitude(value));
    MagnitudeIs(value);
    AtMostTwentyDigits(Magnitude(value));
    DecimalNotEmpty(Magnitude(value));
    assert text[..|text|] == text;
    while num != 0
      invariant num != 0 ==> (num < 0 <==> value < 0)
      invariant if num == 0 then p == (if value == 0 then 0 else |text|)
                else p < |text| && Decimal(Magnitude(num)) == text[..|text| - p]
      invariant forall k :: 0 <= k < p ==> temp[k] == text[|text| - 1 - k]
      decreases Magnitude(num)
    {
      var m := Magnitude(num);
      MagnitudeIs(num);
      MagnitudeIs(Quotient(num, 10));
      TruncatedStep(num, sign);
      LastDigitOf(text, |text| - p, m);
      temp[p] := DigitChar(Remainder(num, 10) * sign, false);
      p := p + 1;
      num := Quotient(num, 10);
    }
  }

  /** format_i64; a size of 2^31 or more counts as negative. */
  method FormatI64(dst: array<char>, dstLen: uint32, value: int64) returns (ok: bool)
    requires dstLen <= dst.Length
    modifies dst
    ensures ok <==> |Signed(value)| < dstLen < 0x8000_0000
    ensures dst[..] == if ok then Signed(value) + ['\0'] + old(dst[..])[|Signed(value)| + 1..] else old(dst[..])
  {
    var temp := new char[21];
    var n := SignedText(temp, value);
    if AsInt(dstLen) < n + 1 {
      return false;
    }
    CopyReversed(dst, temp, n, Signed(value));
    ok := true;
  }

  /** The text of a number, the last character first. */
  method SignedText(temp: array<char>, value: int64) returns (ptr: nat)
    requires temp.Length == 21
    modifies temp
    ensures ptr == |Signed(value)| <= 21
    ensures forall k :: 0 <= k < ptr ==> temp[k] == Signed(value)[ptr - 1 - k]
  {
    LastDigit(0);
    ptr := SignedBackwards(temp, value);
    if value < 0 {
      temp[ptr] := '-';
      ptr := ptr + 1;
    } else if value == 0 {
      temp[ptr] := '0';
      ptr := ptr + 1;
    }
  }

  method CopyReversed(dst: array<char>, temp: array<char>, n: nat, ghost text: string)
    requires n == |text| <= temp.Length && n < dst.Length && temp != dst
    requires forall k :: 0 <= k < n ==> temp[k] == text[n - 1 - k]
    modifies dst
    ensures dst[..] == text + ['\0'] + old(dst[..])[n + 1..]
  {
    var ptr, index := n, 0;
    while ptr > 0
      invariant 0 <= ptr && ptr + index == n
      invariant forall k :: 0 <= k < index ==> dst[k] == text[k]
      invariant forall k :: index <= k < dst.Length ==> dst[k] == old(dst[k])
    {
      ptr := ptr - 1;
      dst[index] := temp[ptr];
      index := index + 1;
    }
    dst[index] := '\0';
    assert dst[..n] == text;
  }

  /** What is printed for a signed number denotes it. */
  lemma SignedDenotes(value: int)
    ensures Denoted(Signed(value), 10) == value
  {
    var m := Magnitude(value);
    NumeralReadsBack(m, 10, false);
    NotBlank(m, 10, false);
    var num := Decimal(m);
    hide Val;
    assert value < 0 ==> Signed(value)[1..] == num;
  }
}
