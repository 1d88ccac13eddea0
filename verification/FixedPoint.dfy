/** The fixed-point printers of lib_standard_app/format.c: a number of units of 10 to the power of -decimals. */
module FixedPoint {
  import opened CTypes
  import opened Numerals
  import opened Conversion
  import opened CStrings
  import opened Format

  // ------------------------------------------------------------------ the text

  /** The digits in front of the last `decimals` ones, at least one, and those last digits. */
  function Whole(value: nat, decimals: nat): string {
    var num := Decimal(value);
    if |num| <= decimals then "0" else num[..|num| - decimals]
  }

  function Fraction(value: nat, decimals: nat): string {
    var num := Decimal(value);
    if |num| <= decimals then Repeat('0', decimals - |num|) + num else num[|num| - decimals..]
  }

  /** The text that is to be printed. */
  function Fixed(value: nat, decimals: nat): string {
    Whole(value, decimals) + ("." + Fraction(value, decimals))
  }

  /** When format_fpu64 accepts a destination of a given size, for a number of n digits. */
  predicate Accepts(dstLen: nat, n: nat, decimals: nat) {
    dstLen > if n <= decimals then 2 + decimals - n else n + 1 + decimals
  }

  /** What is written then. With digits in front of the point it is the text alone; otherwise the text is filled up
      with zeros to the size of the destination, or cut to it. */
  function WrittenText(dstLen: nat, value: nat, decimals: nat): string {
    if |Decimal(value)| > decimals then Fixed(value, decimals)
    else Fitted(Fixed(value, decimals), dstLen)
  }

  lemma FixedLength(value: nat, decimals: nat)
    ensures |Fixed(value, decimals)| == (if |Decimal(value)| <= decimals then decimals + 2 else |Decimal(value)| + 1)
  {
  }

  /** What strncpy writes: the string, cut or filled up with zeros to n characters. */
  function Fitted(s: string, n: nat): (t: string)
    ensures |t| == n
  {
    (s + Repeat('\0', n))[..n]
  }

  /** strncpy to position `at` */
  method StrNCpy(dst: array<char>, at: nat, src: array<char>, from: nat, n: nat)
    requires dst != src && at + n <= dst.Length && from <= src.Length && '\0' in src[from..]
    modifies dst
    ensures dst[..] == old(Written(dst[..], at, Fitted(CString(src[from..]), n)))
  {
    var length := StrLen(src, from);
    ghost var s := CString(src[from..]);
    assert forall i :: 0 <= i < length ==> s[i] == src[from + i];
    forall i | 0 <= i < n { dst[at + i] := if i < length then src[from + i] else '\0'; }
    assert forall i :: 0 <= i < n ==> dst[at + i] == Fitted(s, n)[i];
  }

  // ------------------------------------------------------------------ format_fpu64

  method FormatFpu64(dst: array<char>, dstLen: nat, value: uint64, decimals: byte) returns (ok: bool)
    requires dstLen <= dst.Length
    modifies dst
    ensures ok <==> Accepts(dstLen, |Decimal(value)|, decimals)
    ensures ok ==> |WrittenText(dstLen, value, decimals)| <= dst.Length
    ensures dst[..] == if ok then Written(old(dst[..]), 0, WrittenText(dstLen, value, decimals)) else old(dst[..])
  {
    var buffer := new char[21](_ => '\0');
    AtMostTwentyDigits(value);
    ghost var before, num := dst[..], Decimal(value);
    var formatted := FormatU64(buffer, buffer.Length, value);
    DecimalNotEmpty(value);
    hide Decimal;
    CStringIs(buffer[..], num);
    assert buffer[0..] == buffer[..];
    var digits := StrLen(buffer, 0);
    if digits <= decimals {
      ok := ZerosInFrontOf(dst, dstLen, buffer, digits, decimals, value);
    } else {
      ok := PointBetween(dst, dstLen, buffer, digits, decimals, value);
    }
  }

  /** The first branch: a zero, the point, further zeros and all digits. */
  method ZerosInFrontOf(dst: array<char>, dstLen: nat, buffer: array<char>, digits: nat, decimals: byte,
                        ghost value: nat)
    returns (ok: bool)
    requires dstLen <= dst.Length && dst != buffer && '\0' in buffer[0..] && CString(buffer[0..]) == Decimal(value)
    requires digits == |Decimal(value)| <= decimals
    modifies dst
    ensures ok <==> Accepts(dstLen, digits, decimals)
    ensures dst[..] == if ok then Written(old(dst[..]), 0, WrittenText(dstLen, value, decimals)) else old(dst[..])
  {
    if dstLen <= 2 + decimals - digits {
      return false;
    }
    ghost var before, mem, num, front := dst[..], buffer[0..], Decimal(value), "0." + Repeat('0', decimals - digits);
    PutZeros(dst, decimals - digits);
    var at := 2 + decimals - digits;
    assert buffer[0..] == mem;
    StrNCpy(dst, at, buffer, 0, dstLen - at);
    FrontAndDigits(value, decimals, dstLen);
    hide *;
    WrittenTwice(before, 0, front, Fitted(num, dstLen - at));
    ok := true;
  }

  lemma FrontAndDigits(value: nat, decimals: nat, dstLen: nat)
    requires |Decimal(value)| <= decimals && dstLen > 2 + decimals - |Decimal(value)|
    ensures var front := "0." + Repeat('0', decimals - |Decimal(value)|);
      front + Fitted(Decimal(value), dstLen - |front|) == WrittenText(dstLen, value, decimals)
  {
    var num, zeros := Decimal(value), Repeat('0', decimals - |Decimal(value)|);
    hide Decimal;
    CutBehind("0." + zeros, num, dstLen);
    assert ("0." + zeros) + num == "0" + ("." + (zeros + num));
  }

  /** A zero, the point and n further zeros. */
  method PutZeros(dst: array<char>, n: nat)
    requires 2 + n <= dst.Length
    modifies dst
    ensures dst[..] == Written(old(dst[..]), 0, "0." + Repeat('0', n))
  {
    dst[0], dst[1] := '0', '.';
    var i := 0;
    while i < n
      invariant 0 <= i <= n && dst[0] == '0' && dst[1] == '.'
      invariant forall k :: 2 <= k < 2 + i ==> dst[k] == '0'
      invariant forall k :: 2 + i <= k < dst.Length ==> dst[k] == old(dst[k])
    {
      dst[2 + i] := '0';
      i := i + 1;
    }
  }

  /** Cutting or filling up a text that begins with x means to do so with what follows. */
  lemma CutBehind(x: string, y: string, n: nat)
    requires |x| <= n
    ensures x + Fitted(y, n - |x|) == ((x + y) + Repeat('\0', n))[..n]
  {
  }

  /** The second branch: the digits in front of the point, the point, and the other digits. */
  method PointBetween(dst: array<char>, dstLen: nat, buffer: array<char>, digits: nat, decimals: byte,
                      ghost value: nat)
    returns (ok: bool)
    requires dstLen <= dst.Length && dst != buffer && '\0' in buffer[0..] && CString(buffer[0..]) == Decimal(value)
    requires digits == |Decimal(value)| > decimals
    modifies dst
    ensures ok <==> Accepts(dstLen, digits, decimals)
    ensures ok ==> |Fixed(value, decimals)| <= dst.Length
    ensures dst[..] == if ok then Written(old(dst[..]), 0, Fixed(value, decimals)) else old(dst[..])
  {
    PointAndDigits(value, decimals);
    if dstLen <= digits + 1 + decimals {
      return false;
    }
    PutAround(dst, buffer, digits - decimals, decimals, buffer[0..], Decimal(value));
    ok := true;
  }

  method PutAround(dst: array<char>, buffer: array<char>, shift: nat, n: nat, ghost mem: string, ghost num: string)
    requires dst != buffer && mem == buffer[0..] && '\0' in mem && CString(mem) == num
             && |num| == shift + n < dst.Length
    modifies dst
    ensures dst[..] == Written(old(dst[..]), 0, (num[..shift] + ".") + num[shift..])
  {
    hide *;
    ghost var before := dst[..];
    RestOfString(mem, num, shift);
    PrefixOfString(mem, num, shift);
    PutDigitsAndPoint(dst, buffer, shift);
    SameRest(buffer[0..], mem, buffer[shift..], shift);
    StrNCpy(dst, shift + 1, buffer, shift, n);
    WrittenTwice(before, 0, num[..shift] + ".", num[shift..]);
  }

  lemma SameRest(now: string, mem: string, rest: string, k: nat)
    requires now == mem && k <= |now| && rest == now[k..]
    ensures rest == mem[k..]
  {
  }

  lemma PointAndDigits(value: nat, decimals: nat)
    requires |Decimal(value)| > decimals
    ensures var num, shift := Decimal(value), |Decimal(value)| - decimals;
      (num[..shift] + ".") + num[shift..] == Fixed(value, decimals) && |Fixed(value, decimals)| == |num| + 1
  {
    var num, shift := Decimal(value), |Decimal(value)| - decimals;
    hide Decimal;
    assert (num[..shift] + ".") + num[shift..] == num[..shift] + ("." + num[shift..]);
  }

  lemma PrefixOfString(mem: string, s: string, k: nat)
    requires '\0' in mem && CString(mem) == s && k <= |s|
    ensures k <= |mem| && mem[..k] == s[..k]
  {
  }

  method PutDigitsAndPoint(dst: array<char>, buffer: array<char>, n: nat)
    requires n <= buffer.Length && n < dst.Length && dst != buffer
    modifies dst
    ensures dst[..] == Written(old(dst[..]), 0, buffer[0..][..n] + ".")
  {
    forall i | 0 <= i < n { dst[i] := buffer[i]; }
    dst[n] := '.';
  }

  lemma RestOfString(mem: string, s: string, k: nat)
    requires '\0' in mem && CString(mem) == s && k <= |s|
    ensures '\0' in mem[k..] && CString(mem[k..]) == s[k..] && Fitted(s[k..], |s| - k) == s[k..]
  {
    assert mem[k..][|s| - k] == '\0';
    CStringIs(mem[k..], s[k..]);
  }

  // ------------------------------------------------------------------ what the text denotes

  /** The index of the point, or the length if there is none. */
  function PointAt(s: string): (p: nat)
    ensures p <= |s|
  {
    if s == "" || s[0] == '.' then 0 else 1 + PointAt(s[1..])
  }

  /** How many digits are behind the point. */
  function Scale(s: string): nat { if PointAt(s) < |s| then |s| - PointAt(s) - 1 else 0 }

  function WithoutPoint(s: string): string {
    s[..PointAt(s)] + if PointAt(s) < |s| then s[PointAt(s) + 1..] else ""
  }

  /** A text denotes its Mantissa / 10 to the power of its Scale. */
  function Mantissa(s: string): nat { Val(Values(WithoutPoint(s)), 10) }

  predicate Plain(s: string) { forall i :: 0 <= i < |s| ==> s[i] != '.' }

  lemma {:induction false} PointIs(x: string, y: string)
    requires Plain(x)
    ensures PointAt(x + ("." + y)) == |x| && PointAt(x) == |x|
    decreases |x|
  {
    if x == "" {
      assert x + ("." + y) == "." + y;
    } else {
      assert (x + ("." + y))[1..] == x[1..] + ("." + y);
      PointIs(x[1..], y);
    }
  }

  lemma TextWithPoint(x: string, y: string)
    requires Plain(x)
    ensures Mantissa(x + ("." + y)) == Val(Values(x + y), 10) && Scale(x + ("." + y)) == |y|
    ensures Mantissa(x) == Val(Values(x), 10) && Scale(x) == 0
  {
    PointIs(x, y);
    var s := x + ("." + y);
    hide PointAt, Val;
    assert s[..|x|] == x && s[|x| + 1..] == y;
    assert x[..|x|] + "" == x;
  }

  lemma PlainParts(value: nat, decimals: nat)
    ensures Plain(Whole(value, decimals)) && Whole(value, decimals) != ""
    ensures |Fraction(value, decimals)| == decimals
  {
    DecimalNotEmpty(value);
    hide Decimal;
  }

  /** The digits of the text are those of the value, but for zeros in front. */
  lemma AllDigits(value: nat, decimals: nat)
    ensures Val(Values(Whole(value, decimals) + Fraction(value, decimals)), 10) == value
  {
    var num := Decimal(value);
    NumeralReadsBack(value, 10, false);
    hide Decimal, Val, Values;
    if |num| <= decimals {
      ZerosInFront(1 + decimals - |num|, num, 10);
      OneMoreZero(decimals - |num|, num);
    } else {
      assert num[..|num| - decimals] + num[|num| - decimals..] == num;
    }
  }

  lemma OneMoreZero(n: nat, num: string)
    ensures "0" + (Repeat('0', n) + num) == Repeat('0', 1 + n) + num
  {
  }

  /** The printed text denotes exactly value / 10 to the power of decimals. */
  lemma FixedDenotes(value: nat, decimals: nat)
    ensures Mantissa(Fixed(value, decimals)) == value && Scale(Fixed(value, decimals)) == decimals
  {
    PlainParts(value, decimals);
    AllDigits(value, decimals);
    hide Whole, Fraction, Mantissa, Scale;
    TextWithPoint(Whole(value, decimals), Fraction(value, decimals));
  }

  /** In front of the point is the quotient, without superfluous zeros; behind it are exactly `decimals` digits,
      which denote the remainder. */
  lemma FixedParts(value: nat, decimals: nat)
    ensures var one := Pow(10, decimals);
      && one > 0 && Whole(value, decimals) == Decimal(value / one)
      && |Fraction(value, decimals)| == decimals && Val(Values(Fraction(value, decimals)), 10) == value % one
  {
    PartsOf(value, decimals);
    hide *;
    PlainParts(value, decimals);
    if |Decimal(value)| <= decimals {
      SmallValue(value, decimals);
    } else {
      LeadingDigits(value, |Decimal(value)| - decimals);
    }
  }

  lemma PartsOf(value: nat, decimals: nat)
    ensures var num := Decimal(value);
      if |num| <= decimals then
        Whole(value, decimals) == "0" && Fraction(value, decimals) == Repeat('0', decimals - |num|) + num
      else
        Whole(value, decimals) == num[..|num| - decimals] && Fraction(value, decimals) == num[|num| - decimals..]
  {
  }

  lemma SmallValue(value: nat, decimals: nat)
    requires |Decimal(value)| <= decimals
    ensures var one := Pow(10, decimals);
      && one > 0 && "0" == Decimal(value / one)
      && Val(Values(Repeat('0', decimals - |Decimal(value)|) + Decimal(value)), 10) == value % one
  {
    var num, one := Decimal(value), Pow(10, decimals);
    NumeralReadsBack(value, 10, false);
    ZerosInFront(decimals - |num|, num, 10);
    DecimalBound(value);
    LastDigit(0);
    assert DigitChar(0, false) == '0';
    hide Decimal, Val, Pow, Values;
    PowMono(10, |num|, decimals);
    DivModUnique(0, value, one);
  }

  lemma DecimalBound(value: nat)
    ensures value < Pow(10, |Decimal(value)|)
  {
    WrittenDigitsAreDigits(value, 10);
    hide WrittenDigits, Val;
    ValBound(WrittenDigits(value, 10), 10);
  }

  /** The first k digits are those of the quotient, the others denote the remainder. */
  lemma LeadingDigits(value: nat, k: nat)
    requires 0 < k <= |Decimal(value)|
    ensures var num, one := Decimal(value), Pow(10, |Decimal(value)| - k);
      && one > 0 && num[..k] == Decimal(value / one) && Val(Values(num[k..]), 10) == value % one
  {
    var ds := WrittenDigits(value, 10);
    WrittenDigitsAreDigits(value, 10);
    NumeralChars(value, 10, false);
    SplitDigits(ds, k);
    ValueOfChars(ds, k);
    FirstDigitsWritten(value, k);
    hide WrittenDigits, Val, Pow, Values, Chars;
  }

  /** The first k digits are what is written for the number that they denote. */
  lemma FirstDigitsWritten(value: nat, k: nat)
    requires 0 < k <= |WrittenDigits(value, 10)|
    ensures var ds := WrittenDigits(value, 10);
      AreDigits(ds, 10) && Chars(ds[..k], false) == Chars(ds, false)[..k] == Decimal(Val(ds[..k], 10))
  {
    var ds := WrittenDigits(value, 10);
    hide *;
    WrittenDigitsAreDigits(value, 10);
    CharsOfPrefix(ds, k);
    PrefixDigits(value, k);
    DecimalIsChars(Val(ds[..k], 10));
  }

  lemma CharsOfPrefix(ds: seq<nat>, k: nat)
    requires AreDigits(ds, 10) && k <= |ds|
    ensures AreDigits(ds[..k], 10) && Chars(ds[..k], false) == Chars(ds, false)[..k]
  {
    hide DigitChar;
  }

  lemma DecimalIsChars(v: nat)
    ensures AreDigits(WrittenDigits(v, 10), 10) && Decimal(v) == Chars(WrittenDigits(v, 10), false)
  {
    WrittenDigitsAreDigits(v, 10);
  }

  lemma PrefixDigits(value: nat, k: nat)
    requires 0 < k <= |WrittenDigits(value, 10)|
    ensures var ds := WrittenDigits(value, 10);
      WrittenDigits(Val(ds[..k], 10), 10) == ds[..k]
  {
    hide *;
    if value == 0 {
      OneZero();
      assert [0][..1] == [0];
    } else {
      NonZeroWritten(value);
      DigitsDenote(value, 10);
      var ds := Digits(value, 10);
      PrefixIsMinimal(ds, k);
      DigitsUnique(ds[..k], 10);
      OneZero();
      NonZeroWritten(Val(ds[..k], 10));
    }
  }

  lemma OneZero()
    ensures Digits(0, 10) == [] && WrittenDigits(0, 10) == [0] && Val([0], 10) == 0
  {
    assert [0][..0] == [];
    assert Val([], 10) == 0;
  }

  lemma NonZeroWritten(v: nat)
    requires v > 0
    ensures WrittenDigits(v, 10) == Digits(v, 10)
  {
  }

  lemma PrefixIsMinimal(ds: seq<nat>, k: nat)
    requires AreDigits(ds, 10) && Minimal(ds) && 0 < k <= |ds|
    ensures AreDigits(ds[..k], 10) && Minimal(ds[..k]) && ds[..k] != []
  {
  }

  lemma SplitDigits(ds: seq<nat>, k: nat)
    requires k <= |ds| && AreDigits(ds, 10)
    ensures var one := Pow(10, |ds| - k);
      && one > 0 && Val(ds, 10) / one == Val(ds[..k], 10) && Val(ds, 10) % one == Val(ds[k..], 10)
  {
    hide Val, Pow;
    PowPositive(10, |ds| - k);
    assert ds[..k] + ds[k..] == ds;
    ValConcat(ds[..k], ds[k..], 10);
    ValBound(ds[k..], 10);
    DivModUnique(Val(ds[..k], 10), Val(ds[k..], 10), Pow(10, |ds| - k));
  }

  lemma ValueOfChars(ds: seq<nat>, k: nat)
    requires k <= |ds| && AreDigits(ds, 10)
    ensures Values(Chars(ds, false)[k..]) == ds[k..]
  {
    hide DigitChar, DigitValue;
    var t := Chars(ds, false)[k..];
    forall i | 0 <= i < |t| ensures DigitValue(t[i]) == ds[k + i] {
      DigitReadsBack(ds[k + i], false);
    }
  }

  // ------------------------------------------------------------------ tight destinations

  /** Exactly when an accepted destination that was filled with zeros holds the whole text and its terminator: one
      with the digits behind the point only must be larger than the text, which format_fpu64 does not check. */
  predicate Complete(dstLen: nat, n: nat, decimals: nat) {
    n > decimals || dstLen >= decimals + 3
  }

  lemma CompleteIff(before: string, dstLen: nat, value: nat, decimals: nat)
    requires dstLen <= |before| && (forall i :: 0 <= i < dstLen ==> before[i] == '\0')
    requires Accepts(dstLen, |Decimal(value)|, decimals)
    ensures |WrittenText(dstLen, value, decimals)| <= dstLen
    ensures var mem := Written(before, 0, WrittenText(dstLen, value, decimals))[..dstLen];
      Complete(dstLen, |Decimal(value)|, decimals) <==> '\0' in mem && CString(mem) == Fixed(value, decimals)
  {
    var text, n := Fixed(value, decimals), |Decimal(value)|;
    FixedLength(value, decimals);
    FixedHasNoZero(value, decimals);
    hide Fixed, CString;
    var mem := Written(before, 0, WrittenText(dstLen, value, decimals))[..dstLen];
    if Complete(dstLen, n, decimals) {
      assert |text| < dstLen && mem[|text|] == '\0' && mem[..|text|] == text;
      CStringIs(mem, text);
    } else {
      assert forall i :: 0 <= i < dstLen ==> mem[i] == text[i] && text[i] in text;
    }
  }

  /** With digits before the point, format_fpu64 counts those behind it twice. So it rejects exactly these destinations
      although they have room for the text and its terminator. */
  lemma RejectedIff(dstLen: nat, value: nat, decimals: nat)
    ensures var n := |Decimal(value)|;
      dstLen > |Fixed(value, decimals)| && !Accepts(dstLen, n, decimals) <==>
        n > decimals && n + 2 <= dstLen <= n + 1 + decimals
  {
    FixedLength(value, decimals);
    hide Fixed, Decimal;
  }

  /** Without digits before the point, the destinations that are accepted although they are too small. */
  lemma AcceptedTooSmallIff(dstLen: nat, value: nat, decimals: nat)
    ensures var n := |Decimal(value)|;
      dstLen <= |Fixed(value, decimals)| && Accepts(dstLen, n, decimals) <==>
        n <= decimals && decimals - n + 3 <= dstLen <= decimals + 2
  {
    FixedLength(value, decimals);
    hide Fixed, Decimal;
  }

  /** What is written to an accepted destination, character by character: the text; without digits before the point as
      much of it as there is room for, and zeros behind it up to the size. */
  lemma WrittenChars(dstLen: nat, value: nat, decimals: nat, i: nat)
    requires Accepts(dstLen, |Decimal(value)|, decimals)
    ensures var text, out := Fixed(value, decimals), WrittenText(dstLen, value, decimals);
      && |out| == (if |Decimal(value)| > decimals then |text| else dstLen)
      && (i < |out| ==> out[i] == if i < |text| then text[i] else '\0')
  {
    hide Fixed, Decimal;
  }

  lemma FixedHasNoZero(value: nat, decimals: nat)
    ensures '\0' !in Fixed(value, decimals)
  {
    DecimalNotEmpty(value);
    hide Decimal;
  }

  // ------------------------------------------------------------------ format_fpu64_trimmed

  /** The loop of format_fpu64_trimmed: zeros at the end are dropped, and a point, at which it stops. */
  function Trimmed(s: string): (t: string)
    ensures |t| <= |s|
  {
    if s == "" then ""
    else if s[|s| - 1] == '.' then s[..|s| - 1]
    else if s[|s| - 1] == '0' then Trimmed(s[..|s| - 1])
    else s
  }

  /** The memory as format_fpu64 leaves it, character by character. */
  lemma LeftChars(before: string, dstLen: nat, value: nat, decimals: nat, i: nat)
    requires dstLen <= |before| && Accepts(dstLen, |Decimal(value)|, decimals) && i < |before|
    ensures var text := Fixed(value, decimals);
      var end := if |Decimal(value)| > decimals then |text| else dstLen;
      Left(before, dstLen, value, decimals)[i] ==
        if i >= end then before[i] else if i < |text| then text[i] else '\0'
  {
    WrittenInside(dstLen, value, decimals);
    WrittenChars(dstLen, value, decimals, i);
    WrittenAt(before, 0, WrittenText(dstLen, value, decimals), i);
    hide Fixed, Decimal, WrittenText, Written;
  }

  lemma WrittenInside(dstLen: nat, value: nat, decimals: nat)
    requires Accepts(dstLen, |Decimal(value)|, decimals)
    ensures |WrittenText(dstLen, value, decimals)| <= dstLen
  {
    FixedLength(value, decimals);
  }

  /** The memory as format_fpu64 leaves it. */
  function Left(before: string, dstLen: nat, value: nat, decimals: nat): (mem: string)
    requires dstLen <= |before| && Accepts(dstLen, |Decimal(value)|, decimals)
    ensures |mem| == |before| && mem[dstLen..] == before[dstLen..]
  {
    WrittenInside(dstLen, value, decimals);
    Written(before, 0, WrittenText(dstLen, value, decimals))
  }

  /** The memory after the string at its beginning has been trimmed: one character is replaced by a terminator. */
  function AfterTrimming(mem: string): (now: string)
    requires '\0' in mem
    ensures |now| == |mem| && '\0' in now && CString(now) == Trimmed(CString(mem))
    ensures forall i :: 0 <= i < |mem| ==> now[i] == if i == |Trimmed(CString(mem))| then '\0' else mem[i]
  {
    var k := |Trimmed(CString(mem))|;
    TrimmedIsPrefix(CString(mem));
    CutAt(mem[k := '\0'], CString(mem), k);
    mem[k := '\0']
  }

  lemma {:induction false} TrimmedIsPrefix(s: string)
    ensures |Trimmed(s)| <= |s| && Trimmed(s) == s[..|Trimmed(s)|]
  {
    if s != "" && s[|s| - 1] == '0' {
      TrimmedIsPrefix(s[..|s| - 1]);
    }
  }

  /** In a destination that was filled with zeros, with room for the whole text, the string that is trimmed is the
      text. */
  lemma LeftComplete(before: string, dstLen: nat, value: nat, decimals: nat)
    requires dstLen <= |before| && (forall i :: 0 <= i < dstLen ==> before[i] == '\0')
    requires Accepts(dstLen, |Decimal(value)|, decimals) && Complete(dstLen, |Decimal(value)|, decimals)
    ensures var mem := Left(before, dstLen, value, decimals);
      '\0' in mem && CString(mem) == Fixed(value, decimals) && CString(AfterTrimming(mem)) == Shortest(value, decimals)
  {
    CompleteIff(before, dstLen, value, decimals);
    var mem := Left(before, dstLen, value, decimals);
    LengthInside(mem, mem[..dstLen]);
    assert mem[..dstLen][..Length(mem)] == mem[..Length(mem)];
  }

  /** format_fpu64_trimmed. The source takes the length of what format_fpu64 has left, so it relies on a terminator
      being there, perhaps behind the destination; dst is the memory from the destination on. */
  method FormatFpu64Trimmed(dst: array<char>, dstLen: nat, value: uint64, decimals: byte) returns (ok: bool)
    requires dstLen <= dst.Length
    requires Accepts(dstLen, |Decimal(value)|, decimals) ==> '\0' in Left(dst[..], dstLen, value, decimals)
    modifies dst
    ensures ok <==> Accepts(dstLen, |Decimal(value)|, decimals)
    ensures dst[..] == old(if ok then AfterTrimming(Left(dst[..], dstLen, value, decimals)) else dst[..])
  {
    ghost var before := dst[..];
    hide *;
    ok := FormatFpu64(dst, dstLen, value, decimals);
    if ok {
      LeftIs(before, dstLen, value, decimals);
      TrimInPlace(dst);
    }
  }

  lemma LeftIs(before: string, dstLen: nat, value: nat, decimals: nat)
    requires dstLen <= |before| && Accepts(dstLen, |Decimal(value)|, decimals)
    ensures |WrittenText(dstLen, value, decimals)| <= |before|
    ensures Left(before, dstLen, value, decimals) == Written(before, 0, WrittenText(dstLen, value, decimals))
  {
    WrittenInside(dstLen, value, decimals);
  }

  method TrimInPlace(dst: array<char>)
    requires '\0' in dst[..]
    modifies dst
    ensures dst[..] == AfterTrimming(old(dst[..]))
  {
    ghost var mem := dst[..];
    assert mem == dst[0..];
    NoZeroInside(mem);
    TrimmedIsPrefix(CString(mem));
    var len := StrLen(dst, 0);
    assert mem[..len] == CString(mem);
    hide Length, CString, Trimmed;
    len := TrimmedLength(dst, len, CString(mem));
    dst[len] := '\0';
  }

  /** What remains of a string without the zeros at its end and the point in front of them. */
  method TrimmedLength(dst: array<char>, len0: nat, ghost text: string) returns (len: nat)
    requires len0 <= dst.Length && dst[..len0] == text
    ensures len <= len0 && text[..len] == Trimmed(text)
  {
    hide *;
    len := len0;
    assert text[..len] == text;
    while len > 0 && (dst[len - 1] == '0' || dst[len - 1] == '.')
      invariant 0 <= len <= len0 && Trimmed(text[..len]) == Trimmed(text)
    {
      TrimmedStep(text, len);
      len := len - 1;
      if dst[len] == '.' {
        return;
      }
    }
    TrimmedStep(text, len);
  }

  lemma TrimmedStep(text: string, len: nat)
    requires len <= |text|
    ensures Trimmed(text[..len]) ==
              if len == 0 then ""
              else if text[len - 1] == '.' then text[..len - 1]
              else if text[len - 1] == '0' then Trimmed(text[..len - 1])
              else text[..len]
  {
    if len > 0 {
      assert text[..len][..len - 1] == text[..len - 1];
    }
  }

  lemma LengthInside(all: string, mem: string)
    requires |mem| <= |all| && all[..|mem|] == mem && '\0' in mem
    ensures '\0' in all && Length(all) == Length(mem)
  {
    assert forall i :: 0 <= i < |mem| ==> all[i] == mem[i];
    assert all[Length(mem)] == '\0';
  }

  lemma NoZeroInside(mem: string)
    requires '\0' in mem
    ensures '\0' !in CString(mem) && |CString(mem)| < |mem|
  {
  }

  lemma CutAt(mem: string, text: string, k: nat)
    requires k <= |text| && k < |mem| && mem[..k] == text[..k] && mem[k] == '\0' && '\0' !in text
    ensures '\0' in mem && CString(mem) == text[..k]
  {
    CStringIs(mem, text[..k]);
  }

  // ------------------------------------------------------------------ what trimming leaves

  /** How many digits are left when the zeros at the end are dropped. */
  function Kept(y: string): (k: nat)
    ensures k <= |y| && (k > 0 ==> y[k - 1] != '0') && forall i :: k <= i < |y| ==> y[i] == '0'
  {
    if y == "" then 0 else if y[|y| - 1] != '0' then |y| else Kept(y[..|y| - 1])
  }

  /** Trimming a text with a point drops the zeros at its end and, if nothing is left behind the point, the point;
      what is in front of the point stays as it is. */
  lemma {:induction false} TrimmedForm(x: string, y: string)
    requires Plain(x) && x != "" && Plain(y)
    ensures Trimmed(x + ("." + y)) == if Kept(y) == 0 then x else x + ("." + y[..Kept(y)])
    decreases |y|
  {
    var s := x + ("." + y);
    if y == "" {
      assert s[..|s| - 1] == x;
    } else {
      assert s[|s| - 1] == y[|y| - 1];
      assert s[..|s| - 1] == x + ("." + y[..|y| - 1]);
      if y[|y| - 1] == '0' {
        TrimmedForm(x, y[..|y| - 1]);
        assert y[..|y| - 1][..Kept(y)] == y[..Kept(y)];
      } else {
        assert y[..|y|] == y;
      }
    }
  }

  /** What is printed by format_fpu64_trimmed. */
  function Shortest(value: nat, decimals: nat): string { Trimmed(Fixed(value, decimals)) }

  lemma FractionIsPlain(value: nat, decimals: nat)
    ensures Plain(Fraction(value, decimals))
  {
    DecimalNotEmpty(value);
    hide Decimal;
  }

  /** The trimmed text begins with the whole part, untouched; it ends with the whole part, or with a point and
      digits the last of which is not a zero, and only zeros have been dropped. */
  lemma ShortestForm(value: nat, decimals: nat)
    ensures Pow(10, decimals) > 0 && Whole(value, decimals) == Decimal(value / Pow(10, decimals))
    ensures var t, x, y := Shortest(value, decimals), Whole(value, decimals), Fraction(value, decimals);
      var k := Kept(y);
      && t == (if k == 0 then x else x + ("." + y[..k]))
      && t != "" && t[|t| - 1] != '.' && (Scale(t) > 0 ==> t[|t| - 1] != '0') && Scale(t) == k
  {
    hide *;
    var x, y := Whole(value, decimals), Fraction(value, decimals);
    ShortestIs(value, decimals);
    FixedParts(value, decimals);
    PlainParts(value, decimals);
    FractionIsPlain(value, decimals);
    TrimmedForm(x, y);
    TextWithPoint(x, y[..Kept(y)]);
    LastCharacter(x, y, Kept(y));
  }

  lemma ShortestIs(value: nat, decimals: nat)
    ensures Shortest(value, decimals) == Trimmed(Whole(value, decimals) + ("." + Fraction(value, decimals)))
  {
  }

  lemma LastCharacter(x: string, y: string, k: nat)
    requires Plain(x) && Plain(y) && x != "" && k <= |y|
    ensures var t := if k == 0 then x else x + ("." + y[..k]);
      t != "" && t[|t| - 1] != '.' && (k > 0 ==> t[|t| - 1] == y[k - 1])
  {
  }

  /** The trimmed text denotes the same number, value / 10 to the power of decimals. */
  lemma ShortestDenotes(value: nat, decimals: nat)
    ensures var t := Shortest(value, decimals);
      Scale(t) <= decimals && Mantissa(t) * Pow(10, decimals) == value * Pow(10, Scale(t))
  {
    var x, y := Whole(value, decimals), Fraction(value, decimals);
    hide *;
    ShortestForm(value, decimals);
    PlainParts(value, decimals);
    AllDigits(value, decimals);
    var k := Kept(y);
    TextWithPoint(x, y[..k]);
    assert k == 0 ==> x + y[..k] == x;
    ZerosDropped(x, y, k);
    PowAdd(10, k, decimals - k);
    var m, p, q := Val(Values(x + y[..k]), 10), Pow(10, k), Pow(10, decimals - k);
    assert value == m * q;
    assert m * (p * q) == (m * q) * p;
  }

  /** Zeros at the end multiply the number by a power of ten. */
  lemma ZerosDropped(x: string, y: string, k: nat)
    requires k <= |y| && forall i :: k <= i < |y| ==> y[i] == '0'
    ensures Val(Values(x + y), 10) == Val(Values(x + y[..k]), 10) * Pow(10, |y| - k)
  {
    var front, n := x + y[..k], |y| - k;
    assert Values(x + y) == Values(front) + Zeros(n);
    ValConcat(Values(front), Zeros(n), 10);
    ValZeros(n, [], 10);
    assert Zeros(n) + [] == Zeros(n);
    assert Val([], 10) == 0;
    hide Val, Pow;
  }
}
