/** The base58 codec (lib_standard_app/base58.c): radix conversion in place, in both directions. */
module Base58 {
  import opened CTypes
  import opened Numerals
  import opened Base58Tables
  import opened Base58Sizes

  const MAX_DEC_INPUT_SIZE := 164
  const MAX_ENC_INPUT_SIZE := 120

  // ------------------------------------------------------------------ text

  predicate Readable(s: string) {
    forall i :: 0 <= i < |s| ==> DigitOf(s[i]) != 255
  }

  function FromText(s: string): (ds: seq<nat>)
    requires Readable(s)
    ensures |ds| == |s| && AreDigits(ds, 58)
  {
    seq(|s|, i requires 0 <= i < |s| => DigitOf(s[i]) as nat)
  }

  function ToText(ds: seq<nat>): (s: string)
    requires AreDigits(ds, 58)
    ensures |s| == |ds|
  {
    seq(|ds|, i requires 0 <= i < |ds| => CharOf(ds[i]))
  }

  // ------------------------------------------------------------------ specification

  /** The text of a byte string: one '1' for each leading zero, then the number in base 58. */
  function Encoding(input: seq<byte>): (s: string) {
    DigitsDenote(Val(input, 256), 58);
    ToText(Zeros(LeadingZeros(input)) + Digits(Val(input, 256), 58))
  }

  /** The byte string of a text's digits: one zero for each leading zero, then the number in base 256. */
  function BytesOf(ds: seq<nat>): (bs: seq<byte>) {
    DigitsDenote(Val(ds, 58), 256);
    AsBytes(Zeros(LeadingZeros(ds)) + Digits(Val(ds, 58), 256))
  }

  function Decoding(s: string): (bs: seq<byte>)
    requires Readable(s)
  {
    BytesOf(FromText(s))
  }

  function AsBytes(ds: seq<nat>): (bs: seq<byte>)
    requires AreDigits(ds, 256)
    ensures bs == ds
  {
    ds
  }

  predicate Accepted(s: string) {
    2 <= |s| <= MAX_DEC_INPUT_SIZE && Readable(s)
  }

  /** What the decoder accepts, in characters. */
  lemma AcceptedIff(s: string)
    ensures Accepted(s) <==>
      && 2 <= |s| <= 164
      && forall c :: c in s ==> ('1' <= c <= '9' || 'A' <= c <= 'Z' || 'a' <= c <= 'z') && c !in {'O', 'I', 'l'}
  {
    forall c | c in s ensures DigitOf(c) != 255 <==>
      ('1' <= c <= '9' || 'A' <= c <= 'Z' || 'a' <= c <= 'z') && c !in {'O', 'I', 'l'} { AlphabetIs(c); }
    hide DigitOf;
    assert Readable(s) <==> forall c :: c in s ==> DigitOf(c) != 255;
  }

  // ------------------------------------------------------------------ round trips

  lemma TextRead(ds: seq<nat>)
    requires AreDigits(ds, 58)
    ensures Readable(ToText(ds)) && FromText(ToText(ds)) == ds
  {
    var s := ToText(ds);
    forall i | 0 <= i < |s| ensures DigitOf(s[i]) == ds[i] { ReadWritten(ds[i]); }
  }

  lemma ReadText(s: string)
    requires Readable(s)
    ensures ToText(FromText(s)) == s
  {
    forall i | 0 <= i < |s| ensures CharOf(DigitOf(s[i])) == s[i] { WriteRead(s[i]); }
  }

  /** Decoding an encoding gives the bytes back, leading zeros included. */
  lemma DecodingOfEncoding(input: seq<byte>)
    ensures Readable(Encoding(input)) && Decoding(Encoding(input)) == input
  {
    var z, n := LeadingZeros(input), Val(input, 256);
    DigitsDenote(n, 58);
    TextRead(Zeros(z) + Digits(n, 58));
    LeadingZerosOf(z, Digits(n, 58));
    ValZeros(z, Digits(n, 58), 58);
    LeadingZerosThenDigits(input, 256);
  }

  /** Encoding a decoding gives the text back, leading '1's included. */
  lemma EncodingOfDecoding(s: string)
    requires Readable(s)
    ensures Encoding(Decoding(s)) == s
  {
    var ds := FromText(s);
    var z, n := LeadingZeros(ds), Val(ds, 58);
    DigitsDenote(n, 256);
    LeadingZerosOf(z, Digits(n, 256));
    ValZeros(z, Digits(n, 256), 256);
    LeadingZerosThenDigits(ds, 58);
    ReadText(s);
  }

  /** What an encoding denotes: the number of the input, with as many leading '1's as there are zero bytes. */
  lemma EncodingDenotes(input: seq<byte>)
    ensures var s := Encoding(input);
      && Readable(s) && Val(FromText(s), 58) == Val(input, 256)
      && LeadingZeros(FromText(s)) == LeadingZeros(input)
      && forall i :: 0 <= i < LeadingZeros(input) ==> s[i] == '1'
  {
    var z, n := LeadingZeros(input), Val(input, 256);
    var ds := Digits(n, 58);
    DigitsDenote(n, 58);
    TextRead(Zeros(z) + ds);
    LeadingZerosOf(z, ds);
    ValZeros(z, ds, 58);
    assert CharOf(0) == '1';
  }

  // ------------------------------------------------------------------ lengths

  lemma ValSkipsLeadingZeros(ds: seq<nat>, base: nat)
    ensures Val(ds, base) == Val(ds[LeadingZeros(ds)..], base)
  {
    var z := LeadingZeros(ds);
    assert ds == Zeros(z) + ds[z..];
    ValZeros(z, ds[z..], base);
  }

  /** No input that the encoder takes has an encoding too long for the decoder. */
  lemma EncodingLength(input: seq<byte>)
    requires |input| <= MAX_ENC_INPUT_SIZE
    ensures |Encoding(input)| <= |input| + 44 <= MAX_DEC_INPUT_SIZE
  {
    var z := LeadingZeros(input);
    ValSkipsLeadingZeros(input, 256);
    ValBound(input[z..], 256);
    DecoderRoomSuffices(|input| - z);
    DigitsLength(Val(input, 256), 58, |input| - z + 44);
  }

  /** The decoder's limit is exact: 120 bytes of 255 have an encoding of 164 characters. */
  lemma EncodingLengthIsTight()
    ensures |Encoding(seq(120, _ => 255))| == MAX_DEC_INPUT_SIZE
  {
    var input: seq<byte> := seq(120, _ => 255);
    AllOnes(120);
    DecoderRoomIsTight();
    EncodingLength(input);
    DigitsLength(Val(input, 256), 58, 163);
  }

  /** The encoder's limit is the largest size for which the decoder can take every encoding. */
  lemma LimitsAgree(n: nat)
    ensures (forall input: seq<byte> :: |input| == n ==> |Encoding(input)| <= MAX_DEC_INPUT_SIZE)
        <==> n <= MAX_ENC_INPUT_SIZE
  {
    if n <= MAX_ENC_INPUT_SIZE {
      forall input: seq<byte> | |input| == n ensures |Encoding(input)| <= MAX_DEC_INPUT_SIZE { EncodingLength(input); }
    } else {
      var input: seq<byte> := seq(n, _ => 255);
      TooLong(n);
      assert |input| == n && |Encoding(input)| > MAX_DEC_INPUT_SIZE;
    }
  }

  lemma TooLong(n: nat)
    requires n > 120
    ensures |Encoding(seq(n, _ => 255))| > 164
  {
    AllOnes(n);
    DecoderRoomEnds(n);
    DigitsLength(Val(seq(n, _ => 255), 256), 58, 164);
  }

  lemma {:induction false} AllOnes(n: nat)
    ensures Val(seq(n, _ => 255), 256) == Pow(256, n) - 1
  {
    if n > 0 {
      assert seq(n, _ => 255)[..n - 1] == seq(n - 1, _ => 255);
      AllOnes(n - 1);
    }
  }

  /** An encoding is at least two characters long, as the decoder demands, unless the input is
      empty or a single byte below 58. */
  lemma EncodingAccepted(input: seq<byte>)
    requires |input| <= MAX_ENC_INPUT_SIZE
    ensures Accepted(Encoding(input)) <==> !(input == [] || (|input| == 1 && input[0] < 58))
  {
    DecodingOfEncoding(input);
    EncodingLength(input);
    var z, n := LeadingZeros(input), Val(input, 256);
    DigitsLength(n, 58, 0);
    DigitsLength(n, 58, 1);
    ValSkipsLeadingZeros(input, 256);
    assert |Encoding(input)| == z + |Digits(n, 58)|;
    if z == |input| {
      assert Val([], 256) == 0;
    } else {
      LeadingDigitBound(input[z..], 256);
      if |input| == 1 { SingleDigit(input, 256); }
    }
  }

  lemma SingleDigit(ds: seq<nat>, base: nat)
    requires |ds| == 1
    ensures Val(ds, base) == ds[0]
  {
    assert ds[..0] == [];
  }

  /** A number of at least k digits is at least base to the k - 1. */
  lemma LeadingDigitBound(ds: seq<nat>, base: nat)
    requires base >= 2 && ds != [] && ds[0] != 0
    ensures Val(ds, base) >= Pow(base, |ds| - 1) >= 1
    ensures |ds| >= 2 ==> Val(ds, base) >= base
  {
    assert ds == [ds[0]] + ds[1..];
    ValCons(ds[0], ds[1..], base);
    MulMono(ds[0], 1, Pow(base, |ds| - 1));
    PowPositive(base, |ds| - 1);
    if |ds| >= 2 { PowMono(base, 1, |ds| - 1); }
  }

  /** The round trip through the decoder's checks: exactly the inputs that are neither empty nor
      a single byte below 58 come back. */
  lemma RoundTrip(input: seq<byte>)
    requires |input| <= MAX_ENC_INPUT_SIZE
    ensures (Accepted(Encoding(input)) && Decoding(Encoding(input)) == input)
        <==> !(input == [] || (|input| == 1 && input[0] < 58))
  {
    EncodingAccepted(input);
    DecodingOfEncoding(input);
  }

  // ------------------------------------------------------------------ encoding

  /** The carry that leaves the leading digit when 256 * s + c is formed over all digits of s. */
  function CarryOut(s: seq<nat>, c: nat): nat {
    if s == [] then c else CarryOut(s[..|s| - 1], (c + 256 * s[|s| - 1]) / 58)
  }

  /** The digits of 256 * s + c, over all digits of s and without the carry that leaves them. */
  function MulAdd(s: seq<nat>, c: nat): (r: seq<nat>)
    ensures |r| == |s| && AreDigits(r, 58)
  {
    if s == [] then []
    else
      var t := c + 256 * s[|s| - 1];
      MulAdd(s[..|s| - 1], t / 58) + [t % 58]
  }

  /** The digits and the carry together are 256 times the number plus c. */
  lemma {:induction false} MulAddValue(s: seq<nat>, c: nat)
    ensures CarryOut(s, c) * Pow(58, |s|) + Val(MulAdd(s, c), 58) == 256 * Val(s, 58) + c
  {
    if s == [] {
    } else {
      var init, t := s[..|s| - 1], c + 256 * s[|s| - 1];
      MulAddValue(init, t / 58);
      var m := MulAdd(init, t / 58);
      assert (m + [t % 58])[..|m|] == m;
      Horner(CarryOut(init, t / 58), Pow(58, |init|), Val(m, 58), 58);
    }
  }

  /** Working on the right part first and then, with its carry, on the left part. */
  lemma {:induction false} MulAddSplit(s: seq<nat>, t: seq<nat>, c: nat)
    ensures MulAdd(s + t, c) == MulAdd(s, CarryOut(t, c)) + MulAdd(t, c)
    ensures CarryOut(s + t, c) == CarryOut(s, CarryOut(t, c))
    decreases |t|
  {
    if t == [] {
      assert s + t == s;
    } else {
      var t' := t[..|t| - 1];
      assert (s + t)[..|s + t| - 1] == s + t';
      MulAddSplit(s, t', (c + 256 * t[|t| - 1]) / 58);
    }
  }

  lemma {:induction false} MulAddZeros(s: seq<nat>)
    requires forall i :: 0 <= i < |s| ==> s[i] == 0
    ensures MulAdd(s, 0) == s && CarryOut(s, 0) == 0
  {
    if s != [] { MulAddZeros(s[..|s| - 1]); }
  }

  /** The carry that reaches position j - 1 from the right. */
  function CarryAt(s: seq<nat>, b: nat, j: nat): nat
    requires j <= |s|
  {
    CarryOut(s[j..], b)
  }

  lemma OneDigit(d: nat, c: nat)
    ensures CarryOut([d], c) == (c + 256 * d) / 58 && MulAdd([d], c) == [(c + 256 * d) % 58]
  {
    assert [d][..0] == [];
  }

  /** One digit of the product: the carry stays a byte. */
  lemma CarryStep(s: seq<nat>, j: nat, b: byte, t: nat)
    requires AreDigits(s, 58) && j < |s| && CarryAt(s, b, j + 1) <= 255
    requires t == CarryAt(s, b, j + 1) + 256 * s[j]
    ensures CarryAt(s, b, j) == t / 58 <= 255 && MulAdd(s, b)[j] == t % 58 < 58
  {
    assert s[j] < 58 && CarryAt(s, b, j) == CarryOut(s[j..], b) && CarryAt(s, b, j + 1) == CarryOut(s[j + 1..], b);
    hide *;
    assert s[j..] == [s[j]] + s[j + 1..];
    OneDigit(s[j], CarryOut(s[j + 1..], b));
    MulAddSplit([s[j]], s[j + 1..], b);
    assert s == s[..j] + s[j..];
    MulAddSplit(s[..j], s[j..], b);
    assert MulAdd(s[j..], b)[0] == t % 58;
  }

  /** Without a carry, the digits left of j stay the zeros they are. */
  lemma CarryDone(s: seq<nat>, j: nat, b: byte)
    requires j <= |s| && CarryAt(s, b, j) == 0
    requires forall i :: 0 <= i < j ==> s[i] == 0
    ensures forall i :: 0 <= i < j ==> MulAdd(s, b)[i] == 0
  {
    assert s == s[..j] + s[j..];
    MulAddSplit(s[..j], s[j..], b);
    MulAddZeros(s[..j]);
  }

  /** If the product does not reach left of position p, no carry passes p. */
  lemma NoCarryBeyond(s: seq<nat>, p: nat, b: nat)
    requires p < |s| && 256 * Val(s, 58) + b < Pow(58, |s| - p)
    requires forall i :: 0 <= i < p ==> s[i] == 0
    ensures CarryAt(s, b, p) == 0
  {
    assert s == Zeros(p) + s[p..];
    ValZeros(p, s[p..], 58);
    MulAddValue(s[p..], b);
    var c := CarryOut(s[p..], b);
    if c >= 1 { MulMono(c, 1, Pow(58, |s| - p)); }
  }

  /** The product's value, if it fits. */
  lemma ProductValue(s: seq<nat>, b: nat)
    requires 256 * Val(s, 58) + b < Pow(58, |s|)
    ensures Val(MulAdd(s, b), 58) == 256 * Val(s, 58) + b
  {
    MulAddValue(s, b);
    var c := CarryOut(s, b);
    if c >= 1 { MulMono(c, 1, Pow(58, |s|)); }
  }

  /** The encoder's inner loop. It leaves as soon as the carry is zero and j is left of stopAt, where
      all digits are still zero; yet it forms the product over all digits. The ghost p is a position
      left of stopAt that the product does not reach: the loop leaves there at the latest. */
  method CarryPass(buffer: array<byte>, size: nat, stopAt: uint32, b: byte, ghost p: nat)
    returns (j: uint32)
    requires size <= buffer.Length < 0x8000_0000
    requires p < stopAt < size
    requires AreDigits(buffer[..size], 58)
    requires forall i :: 0 <= i < stopAt ==> buffer[i] == 0
    requires 256 * Val(buffer[..size], 58) + b < Pow(58, size - p)
    modifies buffer
    ensures buffer[..size] == MulAdd(old(buffer[..size]), b)
    ensures p <= j < stopAt
    ensures forall i :: 0 <= i < j ==> buffer[i] == 0
  {
    ghost var was: seq<nat> := buffer[..size];
    ghost var product := MulAdd(was, b);
    hide MulAdd, CarryOut, Val, Pow;
    NoCarryBeyond(was, p, b);
    var carry: nat := b;
    j := size - 1;
    while AsInt(j) >= 0
      invariant p <= j < size
      invariant carry == CarryAt(was, b, j + 1) && carry <= 255
      invariant forall i :: 0 <= i <= j ==> buffer[i] == was[i]
      invariant forall i :: j < i < size ==> buffer[i] == product[i]
    {
      carry := CarryDigit(buffer, j, carry, was, b);
      if j <= Pred(stopAt) && carry == 0 {
        break;
      }
      j := Pred(j);
    }
    CarryDone(was, j, b);
    assert buffer[..size] == product;
  }

  /** One digit of the product. */
  method CarryDigit(buffer: array<byte>, j: nat, carry0: nat, ghost was: seq<nat>, ghost b: byte)
    returns (carry: nat)
    requires j < buffer.Length && j < |was| && AreDigits(was, 58) && buffer[j] == was[j]
    requires carry0 == CarryAt(was, b, j + 1) <= 255
    modifies buffer
    ensures carry == CarryAt(was, b, j) <= 255 && buffer[j] == MulAdd(was, b)[j]
    ensures forall i :: 0 <= i < buffer.Length && i != j ==> buffer[i] == old(buffer[i])
  {
    hide *;
    var digit: nat := buffer[j];
    carry := carry0 + 256 * digit;
    CarryStep(was, j, b, carry);
    buffer[j] := carry % 58;
    carry := carry / 58;
  }

  /** One more byte of the input, behind its z leading zeros. */
  lemma NextByte(input: seq<byte>, z: nat, n: nat)
    requires z <= n < |input| && forall i :: 0 <= i < z ==> input[i] == 0
    ensures Val(input[..n + 1], 256) == 256 * Val(input[..n], 256) + input[n]
    ensures Val(input[..n + 1], 256) < Pow(256, n + 1 - z)
  {
    assert input[..n + 1][..n] == input[..n];
    var ds: seq<nat> := input[z..n + 1];
    assert input[..n + 1] == Zeros(z) + ds;
    ValZeros(z, ds, 256);
    ValBound(ds, 256);
  }

  /** ... and the pass that takes it into the digits: the product has room, with its exact value. */
  lemma NextPassFits(input: seq<byte>, z: nat, n: nat, ds: seq<nat>)
    requires z <= n < |input| && forall i :: 0 <= i < z ==> input[i] == 0
    requires |ds| >= Room(n + 1 - z) && Val(ds, 58) == Val(input[..n], 256)
    ensures 256 * Val(ds, 58) + input[n] < Pow(58, Room(n + 1 - z))
    ensures Val(MulAdd(ds, input[n]), 58) == Val(input[..n + 1], 256)
  {
    hide Val, Pow, MulAdd, Room;
    var room, v := Room(n + 1 - z), Val(input[..n + 1], 256);
    NextByte(input, z, n);
    assert v == 256 * Val(ds, 58) + input[n];
    assert v < Pow(58, room) by { RoomSuffices(n + 1 - z); }
    PowMono(58, room, |ds|);
    ProductValue(ds, input[n]);
  }

  lemma RoomToStart(n: nat)
    ensures Room(0) == 1 <= Room(n) && Room(n) - 1 >= n
  {
  }

  lemma RoomForNext(k: nat, n: nat)
    requires k < n
    ensures Room(k) < Room(k + 1) <= Room(n)
    ensures Room(n) - Room(k) >= n - k
  {
  }

  /** The encoder's outer loop: one pass for each byte behind the leading zeros. Before every pass stopAt
      is at least 1, so that stopAt - 1 does not wrap. */
  method ToBase58(input: seq<byte>, zeroCount: nat, buffer: array<byte>, size: nat)
    requires zeroCount <= |input| && forall i :: 0 <= i < zeroCount ==> input[i] == 0
    requires size == Room(|input| - zeroCount) <= buffer.Length < 0x8000_0000
    requires forall i :: 0 <= i < buffer.Length ==> buffer[i] == 0
    modifies buffer
    ensures AreDigits(buffer[..size], 58) && Val(buffer[..size], 58) == Val(input, 256)
  {
    var stopAt: uint32 := size - 1;
    var startAt := zeroCount;
    AllZero(buffer[..size], 58);
    AllZero(input[..zeroCount], 256);
    RoomToStart(|input| - zeroCount);
    hide *;
    while startAt < |input|
      invariant zeroCount <= startAt <= |input|
      invariant size - Room(startAt - zeroCount) <= stopAt < size - (startAt - zeroCount)
      invariant AreDigits(buffer[..size], 58)
      invariant forall i :: 0 <= i < stopAt ==> buffer[i] == 0
      invariant Val(buffer[..size], 58) == Val(input[..startAt], 256)
    {
      stopAt := TakeByte(input, zeroCount, startAt, buffer, size, stopAt);
      startAt := startAt + 1;
    }
    assert input[..startAt] == input;
  }

  /** The pass for one byte, and where the next one is to stop. */
  method TakeByte(input: seq<byte>, zeroCount: nat, startAt: nat, buffer: array<byte>, size: nat, stopAt0: uint32)
    returns (stopAt: uint32)
    requires zeroCount <= startAt < |input| && forall i :: 0 <= i < zeroCount ==> input[i] == 0
    requires size == Room(|input| - zeroCount) <= buffer.Length < 0x8000_0000
    requires size - Room(startAt - zeroCount) <= stopAt0 < size - (startAt - zeroCount)
    requires AreDigits(buffer[..size], 58) && Val(buffer[..size], 58) == Val(input[..startAt], 256)
    requires forall i :: 0 <= i < stopAt0 ==> buffer[i] == 0
    modifies buffer
    ensures size - Room(startAt + 1 - zeroCount) <= stopAt < size - (startAt + 1 - zeroCount)
    ensures AreDigits(buffer[..size], 58) && Val(buffer[..size], 58) == Val(input[..startAt + 1], 256)
    ensures forall i :: 0 <= i < stopAt ==> buffer[i] == 0
  {
    hide *;
    RoomForNext(startAt - zeroCount, |input| - zeroCount);
    NextPassFits(input, zeroCount, startAt, buffer[..size]);
    stopAt := CarryPass(buffer, size, stopAt0, input[startAt], size - Room(startAt + 1 - zeroCount));
  }

  lemma AllZero(ds: seq<nat>, base: nat)
    requires forall i :: 0 <= i < |ds| ==> ds[i] == 0
    ensures Val(ds, base) == 0
  {
    assert ds == Zeros(|ds|) + [];
    ValZeros(|ds|, [], base);
  }

  /** base58_encode. A result of -1 leaves the output alone. */
  method Encode(input: seq<byte>, out: array<char>, outLen: nat) returns (r: int)
    requires outLen <= out.Length
    modifies out
    ensures r == -1 <==> |input| > MAX_ENC_INPUT_SIZE || outLen < |Encoding(input)|
    ensures r == -1 ==> out[..] == old(out[..])
    ensures r != -1 ==> r == |Encoding(input)| && out[..] == Encoding(input) + old(out[r..])
  {
    var buffer := new byte[MAX_ENC_INPUT_SIZE * 138 / 100 + 1](_ => 0);
    if |input| > MAX_ENC_INPUT_SIZE {
      return -1;
    }
    var zeroCount := 0;
    while zeroCount < |input| && input[zeroCount] == 0
      invariant zeroCount <= |input|
      invariant forall i :: 0 <= i < zeroCount ==> input[i] == 0
    {
      zeroCount := zeroCount + 1;
    }
    var outputSize := (|input| - zeroCount) * 138 / 100 + 1;
    ToBase58(input, zeroCount, buffer, outputSize);
    r := EmitText(input, zeroCount, buffer, outputSize, out, outLen);
  }

  /** The first position from `start` on that does not hold zero. */
  method SkipZeros(a: array<byte>, start: nat, end: nat) returns (j: nat)
    requires start <= end <= a.Length
    ensures start <= j <= end && (j < end ==> a[j] != 0)
    ensures forall k :: start <= k < j ==> a[k] == 0
  {
    j := start;
    while j < end && a[j] == 0
      invariant start <= j <= end
      invariant forall k :: start <= k < j ==> a[k] == 0
    {
      j := j + 1;
    }
  }

  /** The end of base58_encode: the digits behind their leading zeros, written as text. */
  method EmitText(input: seq<byte>, zeroCount: nat, buffer: array<byte>, size: nat, out: array<char>, outLen: nat)
    returns (r: int)
    requires outLen <= out.Length && size <= buffer.Length
    requires zeroCount == LeadingZeros(input)
    requires AreDigits(buffer[..size], 58) && Val(buffer[..size], 58) == Val(input, 256)
    modifies out
    ensures r == -1 <==> outLen < |Encoding(input)|
    ensures r == -1 ==> out[..] == old(out[..])
    ensures r != -1 ==> r == |Encoding(input)| && out[..] == Encoding(input) + old(out[r..])
  {
    hide LeadingZeros, Val, Encoding, CharOf;
    ghost var digits: seq<nat> := buffer[..size];
    var j := SkipZeros(buffer, 0, size);
    ghost var text, first := Encoding(input), j;
    EncodingChars(input, digits, first);
    if outLen < zeroCount + size - j {
      return -1;
    }
    var i := 0;
    while i < zeroCount
      invariant i <= zeroCount && forall k :: 0 <= k < i ==> out[k] == text[k]
      invariant out[i..] == old(out[i..])
    {
      out[i] := CharOf(0);
      i := i + 1;
    }
    while j < size
      invariant first <= j <= size && i == zeroCount + j - first
      invariant forall k :: 0 <= k < i ==> out[k] == text[k]
      invariant out[i..] == old(out[i..])
    {
      assert buffer[j] == digits[zeroCount + j - first - zeroCount + first];
      out[i] := CharOf(buffer[j]);
      i := i + 1;
      j := j + 1;
    }
    r := i;
    assert out[..r] == text;
  }

  /** The characters of an encoding, read off the encoder's digits. */
  lemma EncodingChars(input: seq<byte>, digits: seq<nat>, first: nat)
    requires AreDigits(digits, 58) && Val(digits, 58) == Val(input, 256)
    requires first <= |digits| && forall i :: 0 <= i < first ==> digits[i] == 0
    requires first < |digits| ==> digits[first] != 0
    ensures var z := LeadingZeros(input);
      && |Encoding(input)| == z + |digits| - first
      && (forall k :: 0 <= k < z ==> Encoding(input)[k] == CharOf(0))
      && (forall k :: z <= k < |Encoding(input)| ==> Encoding(input)[k] == CharOf(digits[k - z + first]))
  {
    hide LeadingZeros, Val, Digits, CharOf;
    LeadingZerosThenDigits(digits, 58);
    LeadingZerosAre(digits, first);
    assert digits[first..] == Digits(Val(input, 256), 58);
  }

  // ------------------------------------------------------------------ decoding

  /** The remainder of a base-58 number modulo 256, by long division from the leading digit on. */
  function Rem(s: seq<nat>): (r: nat)
    ensures r < 256
  {
    if s == [] then 0 else (Rem(s[..|s| - 1]) * 58 + s[|s| - 1]) % 256
  }

  /** The digits of the quotient. */
  function Quot(s: seq<nat>): (q: seq<nat>)
    ensures |q| == |s|
  {
    if s == [] then [] else Quot(s[..|s| - 1]) + [(Rem(s[..|s| - 1]) * 58 + s[|s| - 1]) / 256]
  }

  /** Long division divides, its quotient consists of digits again, and it always clears the leading one. */
  lemma {:induction false} LongDivision(s: seq<nat>)
    requires AreDigits(s, 58)
    ensures Val(Quot(s), 58) * 256 + Rem(s) == Val(s, 58)
    ensures AreDigits(Quot(s), 58)
    ensures s != [] ==> Quot(s)[0] == 0
  {
    if s == [] {
    } else {
      var init := s[..|s| - 1];
      LongDivision(init);
      var q, t := Quot(init), Rem(init) * 58 + s[|s| - 1];
      assert (q + [t / 256])[..|q|] == q;
      assert t / 256 < 58;
    }
  }

  lemma {:induction false} QuotAt(s: seq<nat>, k: nat)
    requires k < |s|
    ensures Quot(s)[k] == (Rem(s[..k]) * 58 + s[k]) / 256
    ensures Rem(s[..k + 1]) == (Rem(s[..k]) * 58 + s[k]) % 256
  {
    assert s[..k + 1][..k] == s[..k];
    if k < |s| - 1 {
      QuotAt(s[..|s| - 1], k);
      assert s[..|s| - 1][..k] == s[..k];
    }
  }

  /** The decoder's inner loop: one long division in place. */
  method DivPass(tmp: array<byte>, startAt: nat, inLen: nat) returns (remainder: byte)
    requires startAt < inLen <= tmp.Length && AreDigits(tmp[startAt..inLen], 58)
    modifies tmp
    ensures tmp[startAt..inLen] == Quot(old(tmp[startAt..inLen]))
    ensures remainder == Rem(old(tmp[startAt..inLen]))
  {
    ghost var was: seq<nat> := tmp[startAt..inLen];
    ghost var quotient := Quot(was);
    assert Rem(was[..0]) == 0;
    hide *;
    var rem: nat, d := 0, startAt;
    while d < inLen
      invariant startAt <= d <= inLen
      invariant rem == Rem(was[..d - startAt])
      invariant forall k :: d <= k < inLen ==> tmp[k] == was[k - startAt]
      invariant forall k :: startAt <= k < d ==> tmp[k] == quotient[k - startAt]
    {
      rem := DivDigit(tmp, d, rem, was, d - startAt);
      d := d + 1;
    }
    assert was[..inLen - startAt] == was;
    remainder := rem;
  }

  /** One digit of the quotient. */
  method DivDigit(tmp: array<byte>, d: nat, rem0: nat, ghost was: seq<nat>, ghost k: nat) returns (rem: nat)
    requires d < tmp.Length && k < |was| && AreDigits(was, 58) && tmp[d] == was[k] && rem0 == Rem(was[..k])
    modifies tmp
    ensures rem == Rem(was[..k + 1]) && tmp[d] == Quot(was)[k]
    ensures forall i :: 0 <= i < tmp.Length && i != d ==> tmp[i] == old(tmp[i])
  {
    hide *;
    QuotAt(was, k);
    DigitsOfDivision(was, k);
    var digit: nat := tmp[d];
    var dividend := rem0 * 58 + digit;
    tmp[d] := dividend / 256;
    rem := dividend % 256;
  }

  lemma DigitsOfDivision(s: seq<nat>, k: nat)
    requires AreDigits(s, 58) && k < |s|
    ensures s[k] < 58 && Quot(s)[k] < 58
  {
    LongDivision(s);
    hide Val, Quot;
  }

  lemma QuotientPlace(v: nat, q: nat, r: nat, p: nat, b: nat)
    requires v == q * 256 + r
    ensures v * p + b == q * (256 * p) + (r * p + b)
  {
    assert (q * 256 + r) * p == (q * 256) * p + r * p;
  }

  /** One division moves one base-256 digit from the number in tmp to the front of the buffer. */
  lemma DigitMoved(s: seq<nat>, bytes: seq<nat>)
    requires AreDigits(s, 58) && s != []
    ensures Val(s, 58) * Pow(256, |bytes|) + Val(bytes, 256)
         == Val(Quot(s)[1..], 58) * Pow(256, |bytes| + 1) + Val([Rem(s)] + bytes, 256)
  {
    LongDivision(s);
    var q, n, p := Quot(s), |bytes|, Pow(256, |bytes|);
    assert q == Zeros(1) + q[1..];
    ValZeros(1, q[1..], 58);
    ValCons(Rem(s), bytes, 256);
    assert Pow(256, n + 1) == 256 * p;
    QuotientPlace(Val(s, 58), Val(q[1..], 58), Rem(s), p, Val(bytes, 256));
  }

  /** The decoder's outer loop. Each pass clears exactly the leading digit, so j stays at or above zeroCount. */
  method ToBase256(tmp: array<byte>, zeroCount: nat, inLen: nat, buffer: array<byte>) returns (j: nat)
    requires zeroCount <= inLen <= tmp.Length && inLen <= buffer.Length && tmp != buffer
    requires AreDigits(tmp[zeroCount..inLen], 58)
    requires forall i :: 0 <= i < buffer.Length ==> buffer[i] == 0
    modifies tmp, buffer
    ensures j == zeroCount
    ensures Val(buffer[j..inLen], 256) == Val(old(tmp[zeroCount..inLen]), 58)
    ensures forall i :: 0 <= i < j ==> buffer[i] == 0
  {
    hide Val, Pow, Quot, Rem;
    j := inLen;
    var startAt := zeroCount;
    ghost var v := Val(tmp[zeroCount..inLen], 58);
    BeforeAnyDivision(tmp[zeroCount..inLen], buffer[inLen..inLen]);
    while startAt < inLen
      invariant startAt <= inLen && zeroCount <= j <= inLen && startAt - zeroCount == inLen - j
      invariant AreDigits(tmp[startAt..inLen], 58)
      invariant forall i :: 0 <= i < j ==> buffer[i] == 0
      invariant Val(tmp[startAt..inLen], 58) * Pow(256, inLen - j) + Val(buffer[j..inLen], 256) == v
      decreases inLen - startAt
    {
      ghost var s, bytes := tmp[startAt..inLen], buffer[j..inLen];
      LongDivision(s);
      DigitMoved(s, bytes);
      var remainder := DivPass(tmp, startAt, inLen);
      assert tmp[startAt] == tmp[startAt..inLen][0] == 0;
      if tmp[startAt] == 0 {
        assert tmp[startAt..inLen][1..] == tmp[startAt + 1..inLen];
        startAt := startAt + 1;
      }
      j := j - 1;
      buffer[j] := remainder;
      assert buffer[j..inLen] == [remainder] + bytes;
    }
    AfterAllDivisions(tmp[startAt..inLen], buffer[j..inLen]);
  }

  lemma BeforeAnyDivision(s: seq<nat>, bytes: seq<nat>)
    requires bytes == []
    ensures Val(s, 58) * Pow(256, 0) + Val(bytes, 256) == Val(s, 58)
  {
  }

  lemma AfterAllDivisions(s: seq<nat>, bytes: seq<nat>)
    requires s == []
    ensures Val(s, 58) * Pow(256, |bytes|) + Val(bytes, 256) == Val(bytes, 256)
  {
    assert Val(s, 58) == 0;
  }

  /** base58_decode. A result of -1 leaves the output alone. */
  method Decode(input: string, out: array<byte>, outLen: uint32) returns (r: int)
    requires outLen <= out.Length
    modifies out
    ensures r == -1 <==> !Accepted(input) || outLen < |Decoding(input)| || outLen >= 0x8000_0000
    ensures r == -1 ==> out[..] == old(out[..])
    ensures r != -1 ==> r == |Decoding(input)| && out[..] == Decoding(input) + old(out[r..])
  {
    var tmp := new byte[MAX_DEC_INPUT_SIZE](_ => 0);
    var inLen := |input|;
    if inLen > MAX_DEC_INPUT_SIZE || inLen < 2 {
      return -1;
    }
    var readable := ReadDigits(input, tmp);
    if !readable {
      return -1;
    }
    r := DecodeDigits(tmp, inLen, out, outLen);
  }

  /** The table lookups of base58_decode, which stop at the first character outside the alphabet. */
  method ReadDigits(input: string, tmp: array<byte>) returns (readable: bool)
    requires |input| <= tmp.Length
    modifies tmp
    ensures readable == Readable(input)
    ensures readable ==> tmp[..|input|] == FromText(input)
  {
    var i := 0;
    while i < |input|
      invariant i <= |input|
      invariant forall k :: 0 <= k < i ==> tmp[k] == DigitOf(input[k]) != 255
    {
      if input[i] as int >= 128 {
        return false;
      }
      tmp[i] := DigitOf(input[i]);
      if tmp[i] == 0xFF {
        return false;
      }
      i := i + 1;
    }
    readable := true;
  }

  method CopyBytes(from: array<byte>, start: nat, end: nat, out: array<byte>)
    requires start <= end <= from.Length && end - start <= out.Length && from != out
    modifies out
    ensures out[..] == from[..end][start..] + old(out[end - start..])
  {
    forall k | 0 <= k < end - start { out[k] := from[start + k]; }
  }

  /** The conversion of base58_decode: the digits in tmp, as bytes in the output. */
  method DecodeDigits(tmp: array<byte>, inLen: nat, out: array<byte>, outLen: uint32) returns (r: int)
    requires inLen <= tmp.Length && inLen <= MAX_DEC_INPUT_SIZE && outLen <= out.Length && tmp != out
    requires AreDigits(tmp[..inLen], 58)
    modifies tmp, out
    ensures var bytes := old(BytesOf(tmp[..inLen]));
      && (r == -1 <==> outLen < |bytes| || outLen >= 0x8000_0000)
      && (r == -1 ==> out[..] == old(out[..]))
      && (r != -1 ==> r == |bytes| && out[..] == bytes + old(out[r..]))
  {
    hide LeadingZeros, Val, Digits, BytesOf;
    var buffer := new byte[MAX_DEC_INPUT_SIZE](_ => 0);
    ghost var ds: seq<nat> := tmp[..inLen];
    var zeroCount := SkipZeros(tmp, 0, inLen);
    LeadingZerosAre(ds, zeroCount);
    ValSkipsLeadingZeros(ds, 58);
    assert tmp[zeroCount..inLen] == ds[zeroCount..];
    var j := ToBase256(tmp, zeroCount, inLen, buffer);
    j := SkipZeros(buffer, j, inLen);
    DecodedBytes(ds, buffer[..inLen], zeroCount, j) by {
      assert buffer[..inLen][zeroCount..] == buffer[zeroCount..inLen];
    }
    var length := inLen - (j - zeroCount);
    if AsInt(outLen) < length {
      return -1;
    }
    CopyBytes(buffer, j - zeroCount, inLen, out);
    r := length;
  }

  /** The bytes of a decoding, read off the decoder's buffer. */
  lemma DecodedBytes(ds: seq<nat>, bytes: seq<byte>, z: nat, j: nat)
    requires z == LeadingZeros(ds) <= j <= |bytes|
    requires forall i :: 0 <= i < j ==> bytes[i] == 0
    requires j < |bytes| ==> bytes[j] != 0
    requires Val(bytes[z..], 256) == Val(ds, 58)
    ensures bytes[j - z..] == BytesOf(ds)
  {
    hide LeadingZeros, Val, Digits;
    var tail: seq<nat> := bytes[z..];
    LeadingZerosAre(tail, j - z);
    LeadingZerosThenDigits(tail, 256);
    assert tail[j - z..] == bytes[j..];
    assert bytes[j - z..j] == Zeros(z);
    assert bytes[j - z..] == bytes[j - z..j] + bytes[j..];
  }
}
