/** Positional notation, most significant digit first, in any base of at least two.
    The base conversions of the library (base 58, 256, 10, 16) are all specified with it. */
module Numerals {

  /** The number that a sequence of digits denotes. */
  function Val(ds: seq<nat>, base: nat): nat {
    if ds == [] then 0 else Val(ds[..|ds| - 1], base) * base + ds[|ds| - 1]
  }

  /** The shortest sequence of digits for n; zero has no digits at all. */
  function Digits(n: nat, base: nat): seq<nat>
    requires base >= 2
    decreases n
  {
    if n == 0 then []
    else
      DivShrinks(n, base);
      Digits(n / base, base) + [n % base]
  }

  function Pow(base: nat, e: nat): nat {
    if e == 0 then 1 else base * Pow(base, e - 1)
  }

  ghost predicate AreDigits(ds: seq<nat>, base: nat) {
    forall i :: 0 <= i < |ds| ==> ds[i] < base
  }

  /** No superfluous leading zero. */
  predicate Minimal(ds: seq<nat>) {
    ds == [] || ds[0] != 0
  }

  /** How many leading zeros a sequence has. */
  function LeadingZeros(ds: seq<nat>): (z: nat)
    ensures z <= |ds|
    ensures forall i :: 0 <= i < z ==> ds[i] == 0
    ensures z < |ds| ==> ds[z] != 0
  {
    if ds != [] && ds[0] == 0 then 1 + LeadingZeros(ds[1..]) else 0
  }

  function Zeros(n: nat): (zs: seq<nat>)
    ensures |zs| == n
    ensures forall i :: 0 <= i < n ==> zs[i] == 0
  {
    seq(n, _ => 0)
  }

  lemma DivShrinks(n: nat, base: nat)
    requires n > 0 && base >= 2
    ensures 0 <= n / base < n
  {
    var q := n / base;
    assert n == q * base + n % base;
    MulMono(base, 2, q);
  }

  lemma MulMono(x: nat, y: nat, z: nat)
    requires x >= y
    ensures z * x >= z * y
    ensures x * z >= y * z
  {
    assert z * (x - y) >= 0;
    assert z * x == z * y + z * (x - y);
  }

  lemma PowPositive(base: nat, e: nat)
    requires base > 0
    ensures Pow(base, e) > 0
  {
    if e > 0 { PowPositive(base, e - 1); MulMono(base, 1, Pow(base, e - 1)); }
  }

  lemma {:induction false} PowAdd(base: nat, a: nat, b: nat)
    ensures Pow(base, a + b) == Pow(base, a) * Pow(base, b)
  {
    if a == 0 {
    } else {
      PowAdd(base, a - 1, b);
      var p, q := Pow(base, a - 1), Pow(base, b);
      assert base * (p * q) == (base * p) * q;
    }
  }

  lemma PowMono(base: nat, a: nat, b: nat)
    requires base >= 1 && a <= b
    ensures Pow(base, a) <= Pow(base, b)
  {
    PowAdd(base, b - a, a);
    PowPositive(base, b - a);
    MulMono(Pow(base, b - a), 1, Pow(base, a));
  }

  lemma Horner(v: int, p: int, w: int, base: int)
    ensures (v * p + w) * base == v * (base * p) + w * base
  {
    assert (v * p) * base == v * (base * p);
  }

  /** The value of a concatenation. */
  lemma {:induction false} ValConcat(s: seq<nat>, t: seq<nat>, base: nat)
    ensures Val(s + t, base) == Val(s, base) * Pow(base, |t|) + Val(t, base)
    decreases |t|
  {
    if t == [] {
      assert s + t == s;
    } else {
      var t' := t[..|t| - 1];
      assert (s + t)[..|s + t| - 1] == s + t';
      ValConcat(s, t', base);
      Horner(Val(s, base), Pow(base, |t'|), Val(t', base), base);
    }
  }

  lemma ValCons(d: nat, t: seq<nat>, base: nat)
    ensures Val([d] + t, base) == d * Pow(base, |t|) + Val(t, base)
  {
    ValConcat([d], t, base);
    assert [d][..0] == [];
    assert Val([d][..0], base) == 0;
    assert Val([d], base) == d;
  }

  lemma {:induction false} ValZeros(n: nat, ds: seq<nat>, base: nat)
    ensures Val(Zeros(n) + ds, base) == Val(ds, base)
  {
    if n == 0 {
      assert Zeros(n) + ds == ds;
    } else {
      assert Zeros(n) + ds == [0] + (Zeros(n - 1) + ds);
      ValCons(0, Zeros(n - 1) + ds, base);
      ValZeros(n - 1, ds, base);
    }
  }

  /** k digits denote a number below base to the k. */
  lemma {:induction false} ValBound(ds: seq<nat>, base: nat)
    requires base >= 1 && AreDigits(ds, base)
    ensures Val(ds, base) < Pow(base, |ds|)
  {
    if ds == [] {
    } else {
      var n := |ds| - 1;
      ValBound(ds[..n], base);
      MulMono(Pow(base, n), Val(ds[..n], base) + 1, base);
      var v := Val(ds[..n], base);
      assert (v + 1) * base == v * base + base;
    }
  }

  lemma SmallMultiple(k: int, b: int, d: int)
    requires k * b == d && -b < d < b
    ensures k == 0 && d == 0
  {
    assert k >= 1 ==> k * b >= b;
    assert k <= -1 ==> k * b <= -b;
  }

  lemma DivModUnique(q: nat, r: nat, base: nat)
    requires r < base
    ensures (q * base + r) / base == q && (q * base + r) % base == r
  {
    var n := q * base + r;
    var q', r' := n / base, n % base;
    assert n == q' * base + r';
    SmallMultiple(q' - q, base, r - r');
  }

  /** Digits produces digits, without superfluous zeros, of the number it is given. */
  lemma {:induction false} DigitsDenote(n: nat, base: nat)
    requires base >= 2
    ensures AreDigits(Digits(n, base), base) && Minimal(Digits(n, base))
    ensures Val(Digits(n, base), base) == n
    decreases n
  {
    if n > 0 {
      DivShrinks(n, base);
      var q, r := n / base, n % base;
      assert n == q * base + r;
      DigitsDenote(q, base);
      var ds := Digits(q, base);
      assert (ds + [r])[..|ds|] == ds;
      assert Digits(n, base) == ds + [r];
    }
  }

  /** A number has one representation without superfluous zeros. */
  lemma {:induction false} DigitsUnique(ds: seq<nat>, base: nat)
    requires base >= 2 && AreDigits(ds, base) && Minimal(ds)
    ensures Digits(Val(ds, base), base) == ds
  {
    if ds == [] {
    } else {
      var n := |ds| - 1;
      var init, last := ds[..n], ds[n];
      DigitsUnique(init, base);
      DivModUnique(Val(init, base), last, base);
      assert Val(ds, base) != 0 by {
        if n > 0 {
          assert init == Digits(Val(init, base), base) != [];
          MulMono(Val(init, base), 1, base);
        }
      }
      assert ds == init + [last];
    }
  }

  /** Any representation is the shortest one behind its leading zeros. */
  lemma LeadingZerosThenDigits(ds: seq<nat>, base: nat)
    requires base >= 2 && AreDigits(ds, base)
    ensures ds == Zeros(LeadingZeros(ds)) + Digits(Val(ds, base), base)
  {
    var z := LeadingZeros(ds);
    assert ds == Zeros(z) + ds[z..];
    ValZeros(z, ds[z..], base);
    DigitsUnique(ds[z..], base);
  }

  lemma LeadingZerosAre(ds: seq<nat>, z: nat)
    requires z <= |ds| && forall i :: 0 <= i < z ==> ds[i] == 0
    requires z < |ds| ==> ds[z] != 0
    ensures LeadingZeros(ds) == z
  {
  }

  lemma LeadingZerosOf(n: nat, ds: seq<nat>)
    requires Minimal(ds)
    ensures LeadingZeros(Zeros(n) + ds) == n
  {
    var s := Zeros(n) + ds;
    assert forall i :: 0 <= i < n ==> s[i] == 0;
    assert ds != [] ==> s[n] == ds[0];
  }

  /** The length of the shortest representation is at most k exactly below base to the k. */
  lemma {:induction false} DigitsLength(n: nat, base: nat, k: nat)
    requires base >= 2
    ensures |Digits(n, base)| <= k <==> n < Pow(base, k)
  {
    var ds := Digits(n, base);
    DigitsDenote(n, base);
    ValBound(ds, base);
    if |ds| <= k {
      PowMono(base, |ds|, k);
    } else {
      ValCons(ds[0], ds[1..], base);
      assert ds == [ds[0]] + ds[1..];
      MulMono(ds[0], 1, Pow(base, |ds| - 1));
      PowMono(base, k, |ds| - 1);
    }
  }
}
