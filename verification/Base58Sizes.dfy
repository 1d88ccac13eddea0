/** How many base-58 digits a number of base-256 digits needs: the sizes that the codec relies on. */
module Base58Sizes {
  import opened Numerals

  /** The encoder's room for n bytes. */
  function Room(n: nat): nat { n * 138 / 100 + 1 }

  lemma SmallPowers()
    ensures Pow(256, 8) == 0x1_0000_0000_0000_0000
    ensures Pow(58, 11) == 24986644000165537792
    ensures Pow(256, 10) == 0x1_0000_0000_0000_0000 * 0x1_0000
    ensures Pow(256, 11) == 0x1_0000_0000_0000_0000 * 0x100_0000
    ensures Pow(58, 13) == 24986644000165537792 * 58 * 58
    ensures Pow(58, 15) == 24986644000165537792 * 58 * 58 * 58 * 58
  {
    PowAdd(256, 4, 4);
    assert Pow(256, 4) == 0x1_0000_0000 && Pow(256, 3) == 0x100_0000 && Pow(256, 2) == 0x1_0000;
    PowAdd(256, 8, 2);
    PowAdd(256, 8, 3);
    assert Pow(58, 5) == 656356768 && Pow(58, 6) == 38068692544 && Pow(58, 2) == 3364;
    assert Pow(58, 4) == 11316496;
    PowAdd(58, 5, 6);
    PowAdd(58, 11, 2);
    PowAdd(58, 11, 4);
  }

  lemma FewPowers()
    ensures Pow(256, 0) == 1 && Pow(256, 1) == 256 && Pow(256, 2) == 0x1_0000
    ensures Pow(256, 3) == 0x100_0000 && Pow(256, 4) == 0x1_0000_0000
    ensures Pow(256, 5) == 0x100_0000_0000 && Pow(256, 6) == 0x1_0000_0000_0000
    ensures Pow(256, 7) == 0x100_0000_0000_0000
    ensures Pow(58, 1) == 58 && Pow(58, 2) == 3364 && Pow(58, 3) == 195112
    ensures Pow(58, 5) == 656356768 && Pow(58, 6) == 38068692544 && Pow(58, 7) == 2207984167552
    ensures Pow(58, 9) == 7427658739644928 && Pow(58, 10) == 430804206899405824
  {
  }

  lemma RoomForFew(n: nat)
    requires n < 8
    ensures Pow(256, n) < Pow(58, Room(n))
  {
    hide Pow;
    FewPowers();
    if n == 0 {} else if n == 1 {} else if n == 2 {} else if n == 3 {} else
    if n == 4 {} else if n == 5 {} else if n == 6 {} else {}
  }

  lemma MulLess(a: nat, b: nat, c: nat, d: nat)
    requires a < b && c < d
    ensures a * c < b * d
  {
    MulMono(b, a + 1, d);
    MulMono(d, c + 1, a);
    assert (a + 1) * d == a * d + d;
    assert a * (c + 1) == a * c + a;
  }

  /** n bytes always fit in the encoder's room for them. */
  lemma {:induction false} RoomSuffices(n: nat)
    ensures Pow(256, n) < Pow(58, Room(n))
  {
    if n < 8 {
      RoomForFew(n);
    } else {
      RoomSuffices(n - 8);
      SmallPowers();
      MulLess(Pow(256, n - 8), Pow(58, Room(n - 8)), Pow(256, 8), Pow(58, 11));
      PowAdd(256, n - 8, 8);
      PowAdd(58, Room(n - 8), 11);
      PowMono(58, Room(n - 8) + 11, Room(n));
    }
  }

  /** An inequality between powers carries over to their multiples. */
  lemma {:induction false} PowScale(b: nat, x: nat, c: nat, y: nat, q: nat)
    requires Pow(b, x) < Pow(c, y) && q >= 1
    ensures Pow(b, x * q) < Pow(c, y * q)
  {
    if q == 1 {
    } else {
      PowScale(b, x, c, y, q - 1);
      MulLess(Pow(b, x * (q - 1)), Pow(c, y * (q - 1)), Pow(b, x), Pow(c, y));
      PowAdd(b, x * (q - 1), x);
      PowAdd(c, y * (q - 1), y);
      assert x * (q - 1) + x == x * q && y * (q - 1) + y == y * q;
    }
  }

  lemma BoundaryPowers()
    ensures Pow(256, 30) < Pow(58, 41)
    ensures Pow(58, 15) < Pow(256, 11) && Pow(58, 13) < Pow(256, 10)
  {
    hide Pow;
    SmallPowers();
    PowAdd(256, 10, 10);
    PowAdd(256, 20, 10);
    PowAdd(58, 13, 13);
    PowAdd(58, 26, 15);
  }

  /** k bytes behind 120 - k zero bytes never need more than 164 characters. */
  lemma {:induction false} DecoderRoomSuffices(k: nat)
    requires k <= 120
    ensures Pow(256, k) < Pow(58, k + 44)
    decreases 120 - k
  {
    if k == 120 {
      BoundaryPowers();
      PowScale(256, 30, 58, 41, 4);
    } else {
      DecoderRoomSuffices(k + 1);
    }
  }

  /** ... and 120 bytes can need all of them. */
  lemma DecoderRoomIsTight()
    ensures Pow(58, 163) < Pow(256, 120)
  {
    BoundaryPowers();
    PowScale(58, 15, 256, 11, 10);
    MulLess(Pow(58, 150), Pow(256, 110), Pow(58, 13), Pow(256, 10));
    PowAdd(58, 150, 13);
    PowAdd(256, 110, 10);
  }

  /** One byte more can need more than 164 characters. */
  lemma DecoderRoomEnds(n: nat)
    requires n >= 121
    ensures Pow(58, 164) < Pow(256, n)
  {
    BoundaryPowers();
    PowScale(58, 15, 256, 11, 11);
    PowMono(58, 164, 165);
    PowMono(256, 121, n);
  }
}
