/** Single bits of a byte. */
module ByteBits {

  function Shift(k: nat): (s: bv8)
    requires k < 8
    ensures s < 8
  {
    RoundTrip(k);
    k as bv8
  }

  lemma RoundTrip(k: nat)
    requires k < 8
    ensures (k as bv8) as int == k
    ensures (k as bv8) < 8
  {
    assert k % 256 == k;
  }

  lemma ShiftIsInjective(j: nat, k: nat)
    requires j < 8 && k < 8 && j != k
    ensures Shift(j) != Shift(k)
  {
    RoundTrip(j);
    RoundTrip(k);
  }

  predicate TestShifted(b: bv8, s: bv8)
    requires s < 8
  {
    (b >> s) & 1 == 1
  }

  function PutShifted(b: bv8, s: bv8, value: bool): bv8
    requires s < 8
  {
    if value then b | (1 << s) else b & !(1 << s)
  }

  lemma PutShiftedAt(b: bv8, s: bv8, value: bool, t: bv8)
    requires s < 8 && t < 8
    ensures TestShifted(PutShifted(b, s, value), t) == if s == t then value else TestShifted(b, t)
  {
  }

  predicate Test(b: bv8, k: nat)
    requires k < 8
  {
    TestShifted(b, Shift(k))
  }

  function Put(b: bv8, k: nat, value: bool): bv8
    requires k < 8
  {
    PutShifted(b, Shift(k), value)
  }

  /** Bit 0 is the lowest, and each further bit the next one up. */
  lemma BitsFromLowest(b: bv8, k: nat)
    requires k < 8
    ensures Test(b, k) <==> if k == 0 then b & 1 == 1 else Test(b >> 1, k - 1)
  {
    if k == 0 {
      assert Shift(0) == 0;
      LowestShifted(b);
    } else {
      ShiftUp(k);
      NextShifted(b, Shift(k - 1), Shift(k));
    }
  }

  lemma ShiftUp(k: nat)
    requires 0 < k < 8
    ensures Shift(k) == Shift(k - 1) + 1
  {
    RoundTrip(k);
    RoundTrip(k - 1);
    assert Shift(0) == 0 && Shift(1) == 1 && Shift(2) == 2 && Shift(3) == 3;
    assert Shift(4) == 4 && Shift(5) == 5 && Shift(6) == 6 && Shift(7) == 7;
  }

  lemma LowestShifted(b: bv8)
    ensures TestShifted(b, 0) <==> b & 1 == 1
  {
  }

  lemma NextShifted(b: bv8, s: bv8, t: bv8)
    requires s < 7 && t == s + 1
    ensures TestShifted(b, t) <==> TestShifted(b >> 1, s)
  {
  }

  lemma PutAt(b: bv8, k: nat, value: bool, j: nat)
    requires k < 8 && j < 8
    ensures Test(Put(b, k, value), j) == if k == j then value else Test(b, j)
  {
    if k != j {
      ShiftIsInjective(k, j);
    }
    PutShiftedAt(b, Shift(k), value, Shift(j));
  }

  /** A zero byte has no bit set. */
  lemma ZeroByte(b: bv8, k: nat)
    requires b == 0 && k < 8
    ensures !Test(b, k)
  {
    ZeroShifted(Shift(k));
  }

  lemma ZeroShifted(s: bv8)
    requires s < 8
    ensures !TestShifted(0, s)
  {
  }

  /** And only a zero byte has none. */
  lemma NoBitIsZero(b: bv8)
    requires forall k: nat :: k < 8 ==> !Test(b, k)
    ensures b == 0
  {
    forall k: nat | k < 8 ensures !TestShifted(b, Shift(k)) {
      assert !Test(b, k);
    }
    assert Shift(0) == 0 && Shift(1) == 1 && Shift(2) == 2 && Shift(3) == 3;
    assert Shift(4) == 4 && Shift(5) == 5 && Shift(6) == 6 && Shift(7) == 7;
    NoShiftIsZero(b);
  }

  lemma NoShiftIsZero(b: bv8)
    requires !TestShifted(b, 0) && !TestShifted(b, 1) && !TestShifted(b, 2) && !TestShifted(b, 3)
    requires !TestShifted(b, 4) && !TestShifted(b, 5) && !TestShifted(b, 6) && !TestShifted(b, 7)
    ensures b == 0
  {
  }
}
