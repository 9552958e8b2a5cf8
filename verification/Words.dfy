/** A page block's used map the way the allocator keeps it: 128 bits in two 64-bit words. */
module Words {
  import B = PageBits

  datatype Words = Words(lo: bv64, hi: bv64)

  const NONE := Words(0, 0)

  /** A shift count as a machine word. */
  function Shift(k: nat): (s: bv64)
    requires k <= 64
    ensures s <= 64
  {
    ByteRoundTrip(k);
    (k as bv8) as bv64
  }

  lemma ByteRoundTrip(k: nat)
    requires k < 256
    ensures (k as bv8) as int == k
  {
    assert k % 256 == k;
  }

  lemma ShiftIsInjective(j: nat, k: nat)
    requires j <= 64 && k <= 64 && j != k
    ensures Shift(j) != Shift(k)
  {
    ByteRoundTrip(j);
    ByteRoundTrip(k);
    assert j as bv8 != k as bv8;
  }

  predicate TestBit(w: bv64, s: bv64)
    requires s <= 64
  {
    (w >> s) & 1 == 1
  }

  function WithBit(w: bv64, s: bv64): bv64
    requires s <= 64
  {
    w | (1 << s)
  }

  function WithoutBit(w: bv64, s: bv64): bv64
    requires s <= 64
  {
    w & !(1 << s)
  }

  lemma SetSame(w: bv64, s: bv64)
    requires s < 64
    ensures TestBit(WithBit(w, s), s) && !TestBit(WithoutBit(w, s), s)
  {
  }

  lemma SetOther(w: bv64, s: bv64, t: bv64)
    requires s <= 64 && t < 64 && s != t
    ensures TestBit(WithBit(w, s), t) == TestBit(w, t)
  {
  }

  lemma ClearOther(w: bv64, s: bv64, t: bv64)
    requires s <= 64 && t < 64 && s != t
    ensures TestBit(WithoutBit(w, s), t) == TestBit(w, t)
  {
  }

  predicate Bit(w: bv64, k: nat)
    requires k < 64
  {
    TestBit(w, Shift(k))
  }

  /** Bit 0 is the lowest, and each further bit the next one up. */
  lemma BitsFromLowest(w: bv64, k: nat)
    requires k < 64
    ensures Bit(w, k) <==> if k == 0 then w & 1 == 1 else Bit(w >> 1, k - 1)
  {
    if k == 0 {
      assert Shift(0) == 0;
      LowestBit(w);
    } else {
      ShiftUp(k);
      NextBit(w, Shift(k - 1), Shift(k));
    }
  }

  lemma ShiftUp(k: nat)
    requires 0 < k < 64
    ensures Shift(k - 1) < 63 && Shift(k) == Shift(k - 1) + 1
  {
    ByteRoundTrip(k);
    ByteRoundTrip(k - 1);
    NextByte((k - 1) as bv8, k as bv8);
  }

  lemma NextByte(a: bv8, b: bv8)
    requires b as int == a as int + 1 && b < 64
    ensures a < 63 && b as bv64 == a as bv64 + 1
  {
  }

  lemma LowestBit(w: bv64)
    ensures TestBit(w, 0) <==> w & 1 == 1
  {
  }

  lemma NextBit(w: bv64, s: bv64, t: bv64)
    requires s < 63 && t == s + 1
    ensures TestBit(w, t) <==> TestBit(w >> 1, s)
  {
  }

  /** The map two words stand for. */
  function View(b: Words): (v: B.Bits)
    ensures forall k :: 0 <= k < 128 ==> v[k] == if k < 64 then Bit(b.lo, k) else Bit(b.hi, k - 64)
  {
    seq(128, k requires 0 <= k < 128 => if k < 64 then Bit(b.lo, k) else Bit(b.hi, k - 64))
  }

  /** `getBit128`; at i == 128 the word is shifted by its whole width, which leaves nothing. */
  function Get(b: Words, i: nat): bool
    requires i <= 128
  {
    if i < 64 then TestBit(b.lo, Shift(i)) else TestBit(b.hi, Shift(i - 64))
  }

  /** `setBit128`. */
  function Put(b: Words, i: nat, value: bool): Words
    requires i <= 128
  {
    if i < 64 then b.(lo := PutBit(b.lo, i, value)) else b.(hi := PutBit(b.hi, i - 64, value))
  }

  function PutBit(w: bv64, i: nat, value: bool): bv64
    requires i <= 64
  {
    PutShifted(w, Shift(i), value)
  }

  function PutShifted(w: bv64, s: bv64, value: bool): bv64
    requires s <= 64
  {
    if value then WithBit(w, s) else WithoutBit(w, s)
  }

  lemma PutBitAt(w: bv64, i: nat, value: bool, j: nat)
    requires i <= 64 && j < 64
    ensures Bit(PutBit(w, i, value), j) == if i == j then value else Bit(w, j)
  {
    ShiftBelow(j);
    if i != j {
      ShiftIsInjective(i, j);
    }
    PutShiftedAt(w, Shift(i), value, Shift(j));
  }

  lemma PutShiftedAt(w: bv64, s: bv64, value: bool, t: bv64)
    requires s <= 64 && t < 64
    ensures TestBit(PutShifted(w, s, value), t) == if s == t then value else TestBit(w, t)
  {
    if s == t {
      SetSame(w, s);
    } else {
      SetOther(w, s, t);
      ClearOther(w, s, t);
    }
  }

  lemma ShiftBelow(j: nat)
    requires j < 64
    ensures Shift(j) < 64
  {
    ByteRoundTrip(j);
  }

  lemma WholeWidth(w: bv64)
    ensures !TestBit(w, Shift(64))
  {
    NothingLeft(w);
  }

  lemma NothingLeft(w: bv64)
    ensures !TestBit(w, 64)
  {
  }

  /** The words read as the map reads. */
  lemma GetIsGet(b: Words, i: nat)
    requires i <= 128
    ensures Get(b, i) == B.Get(View(b), i)
  {
    if i == 128 {
      WholeWidth(b.hi);
    }
  }

  /** And writing the words writes the map. */
  lemma PutIsPut(b: Words, i: nat, value: bool)
    requires i <= 128
    ensures View(Put(b, i, value)) == B.Put(View(b), i, value)
  {
    forall j | 0 <= j < 128
      ensures View(Put(b, i, value))[j] == B.Put(View(b), i, value)[j]
    {
      if i < 64 {
        if j < 64 {
          PutBitAt(b.lo, i, value, j);
        }
      } else if j >= 64 {
        PutBitAt(b.hi, i - 64, value, j - 64);
      }
    }
  }

  lemma NoneView()
    ensures View(NONE) == B.NoneUsed()
  {
    forall k | 0 <= k < 128
      ensures !View(NONE)[k]
    {
      ZeroWord(Shift(if k < 64 then k else k - 64));
    }
  }

  lemma ZeroWord(s: bv64)
    requires s <= 64
    ensures !TestBit(0, s)
  {
  }

  /** How many of the first n bits of a word are set: `__builtin_popcountll` at n == 64. */
  function OnesBelow(w: bv64, n: nat): nat
    requires n <= 64
  {
    if n == 0 then 0 else OnesBelow(w, n - 1) + if Bit(w, n - 1) then 1 else 0
  }

  /** `__builtin_popcountll`. */
  function PopCount(w: bv64): nat {
    OnesBelow(w, 64)
  }

  lemma {:induction false} OnesBelowIsCount(w: bv64, n: nat, v: seq<bool>)
    requires n <= 64 && |v| == n && forall k :: 0 <= k < n ==> v[k] == Bit(w, k)
    ensures OnesBelow(w, n) == B.Count(v)
  {
    if n > 0 {
      OnesBelowIsCount(w, n - 1, v[..n - 1]);
    }
  }

  /** The population counts of both words count the map. */
  lemma PopCountIsCount(b: Words)
    ensures PopCount(b.lo) + PopCount(b.hi) == B.Count(View(b))
  {
    var v := View(b);
    OnesBelowIsCount(b.lo, 64, v[..64]);
    OnesBelowIsCount(b.hi, 64, v[64..]);
    B.CountAppend(v[..64], v[64..]);
    assert v == v[..64] + v[64..];
  }
}
