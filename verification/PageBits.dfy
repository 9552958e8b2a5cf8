/** A page block's used map: 128 bits. */
module PageBits {

  type Bits = b: seq<bool> | |b| == 128 witness AllClear(128)

  /** A map of n bits with none set, of pages or of objects. */
  function AllClear(n: nat): (b: seq<bool>)
    ensures |b| == n && forall i :: 0 <= i < n ==> !b[i]
  {
    seq(n, i => false)
  }

  function NoneUsed(): Bits {
    AllClear(128)
  }

  /** Bit i.  Index 128 exists in name only: nothing is kept there. */
  function Get(b: Bits, i: nat): bool
    requires i <= 128
  {
    i < 128 && b[i]
  }

  function Put(b: Bits, i: nat, value: bool): Bits
    requires i <= 128
  {
    if i < 128 then b[i := value] else b
  }

  /** n bits in a row, from bit a. */
  function PutRange(b: Bits, a: nat, n: nat, value: bool): (r: Bits)
    requires a + n <= 129
    ensures forall j :: 0 <= j < 128 ==> r[j] == if a <= j < a + n then value else b[j]
  {
    if n == 0 then b else Put(PutRange(b, a, n - 1, value), a + n - 1, value)
  }

  /** How many bits of a map are set. */
  function Count(b: seq<bool>): (c: nat)
    ensures c <= |b|
  {
    if b == [] then 0 else Count(b[..|b| - 1]) + if b[|b| - 1] then 1 else 0
  }

  lemma {:induction false} CountAppend(a: seq<bool>, b: seq<bool>)
    ensures Count(a + b) == Count(a) + Count(b)
  {
    if b == [] {
      assert a + b == a;
    } else {
      CountAppend(a, b[..|b| - 1]);
      assert (a + b)[..|a + b| - 1] == a + b[..|b| - 1];
    }
  }

  lemma {:induction false} AllSetCounts(b: seq<bool>)
    requires forall k :: 0 <= k < |b| ==> b[k]
    ensures Count(b) == |b|
  {
    if b != [] {
      AllSetCounts(b[..|b| - 1]);
    }
  }

  /** The popcount shortcut is sound: fewer than n ones anywhere leaves a clear bit among the first n, whatever the
      bits from n on hold. */
  lemma FewOnesLeaveRoom(b: Bits, n: nat)
    requires n <= 128 && Count(b) < n
    ensures exists k :: 0 <= k < n && !b[k]
  {
    if forall k :: 0 <= k < n ==> b[k] {
      assert b == b[..n] + b[n..];
      CountAppend(b[..n], b[n..]);
      AllSetCounts(b[..n]);
    }
  }

  lemma {:induction false} CountSet(b: seq<bool>, k: nat)
    requires k < |b| && !b[k]
    ensures Count(b[k := true]) == Count(b) + 1
  {
    var n := |b| - 1;
    if k < n {
      CountSet(b[..n], k);
      assert b[k := true][..n] == b[..n][k := true];
    } else {
      assert b[k := true][..n] == b[..n];
    }
  }

  lemma {:induction false} CountFull(b: seq<bool>)
    ensures Count(b) == |b| <==> forall k :: 0 <= k < |b| ==> b[k]
  {
    if b != [] {
      CountFull(b[..|b| - 1]);
    }
  }

  lemma {:induction false} CountNone(b: seq<bool>)
    requires forall k :: 0 <= k < |b| ==> !b[k]
    ensures Count(b) == 0
  {
    if b != [] {
      CountNone(b[..|b| - 1]);
    }
  }

  /** Only bit k of the first n is clear. */
  ghost predicate OnlyClear(b: Bits, n: nat, k: nat)
    requires n <= 128
  {
    k < n && !b[k] && forall j :: 0 <= j < n && j != k ==> b[j]
  }

  /** The shortcut gives up a block that still has a free page in exactly one situation: one page is free, and the
      bit behind the block is set. */
  lemma GivesUpTooEarly(b: Bits, n: nat)
    requires n <= 128 && forall k :: n < k < 128 ==> !b[k]
    ensures (Count(b) >= n && exists k :: 0 <= k < n && !b[k]) <==>
              (n < 128 && b[n] && exists k :: OnlyClear(b, n, k))
  {
    var low, high := b[..n], b[n..];
    assert b == low + high;
    CountAppend(low, high);
    if n < 128 {
      assert high == [b[n]] + b[n + 1..];
      CountAppend([b[n]], b[n + 1..]);
      CountNone(b[n + 1..]);
      assert Count([b[n]]) == (if b[n] then 1 else 0) by {
        assert [b[n]][..0] == [];
      }
    }
    if k: nat :| k < n && !b[k] {
      AlmostFull(b, n, k);
    } else {
      CountFull(low);
    }
  }

  /** Leaving out bit k, n - 1 of the first n bits are set exactly if k is the only clear one. */
  lemma AlmostFull(b: Bits, n: nat, k: nat)
    requires n <= 128 && k < n && !b[k]
    ensures Count(b[..n]) <= n - 1
    ensures Count(b[..n]) == n - 1 <==> OnlyClear(b, n, k)
    ensures forall l :: OnlyClear(b, n, l) ==> l == k
  {
    var filled := b[..n][k := true];
    CountSet(b[..n], k);
    CountFull(filled);
    assert forall j :: 0 <= j < n && j != k ==> filled[j] == b[j];
  }
}
