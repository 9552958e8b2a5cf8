/** Lists of slabs linked through `next`. */
module SlabLists {
  import opened Sequences
  import opened Slabs

  ghost predicate Distinct(s: seq<Slab>) {
    forall i, j :: 0 <= i < j < |s| ==> s[i] != s[j]
  }

  ghost predicate Disjoint(s: seq<Slab>, t: seq<Slab>) {
    forall i, j :: 0 <= i < |s| && 0 <= j < |t| ==> s[i] != t[j]
  }

  /** The list that starts at `head` holds exactly s, in this order. */
  ghost predicate IsList(head: Slab?, s: seq<Slab>)
    reads s`next
  {
    && head == (if s == [] then null else s[0])
    && (forall i :: 0 <= i < |s| - 1 ==> s[i].next == s[i + 1])
    && (s != [] ==> s[|s| - 1].next == null)
  }

  /** Takes c, the k-th slab, out of a list; `prev` is the one before it. */
  method Unlink(head: Slab?, prev: Slab?, c: Slab, ghost s: seq<Slab>, ghost k: nat) returns (h: Slab?)
    requires IsList(head, s) && Distinct(s) && k < |s| && c == s[k] && prev == if k == 0 then null else s[k - 1]
    modifies (if prev == null then {} else {prev})`next
    ensures IsList(h, Without(s, k)) && c.next == old(c.next)
  {
    if prev == null {
      h := c.next;
      assert Without(s, 0) == s[1..];
    } else {
      prev.next := c.next;
      h := head;
    }
  }

  /** Puts c in front of a list. */
  method Push(head: Slab?, c: Slab, ghost s: seq<Slab>)
    requires IsList(head, s) && forall i :: 0 <= i < |s| ==> s[i] != c
    modifies c`next
    ensures IsList(c, [c] + s)
  {
    c.next := head;
  }

  /** Three lists hold each slab of a set once, and nothing else. */
  ghost predicate Partition(slabs: set<Slab>, f: seq<Slab>, p: seq<Slab>, r: seq<Slab>) {
    multiset(f) + multiset(p) + multiset(r) == multiset(slabs)
  }

  lemma TakenOut<T>(s: seq<T>, k: nat)
    requires k < |s|
    ensures multiset(Without(s, k)) == multiset(s) - multiset{s[k]}
  {
    assert s == s[..k] + [s[k]] + s[k + 1..];
  }

  lemma Occurs(s: seq<Slab>, i: nat, j: nat)
    requires i < j < |s| && s[i] == s[j]
    ensures multiset(s)[s[i]] >= 2
  {
    assert s == s[..j] + [s[j]] + s[j + 1..];
    assert s[i] in s[..j];
  }

  lemma OnceIsDistinct(s: seq<Slab>, slabs: set<Slab>)
    requires multiset(s) <= multiset(slabs)
    ensures Distinct(s)
    ensures forall i :: 0 <= i < |s| ==> s[i] in slabs
  {
    forall i, j | 0 <= i < j < |s|
      ensures s[i] != s[j]
    {
      if s[i] == s[j] {
        Occurs(s, i, j);
      }
    }
    forall i | 0 <= i < |s|
      ensures s[i] in slabs
    {
      assert s[i] in multiset(s);
    }
  }

  lemma OnceIsDisjoint(s: seq<Slab>, t: seq<Slab>, slabs: set<Slab>)
    requires multiset(s) + multiset(t) <= multiset(slabs)
    ensures Disjoint(s, t)
  {
    forall i, j | 0 <= i < |s| && 0 <= j < |t|
      ensures s[i] != t[j]
    {
      assert s[i] in multiset(s) && t[j] in multiset(t);
      assert multiset(slabs)[s[i]] <= 1;
    }
  }

  /** A partition has no repetition anywhere. */
  lemma PartitionIsApart(slabs: set<Slab>, f: seq<Slab>, p: seq<Slab>, r: seq<Slab>)
    requires Partition(slabs, f, p, r)
    ensures Distinct(f) && Distinct(p) && Distinct(r)
    ensures Disjoint(f, p) && Disjoint(f, r) && Disjoint(p, r)
    ensures forall i :: 0 <= i < |f| ==> f[i] in slabs
    ensures forall i :: 0 <= i < |p| ==> p[i] in slabs
    ensures forall i :: 0 <= i < |r| ==> r[i] in slabs
  {
    OnceIsDistinct(f, slabs);
    OnceIsDistinct(p, slabs);
    OnceIsDistinct(r, slabs);
    OnceIsDisjoint(f, p, slabs);
    OnceIsDisjoint(f, r, slabs);
    OnceIsDisjoint(p, r, slabs);
  }

  /** Moving a slab from the front list of two to the head of the other keeps the partition. */
  lemma Moved(slabs: set<Slab>, f: seq<Slab>, p: seq<Slab>, r: seq<Slab>, k: nat)
    requires Partition(slabs, f, p, r) && k < |f|
    ensures Partition(slabs, Without(f, k), [f[k]] + p, r)
    ensures forall s :: s in Without(f, k) ==> s in f && s != f[k]
    ensures f[k] in slabs && f[k] !in p && f[k] !in r
  {
    TakenOut(f, k);
    assert f[k] in multiset(f);
    assert multiset(slabs)[f[k]] == 1;
    forall s | s in Without(f, k)
      ensures s in f && s != f[k]
    {
      assert s in multiset(Without(f, k));
    }
    assert multiset(p)[f[k]] == 0 && multiset(r)[f[k]] == 0;
  }

  lemma MovedFirst(slabs: set<Slab>, f: seq<Slab>, p: seq<Slab>, r: seq<Slab>)
    requires Partition(slabs, f, p, r) && f != []
    ensures Partition(slabs, f[1..], [f[0]] + p, r)
    ensures forall s :: s in f[1..] ==> s in f && s != f[0]
    ensures f[0] in slabs && f[0] !in p && f[0] !in r
  {
    Moved(slabs, f, p, r, 0);
    assert Without(f, 0) == f[1..];
  }

  lemma Grown(slabs: set<Slab>, f: seq<Slab>, p: seq<Slab>, r: seq<Slab>, s: Slab)
    requires Partition(slabs, f, p, r) && s !in slabs
    ensures Partition(slabs + {s}, f, p, [s] + r)
  {
    assert multiset(slabs + {s}) == multiset(slabs) + multiset{s};
  }

  /** Moves c, the k-th slab of the list s, to the head of the list t; a third list u is left alone. */
  method Move(from: Slab?, prev: Slab?, c: Slab, to: Slab?, other: Slab?,
              ghost slabs: set<Slab>, ghost s: seq<Slab>, ghost k: nat, ghost t: seq<Slab>, ghost u: seq<Slab>)
    returns (from': Slab?, to': Slab?, ghost s': seq<Slab>, ghost t': seq<Slab>)
    requires IsList(from, s) && IsList(to, t) && IsList(other, u) && Partition(slabs, s, t, u)
    requires k < |s| && c == s[k] && prev == if k == 0 then null else s[k - 1]
    modifies c`next, (if prev == null then {} else {prev})`next
    ensures s' == Without(s, k) && t' == [c] + t
    ensures IsList(from', s') && IsList(to', t') && IsList(other, u) && Partition(slabs, s', t', u)
  {
    PartitionIsApart(slabs, s, t, u);
    Moved(slabs, s, t, u, k);
    from' := Unlink(from, prev, c, s, k);
    assert forall i :: 0 <= i < |Without(s, k)| ==> Without(s, k)[i] != c;
    Push(to, c, t);
    to', s', t' := c, Without(s, k), [c] + t;
  }

  /** The allocation loop retires an exhausted first slab to the full list.  It reads `next` only after that, so what
      it looks at next is the old head of the full list. */
  method RetireFirst(partial: Slab?, full: Slab?, free: Slab?,
                     ghost slabs: set<Slab>, ghost p: seq<Slab>, ghost f: seq<Slab>, ghost r: seq<Slab>)
    returns (partial': Slab?, full': Slab?, prev: Slab, cursor: Slab?, ghost p': seq<Slab>, ghost f': seq<Slab>)
    requires IsList(partial, p) && IsList(full, f) && IsList(free, r) && Partition(slabs, p, f, r) && p != []
    modifies (if partial == null then {} else {partial})`next
    ensures p' == Without(p, 0) && f' == [p[0]] + f
    ensures IsList(partial', p') && IsList(full', f') && IsList(free, r) && Partition(slabs, p', f', r)
    ensures prev == f'[0] && cursor == if |f'| > 1 then f'[1] else null
  {
    var c := partial;
    partial', full', p', f' := Move(partial, null, c, full, free, slabs, p, 0, f, r);
    prev := c;
    cursor := c.next;
  }

  /** Once the loop is in the full list it takes the second slab out behind the first and puts it in front, over and
      over: the first two slabs change places. */
  method RetireSecond(full: Slab?, prev: Slab, c: Slab, ghost f: seq<Slab>)
    returns (full': Slab?, prev': Slab, cursor: Slab?, ghost f': seq<Slab>)
    requires IsList(full, f) && Distinct(f) && |f| > 1 && prev == f[0] && c == f[1]
    modifies prev`next, c`next
    ensures f' == [f[1], f[0]] + f[2..] && IsList(full', f') && prev' == f'[0] && cursor == f'[1]
  {
    prev.next := c.next;
    c.next := full;
    full' := c;
    prev' := c;
    cursor := c.next;
    f' := [f[1], f[0]] + f[2..];
  }
}
