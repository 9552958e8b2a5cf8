/** The kernel's singly linked list: a pointer to the first entry, changed in place. */
module LinkedLists {
  import opened Sequences

  class Entry<T(==)> {
    var data: T
    var next: Entry?<T>
    ghost var home: List?<T>

    constructor (data: T)
      ensures this.data == data && next == null && home == null
    {
      this.data := data;
      next := null;
      home := null;
    }
  }

  /** What is left of a list of entries once the first `e` in it is taken out. */
  function WithoutFirst<E(==)>(s: seq<E>, e: E): (r: seq<E>) {
    if s == [] then [] else if s[0] == e then s[1..] else [s[0]] + WithoutFirst(s[1..], e)
  }

  lemma {:induction false} WithoutFirstAt<E>(s: seq<E>, i: nat)
    requires i < |s| && forall j :: 0 <= j < i ==> s[j] != s[i]
    ensures WithoutFirst(s, s[i]) == Without(s, i)
  {
    if i > 0 {
      assert s[0] != s[i];
      WithoutFirstAt(s[1..], i - 1);
      assert s == [s[0]] + s[1..];
    }
  }

  lemma {:induction false} WithoutFirstAbsent<E>(s: seq<E>, e: E)
    requires e !in s
    ensures WithoutFirst(s, e) == s
  {
    if s != [] {
      assert s[0] in s;
      WithoutFirstAbsent(s[1..], e);
    }
  }

  predicate Distinct<E(==)>(s: seq<E>) {
    forall i, j :: 0 <= i < j < |s| ==> s[i] != s[j]
  }

  lemma DistinctWithout<E>(s: seq<E>, k: nat)
    requires Distinct(s) && k < |s|
    ensures Distinct(Without(s, k)) && s[k] !in Without(s, k)
  {
  }

  class List<T(==)> {
    var head: Entry?<T>
    ghost var entries: seq<Entry<T>>
    ghost var values: seq<T>
    ghost var freed: seq<Entry<T>>
    ghost var of: object?

    constructor ()
      ensures Valid() && entries == [] && values == [] && freed == []
    {
      head := null;
      entries, values, freed, of := [], [], [], null;
    }

    /** The links run through the entries in order, each once, and end; no entry is in another list. */
    ghost predicate Valid()
      reads this, entries
    {
      && head == At(0)
      && Distinct(entries)
      && |values| == |entries|
      && (forall i {:trigger entries[i].next} :: 0 <= i < |entries| ==> entries[i].next == At(i + 1))
      && (forall i :: 0 <= i < |entries| ==> entries[i].home == this && entries[i].data == values[i])
    }

    ghost function At(i: nat): Entry?<T>
      reads this
    {
      if i < |entries| then entries[i] else null
    }

    method Add(e: Entry<T>)
      requires Valid() && e !in entries
      modifies this`head, this`entries, this`values, e`next, e`home
      ensures Valid() && entries == [e] + old(entries) && values == [e.data] + old(values)
    {
      e.home := this;
      entries, values := [e] + entries, [e.data] + values;
      if head == null {
        e.next := null;
        head := e;
        return;
      }
      e.next := head;
      head := e;
    }

    /**
     * Takes an entry out. Asked for no entry, the walk stops at the end of the list and reports success;
     * on an empty list that request reads through the null head.
     */
    method Remove(e: Entry?<T>) returns (found: bool, faulted: bool)
      requires Valid()
      modifies this`head, this`entries, this`values, entries`next
      ensures Valid()
      ensures faulted <==> e == null && old(entries) == []
      ensures !faulted ==> (found <==> e == null || e in old(entries))
      ensures entries == if e == null then old(entries) else WithoutFirst<Entry<T>>(old(entries), e)
      ensures e == null ==> values == old(values)
      ensures forall i :: 0 <= i < |old(entries)| && old(entries)[i] == e ==> values == Without(old(values), i)
    {
      if head == e {
        if head == null {
          return false, true;
        }
        UnlinkFirst();
        return true, false;
      }
      var next := head;
      ghost var i := 0;
      while next != null
        invariant i <= |entries| && next == At(i)
        invariant Valid() && entries == old(entries) && values == old(values) && (e == null ==> next != null)
        invariant forall j :: 0 <= j <= i && j < |entries| ==> entries[j] != e
        decreases |entries| - i
      {
        if next.next == e {
          if next.next == null {
            next.next := null;
            return true, false;
          }
          WithoutFirstAt<Entry<T>>(entries, i + 1);
          Unlink(next, i);
          return true, false;
        }
        next := next.next;
        i := i + 1;
      }
      if e != null { WithoutFirstAbsent<Entry<T>>(entries, e); }
      return false, false;
    }

    method UnlinkFirst()
      requires Valid() && head != null
      modifies this`head, this`entries, this`values
      ensures Valid() && entries == Without(old(entries), 0) && values == Without(old(values), 0)
    {
      head := head.next;
      entries, values := Without(entries, 0), Without(values, 0);
    }

    /** The entry at `i` points past the one after it. */
    method Unlink(prev: Entry<T>, ghost i: nat)
      requires Valid() && i + 1 < |entries| && prev == entries[i]
      modifies this`entries, this`values, prev`next
      ensures Valid() && entries == Without(old(entries), i + 1) && values == Without(old(values), i + 1)
    {
      ghost var was := entries;
      DistinctWithout(was, i + 1);
      assert entries[i].next == At(i + 1) && entries[i + 1].next == At(i + 2);
      prev.next := prev.next.next;
      entries, values := Without(entries, i + 1), Without(values, i + 1);
      forall j | 0 <= j < |entries|
        ensures entries[j].next == At(j + 1) && entries[j].home == this && entries[j].data == values[j]
      {
        ghost var m := if j <= i then j else j + 1;
        assert entries[j] == was[m] && values[j] == old(values[m]);
      }
    }

    method Get(index: nat) returns (e: Entry?<T>)
      requires Valid()
      ensures e == if index < |entries| then entries[index] else null
    {
      var next := head;
      if next == null {
        return null;
      }
      for i := 0 to index
        invariant i < |entries| && next == entries[i]
      {
        next := next.next;
        if next == null {
          return null;
        }
      }
      return next;
    }

    /** The first entry with a value, and its index; none and zero when there is none. */
    method Search(data: T) returns (e: Entry?<T>, index: nat)
      requires Valid()
      ensures e == null ==> index == 0 && data !in values
      ensures e != null ==> index < |entries| && entries[index] == e
      ensures e != null ==> values[index] == data && data !in values[..index]
    {
      index := 0;
      var next := head;
      while next != null
        invariant index <= |entries| && next == At(index)
        invariant data !in values[..index]
        decreases |entries| - index
      {
        if next.data == data {
          return next, index;
        }
        next := next.next;
        index := index + 1;
      }
      return null, 0;
    }

    /** Frees every entry once, reading each pointer before its entry goes. */
    method Destroy()
      requires Valid()
      modifies this`freed
      ensures freed == old(freed) + entries
    {
      var next := head;
      var last := head;
      ghost var i := 0;
      while next != null
        invariant i <= |entries| && next == At(i) && Valid()
        invariant freed == old(freed) + entries[..i]
        decreases |entries| - i
      {
        last := next;
        next := next.next;
        assert entries[..i + 1] == entries[..i] + [last];
        Free(last);
        i := i + 1;
      }
    }

    method Free(e: Entry<T>)
      modifies this`freed
      ensures freed == old(freed) + [e]
    {
      freed := freed + [e];
    }
  }
}
