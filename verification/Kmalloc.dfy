/** Which cache `kmalloc` allocates from. */
module Kmalloc {

  datatype CacheInfo = CacheInfo(objSize: nat, noKmalloc: bool)

  const LARGEST := 1024

  predicate Eligible(c: CacheInfo, size: nat) {
    !c.noKmalloc && c.objSize >= size
  }

  /** The first of the smallest caches that are large enough. */
  predicate BestFit(caches: seq<CacheInfo>, size: nat, k: nat) {
    && k < |caches| && Eligible(caches[k], size)
    && (forall i :: 0 <= i < |caches| && Eligible(caches[i], size) ==> caches[k].objSize <= caches[i].objSize)
    && forall i :: 0 <= i < k && Eligible(caches[i], size) ==> caches[k].objSize < caches[i].objSize
  }

  /** Index of the chosen cache in list order, or -1 for none.  A perfect fit ends the search. */
  method Choose(caches: seq<CacheInfo>, size: nat) returns (k: int)
    ensures k >= 0 ==> size <= 1024 && BestFit(caches, size, k)
    ensures k >= 0 ==> !caches[k].noKmalloc && caches[k].objSize >= size
    ensures k < 0 ==> size > 1024 || forall i :: 0 <= i < |caches| ==> !Eligible(caches[i], size)
  {
    k := -1;
    if size > LARGEST {
      return;
    }
    for i := 0 to |caches|
      invariant k < 0 ==> forall j :: 0 <= j < i ==> !Eligible(caches[j], size)
      invariant k >= 0 ==> BestFit(caches[..i], size, k) && caches[k].objSize > size
    {
      if !caches[i].noKmalloc {
        if caches[i].objSize == size {
          return i;
        }
        if caches[i].objSize > size {
          if k < 0 || caches[i].objSize < caches[k].objSize {
            k := i;
          }
        }
      }
    }
    assert caches[..|caches|] == caches;
  }
}
