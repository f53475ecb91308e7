/** The orders the listings are sorted by, and the in-place sort itself.
    Both comparators of the source (directories before files; the parent
    entry before the others) first compare a rank and then compare names,
    so both are a lexicographic order on a `SortKey`. */
module Ordering {

  import opened Strings

  datatype SortKey = SortKey(rank: nat, name: string)

  predicate KeyLe(a: SortKey, b: SortKey)
  {
    a.rank < b.rank || (a.rank == b.rank && StrLe(a.name, b.name))
  }

  lemma KeyLeTotal(a: SortKey, b: SortKey)
    ensures KeyLe(a, b) || KeyLe(b, a)
  {
    StrLeTotal(a.name, b.name);
  }

  lemma KeyLeTrans(a: SortKey, b: SortKey, c: SortKey)
    requires KeyLe(a, b) && KeyLe(b, c)
    ensures KeyLe(a, c)
  {
    if a.rank == b.rank == c.rank {
      StrLeTrans(a.name, b.name, c.name);
    }
  }

  ghost predicate SortedBy<T>(s: seq<T>, key: T -> SortKey)
  {
    forall i, j :: 0 <= i < j < |s| ==> KeyLe(key(s[i]), key(s[j]))
  }

  /** The first `n` elements are in order. */
  ghost predicate SortedPrefix<T>(s: seq<T>, key: T -> SortKey, n: nat)
    requires n <= |s|
  {
    forall p, q :: 0 <= p < q < n ==> KeyLe(key(s[p]), key(s[q]))
  }

  /** `Array.prototype.sort` with a comparator that orders by `key`,
      performed in place (as an insertion sort). */
  method SortByKey<T>(a: array<T>, key: T -> SortKey)
    modifies a
    ensures SortedBy(a[..], key)
    ensures multiset(a[..]) == multiset(old(a[..]))
  {
    var i := 0;
    while i < a.Length
      invariant 0 <= i <= a.Length
      invariant SortedPrefix(a[..], key, i)
      invariant multiset(a[..]) == multiset(old(a[..]))
    {
      InsertLast(a, key, i);
      i := i + 1;
    }
  }

  /** One insertion step: moves `a[i]` down into the sorted prefix `a[..i]`. */
  method InsertLast<T>(a: array<T>, key: T -> SortKey, i: nat)
    requires i < a.Length
    requires SortedPrefix(a[..], key, i)
    modifies a
    ensures SortedPrefix(a[..], key, i + 1)
    ensures multiset(a[..]) == multiset(old(a[..]))
  {
    var j := i;
    while j > 0 && !KeyLe(key(a[j - 1]), key(a[j]))
      invariant 0 <= j <= i
      invariant Inserting(a[..], key, i, j)
      invariant multiset(a[..]) == multiset(old(a[..]))
    {
      ghost var s := a[..];
      KeyLeTotal(key(a[j - 1]), key(a[j]));
      SwapStep(s, key, i, j);
      a[j - 1], a[j] := a[j], a[j - 1];
      assert a[..] == s[j - 1 := s[j]][j := s[j - 1]];
      j := j - 1;
    }
    FinishInsert(a[..], key, i, j);
  }

  /** While `s[j]` moves down: the rest of `s[..i + 1]` is in order, and
      `s[j]` is below everything after it. */
  ghost predicate Inserting<T>(s: seq<T>, key: T -> SortKey, i: nat, j: nat)
    requires j <= i < |s|
  {
    && (forall p, q :: 0 <= p < q <= i && p != j && q != j ==> KeyLe(key(s[p]), key(s[q])))
    && (forall q :: j < q <= i ==> KeyLe(key(s[j]), key(s[q])))
  }

  /** Swapping the element being inserted with the larger one before it
      keeps the insertion invariant, one position further down. */
  lemma SwapStep<T>(s: seq<T>, key: T -> SortKey, i: nat, j: nat)
    requires 0 < j <= i < |s|
    requires Inserting(s, key, i, j)
    requires KeyLe(key(s[j]), key(s[j - 1]))
    ensures Inserting(s[j - 1 := s[j]][j := s[j - 1]], key, i, j - 1)
  {
  }

  /** When the inserted element has stopped moving, the prefix up to `i`
      is in order. */
  lemma FinishInsert<T>(s: seq<T>, key: T -> SortKey, i: nat, j: nat)
    requires j <= i < |s|
    requires Inserting(s, key, i, j)
    requires j > 0 ==> KeyLe(key(s[j - 1]), key(s[j]))
    ensures SortedPrefix(s, key, i + 1)
  {
    forall p, q | 0 <= p < q <= i
      ensures KeyLe(key(s[p]), key(s[q]))
    {
      if q == j && p < j - 1 {
        KeyLeTrans(key(s[p]), key(s[j - 1]), key(s[j]));
      }
    }
  }
}
