/**
 * The array operations the handlers and the listing page use:
 * `Array.prototype.filter` and `Array.prototype.sort` with a comparator.
 */
module Lists {

  /** `s.filter(p)`: keeps, in order, exactly the elements satisfying `p`, each as often as it occurs. */
  function Filter<T(!new)>(s: seq<T>, p: T -> bool): (r: seq<T>)
    ensures |r| <= |s|
    ensures forall x :: x in r <==> x in s && p(x)
    ensures forall x :: multiset(r)[x] == if p(x) then multiset(s)[x] else 0
  {
    if s == [] then []
    else
      var rest := Filter(s[1..], p);
      assert s == [s[0]] + s[1..];
      if p(s[0]) then [s[0]] + rest else rest
  }

  /** Filtering keeps order: filtering a concatenation concatenates the filtered parts. */
  lemma {:induction false} FilterAppend<T(!new)>(s: seq<T>, t: seq<T>, p: T -> bool)
    ensures Filter(s + t, p) == Filter(s, p) + Filter(t, p)
  {
    if s == [] {
      assert s + t == t;
    } else {
      var x, rest := s[0], s[1..];
      var head := if p(x) then [x] else [];
      var tail := Filter(rest + t, p);
      SplitHead(s, t);
      FilterCons(x, rest + t, p);
      assert Filter(s + t, p) == head + tail;
      FilterAppend(rest, t, p);
      Assoc(head, Filter(rest, p), Filter(t, p));
      FilterCons(x, rest, p);
    }
  }

  lemma SplitHead<T>(s: seq<T>, t: seq<T>)
    requires s != []
    ensures s == [s[0]] + s[1..] && s + t == [s[0]] + (s[1..] + t)
  {
    assert s == [s[0]] + s[1..];
    Assoc([s[0]], s[1..], t);
  }

  lemma Assoc<T>(a: seq<T>, b: seq<T>, c: seq<T>)
    ensures a + (b + c) == (a + b) + c
  {
  }

  /** The head is kept exactly when it satisfies the predicate, ahead of the filtered tail. */
  lemma FilterCons<T(!new)>(x: T, s: seq<T>, p: T -> bool)
    ensures Filter([x] + s, p) == (if p(x) then [x] else []) + Filter(s, p)
  {
    assert ([x] + s)[0] == x && ([x] + s)[1..] == s;
  }

  lemma {:induction false} FilterAll<T(!new)>(s: seq<T>, p: T -> bool)
    requires forall x :: x in s ==> p(x)
    ensures Filter(s, p) == s
  {
    if s != [] {
      FilterAll(s[1..], p);
      assert s == [s[0]] + s[1..];
    }
  }

  /** `leq(x, y)` reads "x may precede y"; a comparator must make it a total preorder. */
  ghost predicate TotalPreorder<T(!new)>(leq: (T, T) -> bool) {
    && (forall x, y :: leq(x, y) || leq(y, x))
    && (forall x, y, z :: leq(x, y) && leq(y, z) ==> leq(x, z))
  }

  ghost predicate SortedBy<T>(s: seq<T>, leq: (T, T) -> bool) {
    forall i, j :: 0 <= i < j < |s| ==> leq(s[i], s[j])
  }

  method Swap<T>(a: array<T>, i: int, j: int)
    requires 0 <= i < a.Length && 0 <= j < a.Length
    modifies a
    ensures a[..] == old(a[..])[i := old(a[j])][j := old(a[i])]
    ensures multiset(a[..]) == old(multiset(a[..]))
  {
    a[i], a[j] := a[j], a[i];
  }

  /**
   * `a.sort(cmp)`, in place, as insertion sort: each element is swapped down
   * past every element it must precede. The result is sorted and a
   * permutation of the input.
   */
  method InsertionSort<T(!new)>(a: array<T>, leq: (T, T) -> bool)
    requires TotalPreorder(leq)
    modifies a
    ensures SortedBy(a[..], leq)
    ensures multiset(a[..]) == old(multiset(a[..]))
  {
    for i := 0 to a.Length
      invariant SortedBy(a[..i], leq)
      invariant multiset(a[..]) == old(multiset(a[..]))
    {
      var j := i;
      while j > 0 && !leq(a[j - 1], a[j])
        invariant 0 <= j <= i
        invariant multiset(a[..]) == old(multiset(a[..]))
        invariant forall k, l :: 0 <= k < l <= i && k != j && l != j ==> leq(a[k], a[l])
        invariant forall l :: j < l <= i ==> leq(a[j], a[l])
      {
        Swap(a, j - 1, j);
        j := j - 1;
      }
    }
  }

  /** Sorts a copy of `s` in an array and reads it back. */
  method SortedCopy<T(!new)>(s: seq<T>, leq: (T, T) -> bool) returns (r: seq<T>)
    requires TotalPreorder(leq)
    ensures SortedBy(r, leq)
    ensures multiset(r) == multiset(s)
  {
    var a := new T[|s|](i requires 0 <= i < |s| => s[i]);
    assert a[..] == s;
    InsertionSort(a, leq);
    r := a[..];
  }
}
