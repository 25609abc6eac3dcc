/** Stable sorting by a strict weak order, as sort.SliceStable does it. */
module StableSort {

  ghost predicate StrictWeakOrder<T(!new)>(less: (T, T) -> bool) {
    && (forall x :: !less(x, x))
    && (forall x, y, z :: less(x, y) && less(y, z) ==> less(x, z))
    && (forall x, y, z :: !less(x, y) && !less(y, z) ==> !less(x, z))
  }

  /** Neither comes before the other. */
  predicate Tied<T>(less: (T, T) -> bool, x: T, y: T) {
    !less(x, y) && !less(y, x)
  }

  ghost predicate Sorted<T>(less: (T, T) -> bool, s: seq<T>) {
    forall i, j :: 0 <= i < j < |s| ==> !less(s[j], s[i])
  }

  /** The elements of `s` tied with `x`, in their order in `s`. */
  function TiedWith<T>(less: (T, T) -> bool, s: seq<T>, x: T): seq<T> {
    if s == [] then []
    else
      var rest := TiedWith(less, s[..|s| - 1], x);
      if Tied(less, s[|s| - 1], x) then rest + [s[|s| - 1]] else rest
  }

  /** `t` is `s` in order, tied elements keeping their order: nothing added, nothing
      lost, nothing swapped without need. */
  ghost predicate IsStableSort<T(!new)>(less: (T, T) -> bool, s: seq<T>, t: seq<T>) {
    Sorted(less, t) && forall x :: TiedWith(less, t, x) == TiedWith(less, s, x)
  }

  /** `x` put into `s` behind the last element it does not come before. */
  function Insert<T>(less: (T, T) -> bool, s: seq<T>, x: T): seq<T> {
    if s == [] || !less(x, s[|s| - 1]) then s + [x]
    else Insert(less, s[..|s| - 1], x) + [s[|s| - 1]]
  }

  function Sort<T>(less: (T, T) -> bool, s: seq<T>): seq<T> {
    if s == [] then [] else Insert(less, Sort(less, s[..|s| - 1]), s[|s| - 1])
  }

  lemma {:induction false} TiedWithConcat<T>(less: (T, T) -> bool, s: seq<T>, t: seq<T>, x: T)
    ensures TiedWith(less, s + t, x) == TiedWith(less, s, x) + TiedWith(less, t, x)
  {
    if t == [] {
      assert s + t == s;
    } else {
      var t' := t[..|t| - 1];
      TiedWithConcat(less, s, t', x);
      assert (s + t)[..|s + t| - 1] == s + t';
    }
  }

  lemma {:induction false} TiedWithMembers<T>(less: (T, T) -> bool, s: seq<T>, x: T)
    ensures forall y :: y in TiedWith(less, s, x) <==> y in s && Tied(less, y, x)
  {
    if s != [] {
      TiedWithMembers(less, s[..|s| - 1], x);
      assert s == s[..|s| - 1] + [s[|s| - 1]];
    }
  }

  lemma {:induction false} InsertMembers<T>(less: (T, T) -> bool, s: seq<T>, x: T)
    ensures |Insert(less, s, x)| == |s| + 1
    ensures forall y :: y in Insert(less, s, x) <==> y in s || y == x
    ensures multiset(Insert(less, s, x)) == multiset(s) + multiset{x}
  {
    if s != [] && less(x, s[|s| - 1]) {
      InsertMembers(less, s[..|s| - 1], x);
      assert s == s[..|s| - 1] + [s[|s| - 1]];
    }
  }

  lemma SortedAppend<T(!new)>(less: (T, T) -> bool, s: seq<T>, x: T)
    requires Sorted(less, s) && forall y :: y in s ==> !less(x, y)
    ensures Sorted(less, s + [x])
  {
  }

  /** `x` comes before nothing in `s` if not before its last element. */
  lemma NotBeforeLast<T(!new)>(less: (T, T) -> bool, s: seq<T>, x: T)
    requires StrictWeakOrder(less) && Sorted(less, s) && s != [] && !less(x, s[|s| - 1])
    ensures forall y :: y in s ==> !less(x, y)
  {
    forall y | y in s ensures !less(x, y) {
      var k :| 0 <= k < |s| && s[k] == y;
      assert !less(s[|s| - 1], s[k]);
    }
  }

  lemma {:induction false} InsertSorts<T(!new)>(less: (T, T) -> bool, s: seq<T>, x: T)
    requires StrictWeakOrder(less) && Sorted(less, s)
    ensures Sorted(less, Insert(less, s, x))
  {
    if s == [] {
    } else if !less(x, s[|s| - 1]) {
      NotBeforeLast(less, s, x);
      SortedAppend(less, s, x);
    } else {
      var front, last := s[..|s| - 1], s[|s| - 1];
      InsertSorts(less, front, x);
      InsertMembers(less, front, x);
      SortedAppend(less, Insert(less, front, x), last);
    }
  }

  lemma {:induction false} InsertKeepsClasses<T(!new)>(less: (T, T) -> bool, s: seq<T>, x: T, z: T)
    requires StrictWeakOrder(less)
    ensures TiedWith(less, Insert(less, s, x), z) == TiedWith(less, s, z) + TiedWith(less, [x], z)
  {
    if s == [] || !less(x, s[|s| - 1]) {
      TiedWithConcat(less, s, [x], z);
    } else {
      var front, last := s[..|s| - 1], s[|s| - 1];
      InsertKeepsClasses(less, front, x, z);
      TiedWithConcat(less, Insert(less, front, x), [last], z);
      TiedWithConcat(less, front, [last], z);
      assert s == front + [last];
      assert !(Tied(less, x, z) && Tied(less, last, z));
    }
  }

  /** Sort yields a stable sort of its argument, and a permutation of it. */
  lemma {:induction false} SortIsStable<T(!new)>(less: (T, T) -> bool, s: seq<T>)
    requires StrictWeakOrder(less)
    ensures IsStableSort(less, s, Sort(less, s))
    ensures |Sort(less, s)| == |s| && multiset(Sort(less, s)) == multiset(s)
  {
    if s != [] {
      var front, last := s[..|s| - 1], s[|s| - 1];
      SortIsStable(less, front);
      InsertSorts(less, Sort(less, front), last);
      InsertMembers(less, Sort(less, front), last);
      assert s == front + [last];
      forall x ensures TiedWith(less, Sort(less, s), x) == TiedWith(less, s, x) {
        InsertKeepsClasses(less, Sort(less, front), last, x);
        TiedWithConcat(less, front, [last], x);
      }
    }
  }

  /** There is only one stable sort, so any correct stable sorting gives this one. */
  lemma {:induction false} StableSortIsUnique<T(!new)>(less: (T, T) -> bool, s: seq<T>, t: seq<T>, u: seq<T>)
    requires StrictWeakOrder(less) && IsStableSort(less, s, t) && IsStableSort(less, s, u)
    ensures t == u
  {
    SameClassesSameSeq(less, t, u);
  }

  lemma {:induction false} SameClassesSameSeq<T(!new)>(less: (T, T) -> bool, t: seq<T>, u: seq<T>)
    requires StrictWeakOrder(less) && Sorted(less, t) && Sorted(less, u)
    requires forall x :: TiedWith(less, t, x) == TiedWith(less, u, x)
    ensures t == u
  {
    if t == [] {
      if u != [] {
        HasOwnClass(less, u);
      }
    } else {
      TiedWithMembers(less, t, t[|t| - 1]);
      TiedWithMembers(less, u, t[|t| - 1]);
      assert t[|t| - 1] in TiedWith(less, u, t[|t| - 1]);
      LastAgree(less, t, u);
      var t', u' := t[..|t| - 1], u[..|u| - 1];
      var last := t[|t| - 1];
      forall x ensures TiedWith(less, t', x) == TiedWith(less, u', x) {
        var tx, ux := TiedWith(less, t', x), TiedWith(less, u', x);
        assert TiedWith(less, t, x) == TiedWith(less, u, x);
        if Tied(less, last, x) {
          assert tx == (tx + [last])[..|tx|] && ux == (ux + [last])[..|ux|];
        }
      }
      SameClassesSameSeq(less, t', u');
      assert t == t' + [last] && u == u' + [last];
    }
  }

  lemma HasOwnClass<T(!new)>(less: (T, T) -> bool, s: seq<T>)
    requires StrictWeakOrder(less) && s != []
    ensures TiedWith(less, s, s[0]) != []
  {
    TiedWithMembers(less, s, s[0]);
    assert s[0] in TiedWith(less, s, s[0]);
  }

  lemma LastAgree<T(!new)>(less: (T, T) -> bool, t: seq<T>, u: seq<T>)
    requires StrictWeakOrder(less) && Sorted(less, t) && Sorted(less, u) && t != [] && u != []
    requires forall x :: TiedWith(less, t, x) == TiedWith(less, u, x)
    ensures t[|t| - 1] == u[|u| - 1]
  {
    var a, b := t[|t| - 1], u[|u| - 1];
    TiedWithMembers(less, t, b);
    TiedWithMembers(less, u, b);
    TiedWithMembers(less, t, a);
    TiedWithMembers(less, u, a);
    assert b in TiedWith(less, u, b) && a in TiedWith(less, t, a);
    assert b in t && a in u;
    assert !less(a, b) && !less(b, a);
    assert TiedWith(less, t, a)[|TiedWith(less, t, a)| - 1] == a;
    assert TiedWith(less, u, a)[|TiedWith(less, u, a)| - 1] == b;
  }

  /** Appending to a sorted list and sorting again is sorting everything at once. */
  lemma SortAfterAppend<T(!new)>(less: (T, T) -> bool, s: seq<T>, x: T)
    requires StrictWeakOrder(less)
    ensures Sort(less, Sort(less, s) + [x]) == Sort(less, s + [x])
  {
    SortIsStable(less, s);
    SortIsStable(less, Sort(less, s) + [x]);
    SortIsStable(less, s + [x]);
    forall z ensures TiedWith(less, Sort(less, s) + [x], z) == TiedWith(less, s + [x], z) {
      TiedWithConcat(less, Sort(less, s), [x], z);
      TiedWithConcat(less, s, [x], z);
    }
    StableSortIsUnique(less, s + [x], Sort(less, Sort(less, s) + [x]), Sort(less, s + [x]));
  }

  // ----- in place -----

  /** Moves `a[i]` down into the sorted part before it. */
  method InsertInPlace<T>(a: array<T>, i: nat, less: (T, T) -> bool)
    requires i < a.Length
    modifies a
    ensures a[..i + 1] == Insert(less, old(a[..i]), old(a[i]))
    ensures a[i + 1..] == old(a[i + 1..])
  {
    ghost var was, prefix := a[..], a[..i];
    var x := a[i];
    var j := i;
    assert prefix[..i] == prefix && prefix[i..] == [];
    while j > 0 && less(x, a[j - 1])
      invariant 0 <= j <= i && a[j] == x
      invariant forall k :: 0 <= k < j ==> a[k] == prefix[k]
      invariant forall k :: j < k <= i ==> a[k] == prefix[k - 1]
      invariant forall k :: i < k < a.Length ==> a[k] == was[k]
      invariant Insert(less, prefix, x) == Insert(less, prefix[..j], x) + prefix[j..]
    {
      InsertStepsOver(less, prefix, j, x);
      a[j] := a[j - 1];
      a[j - 1] := x;
      j := j - 1;
    }
    assert Insert(less, prefix[..j], x) == prefix[..j] + [x];
    assert a[..i + 1] == prefix[..j] + [x] + prefix[j..];
  }

  lemma InsertStepsOver<T>(less: (T, T) -> bool, s: seq<T>, j: nat, x: T)
    requires 0 < j <= |s| && less(x, s[j - 1])
    ensures Insert(less, s[..j], x) + s[j..] == Insert(less, s[..j - 1], x) + s[j - 1..]
  {
    assert s[..j][..j - 1] == s[..j - 1];
    assert s[j - 1..] == [s[j - 1]] + s[j..];
  }

  /** Sorts `a` in place; with a strict weak order the result is the stable sort. */
  method SliceStable<T>(a: array<T>, less: (T, T) -> bool)
    modifies a
    ensures a[..] == Sort(less, old(a[..]))
  {
    ghost var s := a[..];
    var i := 0;
    while i < a.Length
      invariant 0 <= i <= a.Length
      invariant a[..i] == Sort(less, s[..i]) && a[i..] == s[i..]
    {
      assert a[i] == a[i..][0] && a[i + 1..] == a[i..][1..];
      assert s[..i + 1][..i] == s[..i] && s[i] == s[i..][0];
      InsertInPlace(a, i, less);
      i := i + 1;
    }
    assert a[..a.Length] == a[..] && s[..a.Length] == s;
  }
}
