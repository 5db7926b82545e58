/** `Array.prototype.sort(cmp)` as the app relies on it: a stable sort by a
    comparator that returns a negative number to put its first argument
    first and a positive one to put it second. The specification is
    insertion sort on sequences (`StableSort`); the array method sorts in
    place and is proved to produce it. */
module Sorting {
  import opened Model

  /** Swapping the arguments of `cmp` flips the sign of its answer. */
  predicate Antisymmetric<T>(cmp: (T, T) -> int, x: T, y: T) {
    cmp(x, y) < 0 <==> cmp(y, x) > 0
  }

  /** "Not after" is transitive through `y`. */
  predicate TransitiveThrough<T>(cmp: (T, T) -> int, x: T, y: T, z: T) {
    cmp(x, y) <= 0 && cmp(y, z) <= 0 ==> cmp(x, z) <= 0
  }

  /** What a stable sort needs of its comparator: swapping the arguments
      flips the sign, and "not after" is transitive. */
  ghost predicate ConsistentComparator<T(!new)>(cmp: (T, T) -> int) {
    (forall x, y :: Antisymmetric(cmp, x, y)) &&
    (forall x, y, z :: TransitiveThrough(cmp, x, y, z))
  }

  lemma Flip<T(!new)>(cmp: (T, T) -> int, a: T, b: T)
    requires ConsistentComparator(cmp)
    ensures cmp(a, b) < 0 <==> cmp(b, a) > 0
  {
    assert Antisymmetric(cmp, a, b);
  }

  lemma Trans<T(!new)>(cmp: (T, T) -> int, a: T, b: T, c: T)
    requires ConsistentComparator(cmp)
    requires cmp(a, b) <= 0 && cmp(b, c) <= 0
    ensures cmp(a, c) <= 0
  {
    assert TransitiveThrough(cmp, a, b, c);
  }

  /** No element is put after a later one. */
  ghost predicate Sorted<T>(cmp: (T, T) -> int, s: seq<T>) {
    forall i, j :: 0 <= i < j < |s| ==> cmp(s[i], s[j]) <= 0
  }

  /** The elements the comparator cannot tell apart from `t`. */
  function TiedWith<T>(cmp: (T, T) -> int, t: T): T -> bool {
    (x: T) => cmp(t, x) == 0
  }

  /** A stable reordering: for every element, the elements tied with it
      appear in the same order as before. */
  ghost predicate StableReorder<T(!new)>(cmp: (T, T) -> int, s: seq<T>, r: seq<T>) {
    forall t :: Filter(r, TiedWith(cmp, t)) == Filter(s, TiedWith(cmp, t))
  }

  /** Puts `x` after every element not greater than it, before the first
      greater one. */
  function Insert<T>(cmp: (T, T) -> int, x: T, r: seq<T>): seq<T>
    decreases |r|
  {
    if r == [] then [x]
    else if cmp(r[0], x) > 0 then [x] + r
    else [r[0]] + Insert(cmp, x, r[1..])
  }

  /** The order a stable sort with this comparator produces (insertion sort
      from the left, so ties keep their input order). */
  function StableSort<T>(cmp: (T, T) -> int, s: seq<T>): seq<T>
    decreases |s|
  {
    if s == [] then [] else Insert(cmp, s[|s| - 1], StableSort(cmp, s[..|s| - 1]))
  }

  lemma {:induction false} InsertPermutes<T>(cmp: (T, T) -> int, x: T, r: seq<T>)
    ensures multiset(Insert(cmp, x, r)) == multiset(r) + multiset{x}
    decreases |r|
  {
    if r != [] && cmp(r[0], x) <= 0 {
      InsertPermutes(cmp, x, r[1..]);
      assert r == [r[0]] + r[1..];
    }
  }

  /** The tail of a sorted sequence is sorted. */
  lemma SortedTail<T>(cmp: (T, T) -> int, r: seq<T>)
    requires Sorted(cmp, r) && r != []
    ensures Sorted(cmp, r[1..])
  {
    var tail := r[1..];
    forall a, b | 0 <= a < b < |tail| ensures cmp(tail[a], tail[b]) <= 0 {
      assert tail[a] == r[a + 1] && tail[b] == r[b + 1];
    }
  }

  lemma {:induction false} InsertSorted<T(!new)>(cmp: (T, T) -> int, x: T, r: seq<T>)
    requires ConsistentComparator(cmp) && Sorted(cmp, r)
    ensures Sorted(cmp, Insert(cmp, x, r))
    decreases |r|
  {
    if r == [] {
    } else if cmp(r[0], x) > 0 {
      var s := [x] + r;
      forall i, j | 0 <= i < j < |s| ensures cmp(s[i], s[j]) <= 0 {
        if i == 0 {
          Flip(cmp, r[0], x);
          if j > 1 {
            Trans(cmp, x, r[0], r[j - 1]);
          }
        } else {
          assert s[i] == r[i - 1] && s[j] == r[j - 1];
        }
      }
    } else {
      var rest := Insert(cmp, x, r[1..]);
      SortedTail(cmp, r);
      InsertSorted(cmp, x, r[1..]);
      InsertPermutes(cmp, x, r[1..]);
      var s := [r[0]] + rest;
      forall i, j | 0 <= i < j < |s| ensures cmp(s[i], s[j]) <= 0 {
        if i == 0 {
          assert s[j] in multiset(rest);
          assert s[j] == x || s[j] in r[1..];
        } else {
          assert s[i] == rest[i - 1] && s[j] == rest[j - 1];
        }
      }
    }
  }

  /** Nothing in a sorted `r` that starts with an element greater than `x`
      is tied with an element not greater than `x`. */
  lemma NoTieAfterGreater<T(!new)>(cmp: (T, T) -> int, t: T, x: T, r: seq<T>)
    requires ConsistentComparator(cmp) && Sorted(cmp, r)
    requires r != [] && cmp(r[0], x) > 0 && cmp(t, x) == 0
    ensures Filter(r, TiedWith(cmp, t)) == []
  {
    forall k | 0 <= k < |r| ensures !TiedWith(cmp, t)(r[k]) {
      if cmp(t, r[k]) == 0 {
        Flip(cmp, t, r[k]);
        Flip(cmp, t, x);
        Trans(cmp, r[k], t, x);
        if k > 0 {
          Trans(cmp, r[0], r[k], x);
        }
      }
    }
    FilterDropsAll(r, TiedWith(cmp, t));
  }

  /** Inserting `x` adds it at the end of its tie class and leaves every other
      tie class alone. */
  lemma {:induction false} InsertTies<T(!new)>(cmp: (T, T) -> int, t: T, x: T, r: seq<T>)
    requires ConsistentComparator(cmp) && Sorted(cmp, r)
    ensures Filter(Insert(cmp, x, r), TiedWith(cmp, t)) ==
      Filter(r, TiedWith(cmp, t)) + Filter([x], TiedWith(cmp, t))
    decreases |r|
  {
    var tied := TiedWith(cmp, t);
    assert [x][1..] == [];
    if r == [] {
    } else if cmp(r[0], x) > 0 {
      FilterAppend([x], r, tied);
      if tied(x) {
        NoTieAfterGreater(cmp, t, x, r);
      }
    } else {
      SortedTail(cmp, r);
      InsertTies(cmp, t, x, r[1..]);
      FilterAppend([r[0]], Insert(cmp, x, r[1..]), tied);
      FilterAppend([r[0]], r[1..], tied);
      assert r == [r[0]] + r[1..];
    }
  }

  /** `StableSort` returns a sorted permutation of its input in which tied
      elements keep their input order. */
  lemma {:induction false} StableSortCorrect<T(!new)>(cmp: (T, T) -> int, s: seq<T>)
    requires ConsistentComparator(cmp)
    ensures multiset(StableSort(cmp, s)) == multiset(s)
    ensures Sorted(cmp, StableSort(cmp, s))
    ensures StableReorder(cmp, s, StableSort(cmp, s))
    decreases |s|
  {
    if s != [] {
      var front, x := s[..|s| - 1], s[|s| - 1];
      var sortedFront := StableSort(cmp, front);
      StableSortCorrect(cmp, front);
      InsertPermutes(cmp, x, sortedFront);
      InsertSorted(cmp, x, sortedFront);
      assert s == front + [x];
      forall t ensures Filter(StableSort(cmp, s), TiedWith(cmp, t)) == Filter(s, TiedWith(cmp, t)) {
        InsertTies(cmp, t, x, sortedFront);
        FilterAppend(front, [x], TiedWith(cmp, t));
      }
    }
  }

  /** `Insert` puts `x` at the position `j` where everything before is not
      greater than `x` and everything from `j` on is. */
  lemma {:induction false} InsertAt<T>(cmp: (T, T) -> int, x: T, r: seq<T>, j: nat)
    requires j <= |r|
    requires forall k :: 0 <= k < j ==> cmp(r[k], x) <= 0
    requires forall k :: j <= k < |r| ==> cmp(r[k], x) > 0
    ensures Insert(cmp, x, r) == r[..j] + [x] + r[j..]
    decreases j
  {
    if j == 0 {
      assert r[j..] == r;
    } else {
      var tail := r[1..];
      forall k | 0 <= k < j - 1 ensures cmp(tail[k], x) <= 0 {
        assert tail[k] == r[k + 1];
      }
      forall k | j - 1 <= k < |tail| ensures cmp(tail[k], x) > 0 {
        assert tail[k] == r[k + 1];
      }
      InsertAt(cmp, x, tail, j - 1);
      calc {
        Insert(cmp, x, r);
        [r[0]] + Insert(cmp, x, tail);
        [r[0]] + (tail[..j - 1] + [x] + tail[j - 1..]);
        { assert [r[0]] + tail[..j - 1] == r[..j]; assert tail[j - 1..] == r[j..]; }
        r[..j] + [x] + r[j..];
      }
    }
  }

  /** In a sorted `r`, everything before a place not greater than `x` is not
      greater than `x` either. */
  lemma PrefixNotGreater<T(!new)>(cmp: (T, T) -> int, x: T, r: seq<T>, j: nat)
    requires ConsistentComparator(cmp) && Sorted(cmp, r)
    requires j <= |r| && (j > 0 ==> cmp(r[j - 1], x) <= 0)
    ensures forall k :: 0 <= k < j ==> cmp(r[k], x) <= 0
  {
    forall k | 0 <= k < j - 1 ensures cmp(r[k], x) <= 0 {
      Trans(cmp, r[k], r[j - 1], x);
    }
  }

  /** `r` with its tail from `j` shifted one place right and `x` in the gap. */
  lemma ShiftedIsSplice<T>(s: seq<T>, x: T, r: seq<T>, j: nat)
    requires |s| == |r| + 1 && j <= |r| && s[j] == x
    requires forall k :: 0 <= k < j ==> s[k] == r[k]
    requires forall k :: j < k < |s| ==> s[k] == r[k - 1]
    ensures s == r[..j] + [x] + r[j..]
  {
    var expected := r[..j] + [x] + r[j..];
    forall k | 0 <= k < |s| ensures s[k] == expected[k] {
      if k < j {
        assert expected[k] == r[..j][k];
      } else if j < k {
        assert expected[k] == r[j..][k - j - 1];
      }
    }
  }

  /** A sorted `r` with its greater tail shifted one place right and `x`
      written into the gap is `Insert(x, r)`. */
  lemma ShiftedIsInsert<T(!new)>(cmp: (T, T) -> int, s: seq<T>, x: T, r: seq<T>, j: nat)
    requires ConsistentComparator(cmp) && Sorted(cmp, r)
    requires |s| == |r| + 1 && j <= |r| && s[j] == x
    requires forall k :: 0 <= k < j ==> s[k] == r[k]
    requires forall k :: j < k < |s| ==> s[k] == r[k - 1]
    requires j > 0 ==> cmp(r[j - 1], x) <= 0
    requires forall k :: j <= k < |r| ==> cmp(r[k], x) > 0
    ensures s == Insert(cmp, x, r)
  {
    PrefixNotGreater(cmp, x, r, j);
    InsertAt(cmp, x, r, j);
    ShiftedIsSplice(s, x, r, j);
  }

  /** The state the inner loop of `InsertLast` leaves, `b`, with `o[i]`
      written into the gap at `j`: its first `i + 1` places are
      `Insert(o[i], o[..i])` and the rest is as it was in `o`. */
  lemma GapFilled<T(!new)>(cmp: (T, T) -> int, b: seq<T>, o: seq<T>, i: nat, j: nat)
    requires ConsistentComparator(cmp)
    requires i < |b| == |o| && j <= i && Sorted(cmp, o[..i])
    requires forall k :: 0 <= k < j ==> b[k] == o[k]
    requires forall k :: j < k <= i ==> b[k] == o[k - 1]
    requires forall k :: i < k < |b| ==> b[k] == o[k]
    requires j > 0 ==> cmp(o[j - 1], o[i]) <= 0
    requires forall k :: j <= k < i ==> cmp(o[k], o[i]) > 0
    ensures b[j := o[i]][..i + 1] == Insert(cmp, o[i], o[..i])
    ensures b[j := o[i]][i + 1..] == o[i + 1..]
  {
    var x, r := o[i], o[..i];
    var s := b[j := x][..i + 1];
    forall k | 0 <= k < j ensures s[k] == r[k] {
    }
    forall k | j < k < |s| ensures s[k] == r[k - 1] {
    }
    forall k | j <= k < |r| ensures cmp(r[k], x) > 0 {
    }
    ShiftedIsInsert(cmp, s, x, r, j);
    var after := b[j := x][i + 1..];
    forall k | 0 <= k < |after| ensures after[k] == o[i + 1..][k] {
      assert after[k] == b[i + 1 + k];
    }
  }

  /** One step of the insertion sort: with `a[..i]` sorted, moves `a[i]`
      left past the greater elements; the rest of the array is untouched. */
  method InsertLast<T(!new)>(a: array<T>, i: nat, cmp: (T, T) -> int)
    requires ConsistentComparator(cmp)
    requires i < a.Length && Sorted(cmp, a[..i])
    modifies a
    ensures a[..i + 1] == Insert(cmp, old(a[i]), old(a[..i]))
    ensures a[i + 1..] == old(a[i + 1..])
  {
    ghost var o := a[..];
    var x := a[i];
    var j := i;
    while j > 0 && cmp(a[j - 1], x) > 0
      invariant 0 <= j <= i
      invariant forall k :: 0 <= k < j ==> a[k] == o[k]
      invariant forall k :: j < k <= i ==> a[k] == o[k - 1]
      invariant forall k :: i < k < a.Length ==> a[k] == o[k]
      invariant forall k :: j <= k < i ==> cmp(o[k], x) > 0
    {
      a[j] := a[j - 1];
      j := j - 1;
    }
    ghost var b := a[..];
    GapFilled(cmp, b, o, i, j);
    a[j] := x;
    assert a[..] == b[j := x];
  }

  /** `a.sort(cmp)`: a stable in-place sort, here insertion sort; the result
      is `StableSort` of the old contents. */
  method SortInPlace<T(!new)>(a: array<T>, cmp: (T, T) -> int)
    requires ConsistentComparator(cmp)
    modifies a
    ensures a[..] == StableSort(cmp, old(a[..]))
  {
    ghost var s := a[..];
    var i := 0;
    while i < a.Length
      invariant 0 <= i <= a.Length
      invariant a[..i] == StableSort(cmp, s[..i])
      invariant a[i..] == s[i..]
    {
      StableSortCorrect(cmp, s[..i]);
      InsertLast(a, i, cmp);
      assert s[..i + 1] == s[..i] + [s[i]];
      i := i + 1;
    }
    assert s[..a.Length] == s;
  }
}
