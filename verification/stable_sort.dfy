/**
 * `Array.prototype.sort(compare)` as the catalog uses it: a stable sort under a
 * comparator. A comparator `c` is represented by the relation
 * `le(a, b) := c(a, b) <= 0` ("a may stay in front of b"). The specification is
 * insertion sort, whose result is the one any stable sort must produce; the
 * in-place method is proved to compute it on an array.
 */
module StableSort {

  /** `le` is total and transitive, as every comparator the catalog passes is. */
  ghost predicate TotalPreorder<T(!new)>(le: (T, T) -> bool)
  {
    && (forall a, b :: le(a, b) || le(b, a))
    && (forall a, b, c :: le(a, b) && le(b, c) ==> le(a, c))
  }

  /** Every element may stay in front of every later one. */
  ghost predicate Sorted<T>(s: seq<T>, le: (T, T) -> bool)
  {
    forall i, j :: 0 <= i < j < |s| ==> le(s[i], s[j])
  }

  /** Insert `x`, which came after all of `t`, behind every element it does not have to precede. */
  function InsertLast<T>(t: seq<T>, x: T, le: (T, T) -> bool): seq<T>
  {
    if t == [] then [x]
    else if le(t[|t| - 1], x) then t + [x]
    else InsertLast(t[..|t| - 1], x, le) + [t[|t| - 1]]
  }

  /** The stable sort of `s` under `le`. */
  function Sort<T>(s: seq<T>, le: (T, T) -> bool): seq<T>
  {
    if s == [] then []
    else InsertLast(Sort(s[..|s| - 1], le), s[|s| - 1], le)
  }

  lemma {:induction false} InsertLastPermutes<T>(t: seq<T>, x: T, le: (T, T) -> bool)
    ensures multiset(InsertLast(t, x, le)) == multiset(t) + multiset{x}
  {
    if t != [] && !le(t[|t| - 1], x) {
      InsertLastPermutes(t[..|t| - 1], x, le);
      SnocCounts(t);
    }
  }

  /** The result is a permutation of the input: nothing is added, dropped or duplicated. */
  lemma {:induction false} SortPermutes<T>(s: seq<T>, le: (T, T) -> bool)
    ensures multiset(Sort(s, le)) == multiset(s)
    ensures |Sort(s, le)| == |s|
  {
    if s != [] {
      var init, last := s[..|s| - 1], s[|s| - 1];
      SortPermutes(init, le);
      InsertLastPermutes(Sort(init, le), last, le);
      SnocCounts(s);
      assert |Sort(s, le)| == |multiset(Sort(s, le))|;
    }
  }

  /** Cutting a non-empty list at `j` before or after dropping its last element. */
  lemma SnocSlices<T>(t: seq<T>, j: nat)
    requires j < |t|
    ensures t[..|t| - 1][..j] == t[..j]
    ensures t[j..] == t[..|t| - 1][j..] + [t[|t| - 1]]
  {
  }

  /** Counting the elements of a non-empty list splits off its last one. */
  lemma SnocCounts<T>(s: seq<T>)
    requires s != []
    ensures multiset(s) == multiset(s[..|s| - 1]) + multiset{s[|s| - 1]}
  {
    assert s == s[..|s| - 1] + [s[|s| - 1]];
  }

  /** Appending an element every element may precede keeps a list ordered. */
  lemma AppendSorted<T>(r: seq<T>, z: T, le: (T, T) -> bool)
    requires Sorted(r, le)
    requires forall y :: y in r ==> le(y, z)
    ensures Sorted(r + [z], le)
  {
    forall i, j | 0 <= i < j < |r| + 1 ensures le((r + [z])[i], (r + [z])[j]) {
      if j == |r| {
        assert (r + [z])[i] == r[i];
      }
    }
  }

  /** Inserting adds `x` and nothing else. */
  lemma InsertLastElements<T>(t: seq<T>, x: T, le: (T, T) -> bool)
    ensures forall y :: y in InsertLast(t, x, le) ==> y == x || y in t
  {
    InsertLastPermutes(t, x, le);
    forall y | y in InsertLast(t, x, le) ensures y == x || y in t {
      assert y in multiset(InsertLast(t, x, le));
    }
  }

  lemma {:induction false} InsertLastSorted<T(!new)>(t: seq<T>, x: T, le: (T, T) -> bool)
    requires TotalPreorder(le) && Sorted(t, le)
    ensures Sorted(InsertLast(t, x, le), le)
  {
    if t != [] && !le(t[|t| - 1], x) {
      var init, z := t[..|t| - 1], t[|t| - 1];
      assert Sorted(init, le);
      InsertLastSorted(init, x, le);
      var r := InsertLast(init, x, le);
      assert le(x, z);
      InsertLastElements(init, x, le);
      forall y | y in r ensures le(y, z) {
        if y != x {
          assert y in init;
        }
      }
      AppendSorted(r, z, le);
      assert InsertLast(t, x, le) == r + [z];
    }
  }

  /** The result is ordered: every element may stay in front of every later one. */
  lemma {:induction false} SortSorted<T(!new)>(s: seq<T>, le: (T, T) -> bool)
    requires TotalPreorder(le)
    ensures Sorted(Sort(s, le), le)
  {
    if s != [] {
      SortSorted(s[..|s| - 1], le);
      InsertLastSorted(Sort(s[..|s| - 1], le), s[|s| - 1], le);
    }
  }

  /** The elements of `s` that compare equal to `k` (in both directions), in the order of `s`. */
  function Ties<T>(s: seq<T>, le: (T, T) -> bool, k: T): seq<T>
  {
    if s == [] then []
    else Ties(s[..|s| - 1], le, k) + (if le(s[|s| - 1], k) && le(k, s[|s| - 1]) then [s[|s| - 1]] else [])
  }

  lemma {:induction false} TiesAppend<T>(s: seq<T>, x: T, le: (T, T) -> bool, k: T)
    ensures Ties(s + [x], le, k) == Ties(s, le, k) + Ties([x], le, k)
  {
    assert (s + [x])[..|s + [x]| - 1] == s;
    assert [x][..0] == [];
  }

  lemma {:induction false} InsertLastTies<T(!new)>(t: seq<T>, x: T, le: (T, T) -> bool, k: T)
    requires TotalPreorder(le)
    ensures Ties(InsertLast(t, x, le), le, k) == Ties(t, le, k) + Ties([x], le, k)
  {
    assert [x][..0] == [];
    if t == [] {
    } else if le(t[|t| - 1], x) {
      TiesAppend(t, x, le, k);
    } else {
      var init, z := t[..|t| - 1], t[|t| - 1];
      InsertLastTies(init, x, le, k);
      TiesAppend(InsertLast(init, x, le), z, le, k);
      assert [z][..0] == [];
      // x and z cannot both tie with k, since then z would tie with x
      assert Ties([x], le, k) == [] || Ties([z], le, k) == [];
    }
  }

  /** Stability: among the elements tied with any `k`, the sort keeps the incoming order. */
  lemma {:induction false} SortStable<T(!new)>(s: seq<T>, le: (T, T) -> bool, k: T)
    requires TotalPreorder(le)
    ensures Ties(Sort(s, le), le, k) == Ties(s, le, k)
  {
    if s != [] {
      var init, x := s[..|s| - 1], s[|s| - 1];
      SortStable(init, le, k);
      InsertLastTies(Sort(init, le), x, le, k);
      assert s == init + [x];
      TiesAppend(init, x, le, k);
    }
  }

  /** Sorting an already sorted list leaves it as it is. */
  lemma {:induction false} SortOfSorted<T(!new)>(s: seq<T>, le: (T, T) -> bool)
    requires Sorted(s, le)
    ensures Sort(s, le) == s
  {
    if s != [] {
      var init := s[..|s| - 1];
      assert Sorted(init, le);
      SortOfSorted(init, le);
      assert s == init + [s[|s| - 1]];
      if |init| > 0 {
        assert le(init[|init| - 1], s[|s| - 1]);
      }
    }
  }

  /** `a.sort(compare)` in place: an insertion sort that ends in the specified order. */
  method SortInPlace<T>(a: array<T>, le: (T, T) -> bool)
    modifies a
    ensures a[..] == Sort(old(a[..]), le)
  {
    ghost var s := a[..];
    var i := 0;
    while i < a.Length
      invariant 0 <= i <= a.Length
      invariant a[..i] == Sort(s[..i], le)
      invariant a[i..] == s[i..]
    {
      ghost var before := a[..];
      InsertAt(a, i, le);
      SortExtends(s, before, i, le);
      i := i + 1;
    }
    assert s[..a.Length] == s;
  }

  /** `[...s].sort(compare)`: sort a fresh array holding `s` and read it back. */
  method SortedCopy<T>(s: seq<T>, le: (T, T) -> bool) returns (r: seq<T>)
    ensures r == Sort(s, le)
  {
    var a := new T[|s|](i requires 0 <= i < |s| => s[i]);
    assert a[..] == s;
    SortInPlace(a, le);
    r := a[..];
  }

  /** One step of the insertion sort: move `a[i]` into place within the prefix `a[..i + 1]`. */
  method InsertAt<T>(a: array<T>, i: nat, le: (T, T) -> bool)
    requires i < a.Length
    modifies a
    ensures a[..i + 1] == InsertLast(old(a[..i]), old(a[i]), le)
    ensures a[i + 1..] == old(a[i + 1..])
  {
    ghost var t, tail := a[..i], a[i + 1..];
    var x := a[i];
    var j := ShiftGreater(a, i, x, le);
    a[j] := x;
    Spliced(a[..], t, x, j, tail);
  }

  /** One more element of the input, inserted into the sorted prefix, extends it. */
  lemma SortExtends<T>(s: seq<T>, b: seq<T>, i: nat, le: (T, T) -> bool)
    requires i < |s| == |b| && b[..i] == Sort(s[..i], le) && b[i..] == s[i..]
    ensures InsertLast(b[..i], b[i], le) == Sort(s[..i + 1], le)
    ensures b[i + 1..] == s[i + 1..]
  {
    assert b[i] == b[i..][0] == s[i];
    assert s[..i + 1][..i] == s[..i];
    assert b[i + 1..] == b[i..][1..];
  }

  /** The array after an insertion step, read back: `x` spliced into `t` at `j`, then `tail`. */
  lemma Spliced<T>(b: seq<T>, t: seq<T>, x: T, j: nat, tail: seq<T>)
    requires j <= |t| && |b| == |t| + 1 + |tail| && b[j] == x
    requires forall k :: 0 <= k < j ==> b[k] == t[k]
    requires forall k :: j < k <= |t| ==> b[k] == t[k - 1]
    requires forall k :: |t| < k < |b| ==> b[k] == tail[k - |t| - 1]
    ensures b[..|t| + 1] == t[..j] + [x] + t[j..]
    ensures b[|t| + 1..] == tail
  {
    var r := t[..j] + [x] + t[j..];
    forall k | 0 <= k <= |t| ensures b[k] == r[k] {
      if k > j {
        assert r[k] == t[k - 1];
      } else if k < j {
        assert r[k] == t[k];
      }
    }
  }

  /**
   * The shifting loop of an insertion step: move every element of `a[..i]` that
   * `x` must precede one place to the right, scanning from the back, and return
   * the gap where `x` belongs.
   */
  method ShiftGreater<T>(a: array<T>, i: nat, x: T, le: (T, T) -> bool) returns (j: nat)
    requires i < a.Length
    modifies a
    ensures j <= i
    ensures forall k :: 0 <= k < j ==> a[k] == old(a[k])
    ensures forall k :: j < k <= i ==> a[k] == old(a[k - 1])
    ensures forall k :: i < k < a.Length ==> a[k] == old(a[k])
    ensures InsertLast(old(a[..i]), x, le) == old(a[..i])[..j] + [x] + old(a[..i])[j..]
  {
    ghost var t := a[..i];
    j := i;
    while j > 0 && !le(a[j - 1], x)
      invariant 0 <= j <= i
      invariant forall k :: 0 <= k < j ==> a[k] == t[k]
      invariant forall k :: j < k <= i ==> a[k] == t[k - 1]
      invariant forall k :: i < k < a.Length ==> a[k] == old(a[k])
      invariant forall k :: j <= k < i ==> !le(t[k], x)
    {
      a[j] := a[j - 1];
      j := j - 1;
    }
    InsertBehindGreater(t, x, le, j);
  }

  /**
   * Inserting `x` at the back moves it in front of the trailing run of elements
   * it must precede and leaves it behind the first one it may follow.
   */
  lemma {:induction false} InsertBehindGreater<T>(t: seq<T>, x: T, le: (T, T) -> bool, j: nat)
    requires j <= |t| && (j == 0 || le(t[j - 1], x))
    requires forall k :: j <= k < |t| ==> !le(t[k], x)
    ensures InsertLast(t, x, le) == t[..j] + [x] + t[j..]
  {
    if j == |t| {
      assert t[..j] == t && t[j..] == [];
    } else {
      InsertBehindGreater(t[..|t| - 1], x, le, j);
      SnocSlices(t, j);
    }
  }
}
