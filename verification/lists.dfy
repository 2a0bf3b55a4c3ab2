/** Sequence helpers the manager is built from: Python's prefix slice,
    filtering, counting, first-occurrence de-duplication, and the stable
    descending sort that `list.sort(key=..., reverse=True)` performs. */
module Lists {

  /** Python's `xs[:k]`, including negative `k` (counted from the end). */
  function PyTake<T>(xs: seq<T>, k: int): (r: seq<T>)
    ensures |r| <= |xs| && r == xs[..|r|]
    ensures k >= 0 ==> |r| == if k <= |xs| then k else |xs|
    ensures k < 0 ==> |r| == if |xs| + k >= 0 then |xs| + k else 0
  {
    if k >= 0 then (if k <= |xs| then xs[..k] else xs)
    else if |xs| + k >= 0 then xs[..|xs| + k] else []
  }

  /** `[f(x) for x in xs]`. */
  function Map<A, B>(xs: seq<A>, f: A -> B): (r: seq<B>)
    ensures |r| == |xs|
    ensures forall i :: 0 <= i < |xs| ==> r[i] == f(xs[i])
  {
    seq(|xs|, i requires 0 <= i < |xs| => f(xs[i]))
  }

  /** The elements of `xs` that satisfy `keep`, in order. */
  function Filter<T(!new)>(xs: seq<T>, keep: T -> bool): (r: seq<T>)
    ensures |r| <= |xs|
    ensures forall x :: x in r <==> x in xs && keep(x)
  {
    if xs == [] then []
    else (if keep(xs[0]) then [xs[0]] else []) + Filter(xs[1..], keep)
  }

  /** How often `x` occurs in `xs` (what `Counter` records). */
  function Count<T(==)>(xs: seq<T>, x: T): (n: nat)
    ensures n == multiset(xs)[x]
  {
    if xs == [] then 0
    else
      assert xs == [xs[0]] + xs[1..];
      (if xs[0] == x then 1 else 0) + Count(xs[1..], x)
  }

  predicate NoDuplicates<T(==)>(xs: seq<T>) {
    forall i, j :: 0 <= i < j < |xs| ==> xs[i] != xs[j]
  }

  /** Each distinct element once, in order of first occurrence (the key
      order of a `Counter` built from `xs`). */
  function Distinct<T(==,!new)>(xs: seq<T>): (r: seq<T>)
    ensures NoDuplicates(r)
    ensures forall x :: x in r <==> x in xs
    decreases |xs|
  {
    if xs == [] then []
    else
      var d := Distinct(xs[..|xs| - 1]);
      var last := xs[|xs| - 1];
      assert forall x :: x in xs <==> x in xs[..|xs| - 1] || x == last by {
        assert xs == xs[..|xs| - 1] + [last];
      }
      if last in d then d else d + [last]
  }

  predicate SortedDesc<T>(xs: seq<T>, key: T -> int) {
    forall i, j :: 0 <= i < j < |xs| ==> key(xs[i]) >= key(xs[j])
  }

  /** Inserts `x` ahead of the first element whose key it reaches. */
  function Insert<T>(x: T, ys: seq<T>, key: T -> int): seq<T> {
    if ys == [] || key(x) >= key(ys[0]) then [x] + ys
    else [ys[0]] + Insert(x, ys[1..], key)
  }

  /** Where `Insert` puts `x`: after exactly the leading elements whose key
      is larger. */
  function Position<T>(x: T, ys: seq<T>, key: T -> int): (i: nat)
    ensures i <= |ys|
    ensures forall j :: 0 <= j < i ==> key(ys[j]) > key(x)
    ensures i < |ys| ==> key(ys[i]) <= key(x)
  {
    if ys == [] || key(x) >= key(ys[0]) then 0
    else 1 + Position(x, ys[1..], key)
  }

  lemma {:induction false} InsertAt<T>(x: T, ys: seq<T>, key: T -> int)
    ensures var i := Position(x, ys, key); Insert(x, ys, key) == ys[..i] + [x] + ys[i..]
  {
    if ys != [] && key(x) < key(ys[0]) {
      InsertAt(x, ys[1..], key);
      var i := Position(x, ys[1..], key);
      assert ys[..i + 1] == [ys[0]] + ys[1..][..i];
      assert ys[i + 1..] == ys[1..][i..];
    }
  }

  /** Inserting into a descending sequence keeps it descending and adds
      exactly `x`. */
  lemma InsertSorted<T(!new)>(x: T, ys: seq<T>, key: T -> int)
    requires SortedDesc(ys, key)
    ensures SortedDesc(Insert(x, ys, key), key)
    ensures multiset(Insert(x, ys, key)) == multiset(ys) + multiset{x}
  {
    var i := Position(x, ys, key);
    InsertAt(x, ys, key);
    var a, b := ys[..i], ys[i..];
    assert ys == a + b;
    assert forall j :: 0 <= j < |a| ==> a[j] == ys[j];
    SortedSplice(a, x, b, key);
    SpliceMultiset(a, x, b);
  }

  lemma SpliceMultiset<T>(a: seq<T>, x: T, b: seq<T>)
    ensures multiset(a + [x] + b) == multiset(a + b) + multiset{x}
  {
    assert multiset(a + [x] + b) == multiset(a) + multiset{x} + multiset(b);
  }

  /** Placing `x` between a part whose keys are larger and a part whose
      keys are no larger keeps a descending sequence descending. */
  lemma SortedSplice<T>(a: seq<T>, x: T, b: seq<T>, key: T -> int)
    requires SortedDesc(a + b, key)
    requires forall j :: 0 <= j < |a| ==> key(a[j]) > key(x)
    requires b != [] ==> key(b[0]) <= key(x)
    ensures SortedDesc(a + [x] + b, key)
  {
    var ab := a + b;
    var r := a + [x] + b;
    forall p, q | 0 <= p < q < |r|
      ensures key(r[p]) >= key(r[q])
    {
      if q < |a| {
        assert r[p] == ab[p] && r[q] == ab[q];
      } else if q == |a| {
        assert r[q] == x && r[p] == a[p];
      } else if p == |a| {
        assert r[p] == x && r[q] == ab[q - 1];
        assert ab[|a|] == b[0];
      } else if p < |a| {
        assert r[p] == ab[p] && r[q] == ab[q - 1];
      } else {
        assert r[p] == ab[p - 1] && r[q] == ab[q - 1];
      }
    }
  }

  /** A stable sort into non-increasing key order: the effect of
      `xs.sort(key=key, reverse=True)`. */
  function SortDesc<T(!new)>(xs: seq<T>, key: T -> int): (r: seq<T>)
    ensures SortedDesc(r, key)
    ensures multiset(r) == multiset(xs)
    ensures |r| == |xs|
    decreases |xs|
  {
    if xs == [] then [] else
      assert xs == [xs[0]] + xs[1..];
      var rest := SortDesc(xs[1..], key);
      InsertSorted(xs[0], rest, key);
      Insert(xs[0], rest, key)
  }

  /** The elements whose key is `k`, in order. */
  function WithKey<T>(xs: seq<T>, key: T -> int, k: int): seq<T> {
    if xs == [] then []
    else (if key(xs[0]) == k then [xs[0]] else []) + WithKey(xs[1..], key, k)
  }

  lemma {:induction false} WithKeyAppend<T>(a: seq<T>, b: seq<T>, key: T -> int, k: int)
    ensures WithKey(a + b, key, k) == WithKey(a, key, k) + WithKey(b, key, k)
  {
    if a == [] {
      assert a + b == b;
    } else {
      var h := if key(a[0]) == k then [a[0]] else [];
      assert (a + b)[0] == a[0];
      assert (a + b)[1..] == a[1..] + b;
      assert WithKey(a + b, key, k) == h + WithKey(a[1..] + b, key, k);
      assert WithKey(a, key, k) == h + WithKey(a[1..], key, k);
      WithKeyAppend(a[1..], b, key, k);
      assert h + (WithKey(a[1..], key, k) + WithKey(b, key, k))
          == (h + WithKey(a[1..], key, k)) + WithKey(b, key, k);
    }
  }

  lemma {:induction false} WithKeyAbove<T>(a: seq<T>, key: T -> int, k: int)
    requires forall j :: 0 <= j < |a| ==> key(a[j]) > k
    ensures WithKey(a, key, k) == []
  {
    if a != [] {
      WithKeyAbove(a[1..], key, k);
    }
  }

  lemma WithKeyInsert<T>(x: T, ys: seq<T>, key: T -> int, k: int)
    ensures WithKey(Insert(x, ys, key), key, k) == (if key(x) == k then [x] else []) + WithKey(ys, key, k)
  {
    var i := Position(x, ys, key);
    InsertAt(x, ys, key);
    var a, b := ys[..i], ys[i..];
    assert ys == a + b;
    WithKeyAppend(a + [x], b, key, k);
    WithKeyAppend(a, [x], key, k);
    WithKeyAppend(a, b, key, k);
    assert [x][1..] == [];
    assert WithKey([x], key, k) == (if key(x) == k then [x] else []);
    if key(x) == k {
      WithKeyAbove(a, key, k);
      assert WithKey(a, key, k) == [];
    }
  }

  /** Stability: the sort never reorders elements with equal keys. */
  lemma {:induction false} SortDescStable<T(!new)>(xs: seq<T>, key: T -> int, k: int)
    ensures WithKey(SortDesc(xs, key), key, k) == WithKey(xs, key, k)
    decreases |xs|
  {
    if xs != [] {
      SortDescStable(xs[1..], key, k);
      WithKeyInsert(xs[0], SortDesc(xs[1..], key), key, k);
    }
  }

  /** The sorted sequence holds the same elements. */
  lemma SortDescMembers<T(!new)>(xs: seq<T>, key: T -> int)
    ensures forall x :: x in SortDesc(xs, key) <==> x in xs
  {
    var r := SortDesc(xs, key);
    assert forall x :: x in r <==> x in multiset(r);
  }

  lemma {:induction false} NoDuplicatesCount<T>(a: seq<T>, v: T)
    requires NoDuplicates(a)
    ensures multiset(a)[v] <= 1
  {
    if a != [] {
      assert a == [a[0]] + a[1..];
      assert NoDuplicates(a[1..]);
      NoDuplicatesCount(a[1..], v);
      if a[0] == v {
        assert v !in a[1..];
      }
    }
  }

  /** Reordering cannot create duplicates. */
  lemma PermutationNoDuplicates<T>(a: seq<T>, b: seq<T>)
    requires multiset(a) == multiset(b) && NoDuplicates(a)
    ensures NoDuplicates(b)
  {
    forall i, j | 0 <= i < j < |b|
      ensures b[i] != b[j]
    {
      if b[i] == b[j] {
        var v := b[i];
        assert b == b[..j] + b[j..];
        assert v in b[..j] && v in b[j..];
        assert multiset(b)[v] == multiset(b[..j])[v] + multiset(b[j..])[v];
        NoDuplicatesCount(a, v);
        assert false;
      }
    }
  }

  /** `Counter(xs).most_common(n)`, keys only: the distinct elements by
      non-increasing count, ties in order of first occurrence, at most `n`
      of them. */
  function MostCommon<T(==,!new)>(xs: seq<T>, n: nat): seq<T> {
    PyTake(SortDesc(Distinct(xs), x => Count(xs, x)), n)
  }

  /** The ranking is over distinct elements that do occur. */
  lemma MostCommonMembers<T(!new)>(xs: seq<T>, n: nat)
    ensures var r := MostCommon(xs, n);
      && |r| == (if n <= |Distinct(xs)| then n else |Distinct(xs)|)
      && NoDuplicates(r)
      && (forall x :: x in r ==> x in xs)
  {
    var s := SortDesc(Distinct(xs), x => Count(xs, x));
    SortDescMembers(Distinct(xs), x => Count(xs, x));
    PermutationNoDuplicates(Distinct(xs), s);
  }

  /** The ranking is by non-increasing count, and nothing left out occurs
      more often than anything chosen. */
  lemma MostCommonRanked<T(!new)>(xs: seq<T>, n: nat)
    ensures var r := MostCommon(xs, n);
      && (forall i, j :: 0 <= i < j < |r| ==> Count(xs, r[i]) >= Count(xs, r[j]))
      && (forall x, y :: x in r && y in xs && y !in r ==> Count(xs, y) <= Count(xs, x))
  {
    var key := x => Count(xs, x);
    var s := SortDesc(Distinct(xs), key);
    var r := MostCommon(xs, n);
    assert r == s[..|r|];
    SortDescMembers(Distinct(xs), key);
    forall x, y | x in r && y in xs && y !in r
      ensures Count(xs, y) <= Count(xs, x)
    {
      var p :| 0 <= p < |r| && r[p] == x;
      var q :| 0 <= q < |s| && s[q] == y;
      assert key(s[p]) >= key(s[q]);
    }
  }

  /** `most_common(1)[0]` occurs at least as often as anything else. */
  lemma MostCommonFirst<T(!new)>(xs: seq<T>)
    requires xs != []
    ensures |MostCommon(xs, 1)| == 1
    ensures forall y :: y in xs ==> Count(xs, y) <= Count(xs, MostCommon(xs, 1)[0])
  {
    MostCommonMembers(xs, 1);
    MostCommonRanked(xs, 1);
    assert xs[0] in Distinct(xs);
    var top := MostCommon(xs, 1)[0];
    forall y | y in xs
      ensures Count(xs, y) <= Count(xs, top)
    {
      if y != top {
        assert y !in MostCommon(xs, 1);
      }
    }
  }
}
