/**
 * `list.sort(key=key, reverse=True)`: Python's sort is stable, and with
 * `reverse=True` elements of equal key keep their original order. It is
 * modelled by an insertion sort; `SortDescUnique` shows that every stable
 * descending sort yields the same list, so the choice of algorithm does not
 * matter.
 */
module StableSort {

  /** `xs` is non-increasing in `key`. */
  ghost predicate SortedDesc<T>(xs: seq<T>, key: T -> int) {
    forall i, j :: 0 <= i < j < |xs| ==> key(xs[i]) >= key(xs[j])
  }

  /** The elements of `xs` whose key is `v`, in their order in `xs`. */
  function WithKey<T>(xs: seq<T>, key: T -> int, v: int): seq<T> {
    if xs == [] then []
    else (if key(xs[0]) == v then [xs[0]] else []) + WithKey(xs[1..], key, v)
  }

  /** `x` placed after every element whose key is greater, before the rest. */
  function Insert<T>(x: T, ys: seq<T>, key: T -> int): seq<T> {
    if ys == [] then [x]
    else if key(ys[0]) > key(x) then [ys[0]] + Insert(x, ys[1..], key)
    else [x] + ys
  }

  /** `sorted(xs, key=key, reverse=True)` */
  function SortDesc<T>(xs: seq<T>, key: T -> int): seq<T> {
    if xs == [] then [] else Insert(xs[0], SortDesc(xs[1..], key), key)
  }

  lemma {:induction false} InsertPermutes<T>(x: T, ys: seq<T>, key: T -> int)
    ensures multiset(Insert(x, ys, key)) == multiset(ys) + multiset{x}
    ensures |Insert(x, ys, key)| == |ys| + 1
  {
    if ys != [] && key(ys[0]) > key(x) {
      InsertPermutes(x, ys[1..], key);
      assert ys == [ys[0]] + ys[1..];
    }
  }

  lemma {:induction false} InsertSorted<T>(x: T, ys: seq<T>, key: T -> int)
    requires SortedDesc(ys, key)
    ensures SortedDesc(Insert(x, ys, key), key)
  {
    if ys != [] && key(ys[0]) > key(x) {
      var rest := ys[1..];
      InsertSorted(x, rest, key);
      InsertPermutes(x, rest, key);
      var r := Insert(x, rest, key);
      forall k | 0 <= k < |r| ensures key(ys[0]) >= key(r[k]) {
        assert r[k] in multiset(r);
        if r[k] != x {
          assert r[k] in multiset(rest);
          var j :| 0 <= j < |rest| && rest[j] == r[k];
          assert rest[j] == ys[j + 1];
        }
      }
      assert Insert(x, ys, key) == [ys[0]] + r;
    }
  }

  lemma {:induction false} InsertWithKey<T>(x: T, ys: seq<T>, key: T -> int, v: int)
    ensures WithKey(Insert(x, ys, key), key, v) == (if key(x) == v then [x] else []) + WithKey(ys, key, v)
  {
    if ys != [] && key(ys[0]) > key(x) {
      InsertWithKey(x, ys[1..], key, v);
      assert ([ys[0]] + Insert(x, ys[1..], key))[1..] == Insert(x, ys[1..], key);
    } else {
      assert ([x] + ys)[1..] == ys;
    }
  }

  /** The sorted list is non-increasing in the key. */
  lemma {:induction false} SortDescSorted<T>(xs: seq<T>, key: T -> int)
    ensures SortedDesc(SortDesc(xs, key), key)
  {
    if xs != [] {
      SortDescSorted(xs[1..], key);
      InsertSorted(xs[0], SortDesc(xs[1..], key), key);
    }
  }

  /** The sorted list holds exactly the elements of `xs`, as many times each. */
  lemma {:induction false} SortDescPermutes<T>(xs: seq<T>, key: T -> int)
    ensures multiset(SortDesc(xs, key)) == multiset(xs)
    ensures |SortDesc(xs, key)| == |xs|
  {
    if xs != [] {
      SortDescPermutes(xs[1..], key);
      SortDescSorted(xs[1..], key);
      InsertPermutes(xs[0], SortDesc(xs[1..], key), key);
      assert xs == [xs[0]] + xs[1..];
    }
  }

  /** The sort is stable: the elements of each key keep their order in `xs`. */
  lemma {:induction false} SortDescStable<T>(xs: seq<T>, key: T -> int, v: int)
    ensures WithKey(SortDesc(xs, key), key, v) == WithKey(xs, key, v)
  {
    if xs != [] {
      SortDescStable(xs[1..], key, v);
      InsertWithKey(xs[0], SortDesc(xs[1..], key), key, v);
    }
  }

  lemma {:induction false} WithKeyHas<T>(xs: seq<T>, key: T -> int, i: nat)
    requires i < |xs|
    ensures xs[i] in WithKey(xs, key, key(xs[i]))
  {
    if i > 0 {
      WithKeyHas(xs[1..], key, i - 1);
    }
  }

  lemma {:induction false} WithKeyFrom<T>(xs: seq<T>, key: T -> int, v: int, y: T)
    requires y in WithKey(xs, key, v)
    ensures key(y) == v && y in xs
  {
    if xs != [] && !(key(xs[0]) == v && y == xs[0]) {
      WithKeyFrom(xs[1..], key, v, y);
    }
  }

  /**
   * A list sorted by descending key is fixed by its elements of each key in
   * their order: any two stable descending sorts of one list agree.
   */
  lemma {:induction false} SortDescUnique<T>(a: seq<T>, b: seq<T>, key: T -> int)
    requires SortedDesc(a, key) && SortedDesc(b, key)
    requires forall v :: WithKey(a, key, v) == WithKey(b, key, v)
    ensures a == b
    decreases |a|
  {
    if a != [] {
      WithKeyHas(a, key, 0);
      var va := key(a[0]);
      assert b != [] by {
        assert WithKey(b, key, va) != [];
      }
      var vb := key(b[0]);
      WithKeyHas(b, key, 0);
      WithKeyFrom(a, key, vb, b[0]);
      WithKeyFrom(b, key, va, a[0]);
      assert va == vb;
      assert a[0] == b[0] by {
        assert WithKey(a, key, va)[0] == a[0];
        assert WithKey(b, key, va)[0] == b[0];
      }
      forall v ensures WithKey(a[1..], key, v) == WithKey(b[1..], key, v) {
        var head := if key(a[0]) == v then [a[0]] else [];
        assert head + WithKey(a[1..], key, v) == head + WithKey(b[1..], key, v) by {
          assert WithKey(a, key, v) == WithKey(b, key, v);
        }
        assert (head + WithKey(a[1..], key, v))[|head|..] == WithKey(a[1..], key, v);
        assert (head + WithKey(b[1..], key, v))[|head|..] == WithKey(b[1..], key, v);
      }
      SortDescUnique(a[1..], b[1..], key);
      assert a == [a[0]] + a[1..] && b == [b[0]] + b[1..];
    }
  }

  /** Every stable descending sort of `xs` is `SortDesc(xs, key)`. */
  lemma SortDescIsTheStableSort<T>(xs: seq<T>, ys: seq<T>, key: T -> int)
    requires SortedDesc(ys, key)
    requires forall v :: WithKey(ys, key, v) == WithKey(xs, key, v)
    ensures ys == SortDesc(xs, key)
  {
    SortDescSorted(xs, key);
    forall v ensures WithKey(ys, key, v) == WithKey(SortDesc(xs, key), key, v) {
      SortDescStable(xs, key, v);
    }
    SortDescUnique(ys, SortDesc(xs, key), key);
  }
}
