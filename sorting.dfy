/**
 * What `Array.prototype.sort(comparefn)` does to a list, for a consistent
 * comparator. ECMAScript requires the sort to be stable: the result is
 * ordered by the comparator and elements the comparator ties keep their
 * relative order. `Sort` below is one such sort (an insertion sort used as
 * the reference definition); `SortUnique` shows that those requirements
 * leave no choice, so any conforming engine produces exactly `Sort`'s
 * result.
 *
 * A comparator is represented by `le`, where `le(a, b)` holds when
 * `comparefn(a, b) <= 0`, that is, when `a` may stay ahead of `b`.
 */
module StableSorting {

  /** A consistent comparator: any two elements are comparable and the
      order is transitive. */
  ghost predicate TotalPreorder<T(!new)>(le: (T, T) -> bool) {
    && (forall a, b :: le(a, b) || le(b, a))
    && (forall a, b, c :: le(a, b) && le(b, c) ==> le(a, c))
  }

  predicate Sorted<T>(s: seq<T>, le: (T, T) -> bool) {
    forall i, j :: 0 <= i < j < |s| ==> le(s[i], s[j])
  }

  /** The comparator returns 0 for `a` and `b`. */
  predicate Tied<T>(le: (T, T) -> bool, a: T, b: T) {
    le(a, b) && le(b, a)
  }

  /** The elements of `s` that tie with `k`, in their order in `s`. A sort
      is stable when it leaves every bucket as it was. */
  function Bucket<T>(s: seq<T>, le: (T, T) -> bool, k: T): seq<T>
  {
    if s == [] then [] else (if Tied(le, s[0], k) then [s[0]] else []) + Bucket(s[1..], le, k)
  }

  /** Places `x` ahead of the first element it may precede. */
  function Insert<T>(x: T, r: seq<T>, le: (T, T) -> bool): (res: seq<T>)
    ensures multiset(res) == multiset(r) + multiset{x}
    ensures |res| == |r| + 1
  {
    if r == [] || le(x, r[0]) then [x] + r
    else
      var res := [r[0]] + Insert(x, r[1..], le);
      assert r == [r[0]] + r[1..];
      res
  }

  /** The sorted list (insertion sort). */
  function Sort<T>(s: seq<T>, le: (T, T) -> bool): (r: seq<T>)
    ensures multiset(r) == multiset(s)
    ensures |r| == |s|
  {
    if s == [] then []
    else
      var r := Insert(s[0], Sort(s[1..], le), le);
      assert s == [s[0]] + s[1..];
      r
  }

  lemma {:induction false} BucketConcat<T>(a: seq<T>, b: seq<T>, le: (T, T) -> bool, k: T)
    ensures Bucket(a + b, le, k) == Bucket(a, le, k) + Bucket(b, le, k)
  {
    if a == [] {
      assert a + b == b;
    } else {
      var ab := a + b;
      assert ab[0] == a[0] && ab[1..] == a[1..] + b;
      BucketConcat(a[1..], b, le, k);
      var h := if Tied(le, a[0], k) then [a[0]] else [];
      assert Bucket(ab, le, k) == h + Bucket(a[1..] + b, le, k);
      assert Bucket(a, le, k) == h + Bucket(a[1..], le, k);
    }
  }

  lemma {:induction false} BucketMember<T>(s: seq<T>, le: (T, T) -> bool, k: T, x: T)
    requires x in Bucket(s, le, k)
    ensures x in s && Tied(le, x, k)
  {
    if x != s[0] || !Tied(le, s[0], k) {
      BucketMember(s[1..], le, k, x);
    }
  }

  lemma {:induction false} InsertSorted<T(!new)>(x: T, r: seq<T>, le: (T, T) -> bool)
    requires TotalPreorder(le) && Sorted(r, le)
    ensures Sorted(Insert(x, r, le), le)
  {
    if r != [] && !le(x, r[0]) {
      var t := Insert(x, r[1..], le);
      InsertSorted(x, r[1..], le);
      forall e | e in t ensures le(r[0], e) {
        assert e in multiset(t);
        if e != x {
          var j :| 0 <= j < |r[1..]| && r[1..][j] == e;
          assert r[j + 1] == e;
        }
      }
      forall i, j | 0 <= i < j < |[r[0]] + t| ensures le(([r[0]] + t)[i], ([r[0]] + t)[j]) {
        if i == 0 {
          assert ([r[0]] + t)[j] == t[j - 1];
          assert t[j - 1] in t;
        } else {
          assert ([r[0]] + t)[i] == t[i - 1] && ([r[0]] + t)[j] == t[j - 1];
        }
      }
    }
  }

  /** Inserting an element ahead of the elements it precedes puts it in
      front of everything it ties with, so buckets see it first. */
  lemma {:induction false} InsertBucket<T(!new)>(x: T, r: seq<T>, le: (T, T) -> bool, k: T)
    requires TotalPreorder(le)
    ensures Bucket(Insert(x, r, le), le, k) == Bucket([x] + r, le, k)
  {
    if r != [] && !le(x, r[0]) {
      var y, rest := r[0], r[1..];
      var hx, hy := Bucket([x], le, k), Bucket([y], le, k);
      InsertBucket(x, rest, le, k);
      BucketConcat([y], Insert(x, rest, le), le, k);
      BucketConcat([x], rest, le, k);
      BucketConcat([y], rest, le, k);
      BucketConcat([x], r, le, k);
      assert r == [y] + rest;
      // `x` and `y` cannot both tie with `k`, or `x` could precede `y`.
      assert !(Tied(le, x, k) && Tied(le, y, k));
      assert hx == [] || hy == [];
      calc {
        Bucket(Insert(x, r, le), le, k);
        hy + Bucket(Insert(x, rest, le), le, k);
        hy + (hx + Bucket(rest, le, k));
        hx + (hy + Bucket(rest, le, k));
        Bucket([x] + r, le, k);
      }
    }
  }

  /** `Sort` meets the three requirements on a sort with a consistent
      comparator: a permutation, ordered, and stable. */
  lemma {:induction false} SortCorrect<T(!new)>(s: seq<T>, le: (T, T) -> bool)
    requires TotalPreorder(le)
    ensures multiset(Sort(s, le)) == multiset(s)
    ensures Sorted(Sort(s, le), le)
    ensures forall k :: Bucket(Sort(s, le), le, k) == Bucket(s, le, k)
  {
    if s != [] {
      SortCorrect(s[1..], le);
      InsertSorted(s[0], Sort(s[1..], le), le);
      forall k ensures Bucket(Sort(s, le), le, k) == Bucket(s, le, k) {
        InsertBucket(s[0], Sort(s[1..], le), le, k);
        BucketConcat([s[0]], Sort(s[1..], le), le, k);
        BucketConcat([s[0]], s[1..], le, k);
        assert s == [s[0]] + s[1..];
      }
    }
  }

  /** Two ordered lists with the same buckets are the same list. */
  lemma {:induction false} SameBucketsSame<T(!new)>(r1: seq<T>, r2: seq<T>, le: (T, T) -> bool)
    requires TotalPreorder(le) && Sorted(r1, le) && Sorted(r2, le)
    requires forall k :: Bucket(r1, le, k) == Bucket(r2, le, k)
    ensures r1 == r2
    decreases |r1| + |r2|
  {
    if r1 != [] {
      assert Tied(le, r1[0], r1[0]);
      assert Bucket(r1, le, r1[0]) != [];
    }
    if r2 != [] {
      assert Tied(le, r2[0], r2[0]);
      assert Bucket(r2, le, r2[0]) != [];
    }
    if r1 != [] && r2 != [] {
      var a, b := r1[0], r2[0];
      assert Tied(le, a, a) && Tied(le, b, b);
      assert Bucket(r1, le, a)[0] == a;
      assert Bucket(r2, le, b)[0] == b;
      assert a in Bucket(r2, le, a);
      BucketMember(r2, le, a, a);
      assert b in Bucket(r1, le, b);
      BucketMember(r1, le, b, b);
      assert le(b, a) by {
        var j :| 0 <= j < |r2| && r2[j] == a;
        if j > 0 { assert le(r2[0], r2[j]); }
      }
      assert le(a, b) by {
        var j :| 0 <= j < |r1| && r1[j] == b;
        if j > 0 { assert le(r1[0], r1[j]); }
      }
      assert Bucket(r2, le, a)[0] == b;
      assert a == b;
      forall k ensures Bucket(r1[1..], le, k) == Bucket(r2[1..], le, k) {
        var p := if Tied(le, a, k) then [a] else [];
        assert Bucket(r1, le, k) == p + Bucket(r1[1..], le, k);
        assert Bucket(r2, le, k) == p + Bucket(r2[1..], le, k);
        assert Bucket(r1[1..], le, k) == Bucket(r1, le, k)[|p|..];
        assert Bucket(r2[1..], le, k) == Bucket(r2, le, k)[|p|..];
      }
      SameBucketsSame(r1[1..], r2[1..], le);
      assert r1 == [a] + r1[1..] && r2 == [b] + r2[1..];
    }
  }

  /** The ordering and stability requirements determine the result: any
      ordered list that keeps every bucket of `s` is `Sort(s)`. */
  lemma SortUnique<T(!new)>(s: seq<T>, r: seq<T>, le: (T, T) -> bool)
    requires TotalPreorder(le) && Sorted(r, le)
    requires forall k :: Bucket(r, le, k) == Bucket(s, le, k)
    ensures r == Sort(s, le)
  {
    SortCorrect(s, le);
    SameBucketsSame(r, Sort(s, le), le);
  }
}
