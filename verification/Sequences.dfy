/** Finite sequences: filtering, key sets and stable sorting. */
module Sequences {

  function Filter<T(!new)>(s: seq<T>, p: T -> bool): (r: seq<T>)
    ensures forall x :: x in r <==> x in s && p(x)
    ensures |r| <= |s|
  {
    if s == [] then [] else (if p(s[0]) then [s[0]] else []) + Filter(s[1..], p)
  }

  /** The image of `s` under `f`, as a set. */
  function Image<T, K>(s: seq<T>, f: T -> K): (r: set<K>) {
    set i | 0 <= i < |s| :: f(s[i])
  }

  predicate DistinctBy<T, K(==)>(s: seq<T>, f: T -> K) {
    forall i, j :: 0 <= i < j < |s| ==> f(s[i]) != f(s[j])
  }

  predicate NoRepeats<T(==)>(s: seq<T>) {
    forall i, j :: 0 <= i < j < |s| ==> s[i] != s[j]
  }

  predicate SortedBy<T>(s: seq<T>, key: T -> int) {
    forall i, j :: 0 <= i <= j < |s| ==> key(s[i]) <= key(s[j])
  }

  /** `Vec::sort_by_key`: insertion before the first element whose key is not smaller, so the
      sort is stable. */
  function Insert<T>(x: T, s: seq<T>, key: T -> int): (r: seq<T>)
    ensures |r| == |s| + 1
  {
    if s == [] || key(x) <= key(s[0]) then [x] + s else [s[0]] + Insert(x, s[1..], key)
  }

  function Sort<T>(s: seq<T>, key: T -> int): (r: seq<T>)
    ensures |r| == |s|
  {
    if s == [] then [] else Insert(s[0], Sort(s[1..], key), key)
  }

  lemma {:induction false} InsertPermutes<T>(x: T, s: seq<T>, key: T -> int)
    ensures multiset(Insert(x, s, key)) == multiset{x} + multiset(s)
  {
    if s != [] && key(x) > key(s[0]) {
      InsertPermutes(x, s[1..], key);
      assert s == [s[0]] + s[1..];
    }
  }

  lemma {:induction false} SortPermutes<T>(s: seq<T>, key: T -> int)
    ensures multiset(Sort(s, key)) == multiset(s)
  {
    if s != [] {
      SortPermutes(s[1..], key);
      InsertPermutes(s[0], Sort(s[1..], key), key);
      assert s == [s[0]] + s[1..];
    }
  }

  /** Prepending a least element keeps a sequence sorted. */
  lemma ConsSorted<T>(x: T, s: seq<T>, key: T -> int)
    requires SortedBy(s, key)
    requires forall i :: 0 <= i < |s| ==> key(x) <= key(s[i])
    ensures SortedBy([x] + s, key)
  {
    var r := [x] + s;
    forall i, j | 0 <= i <= j < |r| ensures key(r[i]) <= key(r[j]) {
      if i > 0 { assert r[i] == s[i - 1] && r[j] == s[j - 1]; }
    }
  }

  lemma {:induction false} InsertSorted<T>(x: T, s: seq<T>, key: T -> int)
    requires SortedBy(s, key)
    ensures SortedBy(Insert(x, s, key), key)
  {
    if s == [] || key(x) <= key(s[0]) {
      ConsSorted(x, s, key);
    } else {
      var t := Insert(x, s[1..], key);
      InsertSorted(x, s[1..], key);
      InsertPermutes(x, s[1..], key);
      forall i | 0 <= i < |t| ensures key(s[0]) <= key(t[i]) {
        assert t[i] in multiset(t);
        assert t[i] == x || t[i] in s[1..];
      }
      ConsSorted(s[0], t, key);
    }
  }

  lemma {:induction false} SortSorted<T>(s: seq<T>, key: T -> int)
    ensures SortedBy(Sort(s, key), key)
  {
    if s != [] {
      SortSorted(s[1..], key);
      InsertSorted(s[0], Sort(s[1..], key), key);
    }
  }

  /** Whatever a sorted prefix leaves out has no smaller key than anything in the prefix. */
  lemma FrontIsLeast<T>(s: seq<T>, key: T -> int, k: nat, i: nat, u: T)
    requires SortedBy(s, key) && i < k <= |s| && u in s && u !in s[..k]
    ensures key(s[i]) <= key(u)
  {
    var j :| 0 <= j < |s| && s[j] == u;
    assert forall m :: 0 <= m < k ==> s[m] in s[..k];
  }

  /** Pairwise different keys are as many as the elements that carry them. */
  lemma {:induction false} ImageSize<T, K>(s: seq<T>, f: T -> K)
    ensures |Image(s, f)| <= |s|
    ensures DistinctBy(s, f) ==> |Image(s, f)| == |s|
  {
    if s != [] {
      var n := |s| - 1;
      ImageSize(s[..n], f);
      assert Image(s, f) == Image(s[..n], f) + {f(s[n])};
    }
  }

  lemma SubsetSize<T>(a: set<T>, b: set<T>)
    requires a <= b
    ensures |a| <= |b|
    ensures |a| == |b| ==> a == b
  {
    assert b == a + (b - a);
  }

  lemma Assoc<T>(a: seq<T>, b: seq<T>, c: seq<T>)
    ensures (a + b) + c == a + (b + c)
  {
  }

  /** The defining step of `Filter`, without its membership facts. */
  lemma FilterCons<T(!new)>(x: T, s: seq<T>, p: T -> bool)
    ensures Filter([x] + s, p) == (if p(x) then [x] else []) + Filter(s, p)
  {
    assert ([x] + s)[1..] == s;
  }

  lemma {:induction false} FilterConcat<T(!new)>(a: seq<T>, b: seq<T>, p: T -> bool)
    ensures Filter(a + b, p) == Filter(a, p) + Filter(b, p)
  {
    if a == [] {
      assert a + b == b;
    } else {
      FilterConcat(a[1..], b, p);
      assert a + b == [a[0]] + (a[1..] + b);
      FilterCons(a[0], a[1..] + b, p);
      Assoc(if p(a[0]) then [a[0]] else [], Filter(a[1..], p), Filter(b, p));
    }
  }

  function HasKey<T>(key: T -> int, k: int): T -> bool {
    x => key(x) == k
  }

  lemma EitherEmpty<T>(a: seq<T>, b: seq<T>, rest: seq<T>)
    requires a == [] || b == []
    ensures a + (b + rest) == b + (a + rest)
  {
    if a == [] {
      assert a + (b + rest) == b + rest;
    } else {
      assert b + (a + rest) == a + rest;
    }
  }

  lemma {:induction false} InsertKeepsRuns<T(!new)>(x: T, s: seq<T>, key: T -> int, k: int)
    ensures Filter(Insert(x, s, key), HasKey(key, k))
            == (if key(x) == k then [x] else []) + Filter(s, HasKey(key, k))
  {
    var p := HasKey(key, k);
    if s == [] || key(x) <= key(s[0]) {
      FilterCons(x, s, p);
    } else {
      InsertKeepsRuns(x, s[1..], key, k);
      FilterCons(s[0], Insert(x, s[1..], key), p);
      FilterCons(s[0], s[1..], p);
      EitherEmpty(if p(s[0]) then [s[0]] else [], if key(x) == k then [x] else [], Filter(s[1..], p));
      assert s == [s[0]] + s[1..];
    }
  }

  /** Stability: the elements of one key keep their order. */
  lemma {:induction false} SortKeepsRuns<T(!new)>(s: seq<T>, key: T -> int, k: int)
    ensures Filter(Sort(s, key), HasKey(key, k)) == Filter(s, HasKey(key, k))
  {
    if s != [] {
      SortKeepsRuns(s[1..], key, k);
      InsertKeepsRuns(s[0], Sort(s[1..], key), key, k);
    }
  }

  lemma {:induction false} FilterNone<T(!new)>(s: seq<T>, p: T -> bool)
    requires forall x :: x in s ==> !p(x)
    ensures Filter(s, p) == []
  {
    if s != [] {
      FilterNone(s[1..], p);
    }
  }

  lemma {:induction false} FilterAll<T(!new)>(s: seq<T>, p: T -> bool)
    requires forall x :: x in s ==> p(x)
    ensures Filter(s, p) == s
  {
    if s != [] {
      FilterAll(s[1..], p);
    }
  }

  /** A filter keeps all copies of what it keeps. */
  lemma {:induction false} FilterMultiset<T(!new)>(s: seq<T>, p: T -> bool, x: T)
    ensures multiset(Filter(s, p))[x] == if p(x) then multiset(s)[x] else 0
  {
    if s != [] {
      FilterMultiset(s[1..], p, x);
      assert s == [s[0]] + s[1..];
    }
  }

  /** Splitting a sequence by a predicate loses nothing. */
  lemma {:induction false} FilterSplit<T(!new)>(s: seq<T>, p: T -> bool, q: T -> bool)
    requires forall x :: x in s ==> p(x) != q(x)
    ensures |Filter(s, p)| + |Filter(s, q)| == |s|
  {
    if s != [] {
      FilterSplit(s[1..], p, q);
    }
  }

  lemma {:induction false} FilterDistinct<T(!new), K>(s: seq<T>, p: T -> bool, f: T -> K)
    requires DistinctBy(s, f)
    ensures DistinctBy(Filter(s, p), f)
  {
    if s != [] {
      FilterDistinct(s[1..], p, f);
      var t := Filter(s[1..], p);
      forall i | 0 <= i < |t| ensures f(t[i]) != f(s[0]) {
        assert t[i] in s[1..];
      }
    }
  }

  /** Element order does not matter to distinctness. */
  lemma DistinctPermuted<T, K>(s: seq<T>, t: seq<T>, f: T -> K)
    requires DistinctBy(s, f) && multiset(s) == multiset(t)
    ensures DistinctBy(t, f)
  {
    assert |multiset(s)| == |multiset(t)|;
    ImageSize(s, f);
    forall i | 0 <= i < |s| ensures f(s[i]) in Image(t, f) {
      assert s[i] in multiset(t);
    }
    forall i | 0 <= i < |t| ensures f(t[i]) in Image(s, f) {
      assert t[i] in multiset(s);
    }
    assert Image(s, f) == Image(t, f);
    FullImageDistinct(t, f);
  }

  lemma FullImageDistinct<T, K>(t: seq<T>, f: T -> K)
    requires |Image(t, f)| == |t|
    ensures DistinctBy(t, f)
  {
    forall i, j | 0 <= i < j < |t| ensures f(t[i]) != f(t[j]) {
      if f(t[i]) == f(t[j]) {
        var u := t[..j] + t[j + 1..];
        forall k | 0 <= k < |t| ensures f(t[k]) in Image(u, f) {
          if k < j { assert u[k] == t[k]; }
          else if k > j { assert u[k - 1] == t[k]; }
          else { assert u[i] == t[i]; }
        }
        assert Image(t, f) <= Image(u, f);
        SubsetSize(Image(t, f), Image(u, f));
        ImageSize(u, f);
        assert false;
      }
    }
  }
}
