/** Values and small facts shared by every component.

    A Rust `String` is modelled by its UTF-8 bytes, one `char` per byte, so
    lengths and comparisons are the byte-wise ones of the program. */
module Prelude {

  datatype Option<+T> = None | Some(value: T)

  datatype Result<+T, +E> = Ok(value: T) | Err(error: E)

  type Byte = b: int | 0 <= b < 256

  type Bytes = seq<Byte>

  const U64_MAX: nat := 0xFFFF_FFFF_FFFF_FFFF

  predicate NoDup<T(==)>(s: seq<T>) {
    forall i, j :: 0 <= i < j < |s| ==> s[i] != s[j]
  }

  function SetOf<T(==)>(s: seq<T>): set<T> {
    set x | x in s
  }

  /** A duplicate-free sequence is exactly as long as its set of elements. */
  lemma {:induction false} NoDupSize<T>(s: seq<T>)
    requires NoDup(s)
    ensures |SetOf(s)| == |s|
  {
    if s != [] {
      var n := |s| - 1;
      var init, last := s[..n], s[n];
      NoDupSize(init);
      assert s == init + [last];
      assert last !in init by {
        forall i | 0 <= i < n ensures init[i] != last { assert s[i] != s[n]; }
      }
      assert SetOf(s) == SetOf(init) + {last};
      assert last !in SetOf(init);
    }
  }

  lemma {:induction false} SubsetSize<T>(a: set<T>, b: set<T>)
    requires a <= b
    ensures |a| <= |b|
    ensures |a| == |b| ==> a == b
  {
    if a != {} {
      var x :| x in a;
      SubsetSize(a - {x}, b - {x});
    }
  }

  lemma {:induction false} SetOfSize<T>(s: seq<T>)
    ensures |SetOf(s)| <= |s|
  {
    if s != [] {
      var init := s[..|s| - 1];
      SetOfSize(init);
      assert SetOf(s) == SetOf(init) + {s[|s| - 1]};
    }
  }

  lemma NoDupExactly<T>(s: seq<T>)
    ensures NoDup(s) <==> |SetOf(s)| == |s|
    decreases |s|
  {
    if NoDup(s) {
      NoDupSize(s);
    } else {
      var i, j :| 0 <= i < j < |s| && s[i] == s[j];
      var t := s[..j] + s[j + 1..];
      assert forall x :: x in s <==> x in t by {
        forall x | x in s ensures x in t {
          var k :| 0 <= k < |s| && s[k] == x;
          assert k < j ==> t[k] == x;
          assert k == j ==> t[i] == x;
          assert k > j ==> t[k - 1] == x;
        }
      }
      assert SetOf(s) == SetOf(t);
      SetOfSize(t);
    }
  }

  lemma SameBagNoDup<T>(a: seq<T>, b: seq<T>)
    requires multiset(a) == multiset(b) && NoDup(b)
    ensures NoDup(a) && SetOf(a) == SetOf(b)
  {
    assert |a| == |multiset(a)| == |multiset(b)| == |b|;
    forall x ensures x in a <==> x in b {
      assert x in a <==> x in multiset(a);
    }
    assert SetOf(a) == SetOf(b);
    NoDupSize(b);
    NoDupExactly(a);
  }

  /** As many distinct elements as `b` is long, all from `b`, are all of `b`. */
  lemma CoversAll<T>(a: seq<T>, b: seq<T>)
    requires NoDup(a) && SetOf(a) <= SetOf(b) && |a| == |b|
    ensures SetOf(a) == SetOf(b)
  {
    NoDupSize(a);
    SetOfSize(b);
    SubsetSize(SetOf(a), SetOf(b));
  }

  /** Elements of `s` that satisfy `keep`, in their order (`retain`, `filter`). */
  function Filter<T(!new)>(s: seq<T>, keep: T -> bool): (r: seq<T>)
    ensures forall x :: x in r <==> x in s && keep(x)
  {
    if s == [] then []
    else (if keep(s[0]) then [s[0]] else []) + Filter(s[1..], keep)
  }

  lemma {:induction false} FilterNoDup<T(!new)>(s: seq<T>, keep: T -> bool)
    requires NoDup(s)
    ensures NoDup(Filter(s, keep))
  {
    if s != [] {
      FilterNoDup(s[1..], keep);
    }
  }

  lemma {:induction false} FilterSnoc<T(!new)>(s: seq<T>, x: T, keep: T -> bool)
    ensures Filter(s + [x], keep) == Filter(s, keep) + (if keep(x) then [x] else [])
  {
    if s == [] {
      assert [] + [x] == [x] && [x][1..] == [];
    } else {
      assert (s + [x])[1..] == s[1..] + [x];
      FilterSnoc(s[1..], x, keep);
    }
  }
}

/** Ordered iteration over a `BTreeMap` or `BTreeSet` with string keys. */
module Ordered {
  import opened Prelude

  /** Byte-wise lexicographic order of Rust strings. */
  predicate Le(a: string, b: string) {
    a == [] || (b != [] && (a[0] < b[0] || (a[0] == b[0] && Le(a[1..], b[1..]))))
  }

  lemma {:induction false} LeTotal(a: string, b: string)
    ensures Le(a, b) || Le(b, a)
    ensures Le(a, b) && Le(b, a) ==> a == b
  {
    if a != [] && b != [] {
      LeTotal(a[1..], b[1..]);
      if Le(a, b) && Le(b, a) {
        assert a == [a[0]] + a[1..] && b == [b[0]] + b[1..];
      }
    }
  }

  lemma {:induction false} LeTransitive(a: string, b: string, c: string)
    requires Le(a, b) && Le(b, c)
    ensures Le(a, c)
  {
    if a != [] && a[0] == b[0] && b[0] == c[0] {
      LeTransitive(a[1..], b[1..], c[1..]);
    }
  }

  predicate Increasing(r: seq<string>) {
    forall i, j :: 0 <= i < j < |r| ==> Le(r[i], r[j])
  }

  predicate IsLeast(x: string, s: set<string>) {
    x in s && forall y :: y in s ==> Le(x, y)
  }

  lemma {:induction false} LeastExists(s: set<string>)
    requires s != {}
    ensures exists x :: IsLeast(x, s)
  {
    var x :| x in s;
    if s == {x} {
      LeTotal(x, x);
      assert IsLeast(x, s);
    } else {
      LeastExists(s - {x});
      var y :| IsLeast(y, s - {x});
      LeTotal(x, y);
      LeTotal(x, x);
      if Le(x, y) {
        forall z | z in s ensures Le(x, z) {
          if z != x { LeTransitive(x, y, z); }
        }
        assert IsLeast(x, s);
      } else {
        assert IsLeast(y, s);
      }
    }
  }

  lemma LeastUnique(s: set<string>, x: string, y: string)
    requires IsLeast(x, s) && IsLeast(y, s)
    ensures x == y
  {
    LeTotal(x, y);
  }

  function Least(s: set<string>): (x: string)
    requires s != {}
    ensures IsLeast(x, s)
  {
    LeastExists(s);
    assert forall x, y | IsLeast(x, s) && IsLeast(y, s) :: x == y by {
      forall x, y | IsLeast(x, s) && IsLeast(y, s) ensures x == y { LeastUnique(s, x, y); }
    }
    var x :| x in s && IsLeast(x, s);
    x
  }

  /** The elements of `s` in increasing order. */
  function Sorted(s: set<string>): (r: seq<string>)
    ensures NoDup(r) && SetOf(r) == s
    ensures Increasing(r)
  {
    if s == {} then []
    else
      var x := Least(s);
      var rest := Sorted(s - {x});
      assert forall y :: y in rest <==> y in SetOf(rest);
      assert SetOf([x] + rest) == {x} + SetOf(rest);
      [x] + rest
  }

  /** Increasing order determines the enumeration of a set. */
  lemma {:induction false} SortedUnique(r: seq<string>)
    requires NoDup(r)
    requires Increasing(r)
    ensures r == Sorted(SetOf(r))
  {
    var s := SetOf(r);
    if r != [] {
      assert r[0] in s;
      LeTotal(r[0], r[0]);
      assert IsLeast(r[0], s);
      LeastUnique(s, r[0], Least(s));
      assert SetOf(r[1..]) == s - {r[0]};
      SortedUnique(r[1..]);
    }
  }

  /** Filtering keeps increasing order. */
  lemma {:induction false} FilterIncreasing(r: seq<string>, keep: string -> bool)
    requires Increasing(r)
    ensures Increasing(Filter(r, keep))
  {
    if r != [] {
      FilterIncreasing(r[1..], keep);
      forall x | x in Filter(r[1..], keep) ensures Le(r[0], x) {
        var j :| 0 <= j < |r[1..]| && r[1..][j] == x;
        assert r[j + 1] == x;
      }
    }
  }

  lemma FilterSorted(s: set<string>, keep: string -> bool)
    ensures Filter(Sorted(s), keep) == Sorted(set x | x in s && keep(x))
  {
    var f := Filter(Sorted(s), keep);
    FilterNoDup(Sorted(s), keep);
    FilterIncreasing(Sorted(s), keep);
    SortedUnique(f);
    assert SetOf(f) == set x | x in s && keep(x) by {
      forall x ensures x in SetOf(f) <==> x in s && keep(x) {
        assert x in Sorted(s) <==> x in SetOf(Sorted(s));
      }
    }
  }

  // ---- Sorting by a key -----------------------------------------------------------

  function Keys<T>(s: seq<T>, key: T -> string): (r: seq<string>)
    ensures |r| == |s| && forall i :: 0 <= i < |s| ==> r[i] == key(s[i])
  {
    if s == [] then [] else [key(s[0])] + Keys(s[1..], key)
  }

  function InsertBy<T>(x: T, s: seq<T>, key: T -> string): seq<T> {
    if s == [] || Le(key(x), key(s[0])) then [x] + s else [s[0]] + InsertBy(x, s[1..], key)
  }

  /** `sort_unstable_by` on a string key. */
  function SortBy<T>(s: seq<T>, key: T -> string): seq<T> {
    if s == [] then [] else InsertBy(s[0], SortBy(s[1..], key), key)
  }

  lemma KeysCons<T>(x: T, s: seq<T>, key: T -> string)
    ensures Keys([x] + s, key) == [key(x)] + Keys(s, key)
  {
    assert ([x] + s)[1..] == s;
  }

  lemma IncreasingCons(k: string, rest: seq<string>)
    ensures Increasing([k] + rest) <==> Increasing(rest) && forall x :: x in rest ==> Le(k, x)
  {
    hide Le;
    var r := [k] + rest;
    if Increasing(r) {
      forall i, j | 0 <= i < j < |rest| ensures Le(rest[i], rest[j]) { assert Le(r[i + 1], r[j + 1]); }
      forall x | x in rest ensures Le(k, x) {
        var i :| 0 <= i < |rest| && rest[i] == x;
        assert Le(r[0], r[i + 1]);
      }
    }
    if Increasing(rest) && forall x :: x in rest ==> Le(k, x) {
      forall i, j | 0 <= i < j < |r| ensures Le(r[i], r[j]) {
        assert r[j] == rest[j - 1] && r[j] in rest;
      }
    }
  }

  lemma {:induction false} InsertByBag<T>(x: T, s: seq<T>, key: T -> string)
    ensures multiset(InsertBy(x, s, key)) == multiset(s) + multiset{x}
    ensures multiset(Keys(InsertBy(x, s, key), key)) == multiset(Keys(s, key)) + multiset{key(x)}
  {
    hide Le, Keys;
    if s == [] || Le(key(x), key(s[0])) {
      KeysCons(x, s, key);
    } else {
      InsertByBag(x, s[1..], key);
      assert s == [s[0]] + s[1..];
      KeysCons(s[0], s[1..], key);
      KeysCons(s[0], InsertBy(x, s[1..], key), key);
    }
  }

  lemma {:induction false} InsertBySorts<T>(x: T, s: seq<T>, key: T -> string)
    requires Increasing(Keys(s, key))
    ensures Increasing(Keys(InsertBy(x, s, key), key))
  {
    hide Le, Keys, Increasing;
    if s == [] {
      KeysCons(x, s, key);
      IncreasingCons(key(x), Keys(s, key));
      assert |Keys(s, key)| == 0;
    } else {
      assert s == [s[0]] + s[1..];
      KeysCons(s[0], s[1..], key);
      IncreasingCons(key(s[0]), Keys(s[1..], key));
      if Le(key(x), key(s[0])) {
        KeysCons(x, s, key);
        forall k | k in Keys(s, key) ensures Le(key(x), k) {
          if k != key(s[0]) { LeTransitive(key(x), key(s[0]), k); }
        }
        IncreasingCons(key(x), Keys(s, key));
      } else {
        var t := InsertBy(x, s[1..], key);
        InsertBySorts(x, s[1..], key);
        InsertByBag(x, s[1..], key);
        KeysCons(s[0], t, key);
        LeTotal(key(x), key(s[0]));
        forall k | k in Keys(t, key) ensures Le(key(s[0]), k) {
          assert k in multiset(Keys(t, key));
        }
        IncreasingCons(key(s[0]), Keys(t, key));
      }
    }
  }

  lemma {:induction false} SortBySorts<T>(s: seq<T>, key: T -> string)
    ensures Increasing(Keys(SortBy(s, key), key))
    ensures multiset(SortBy(s, key)) == multiset(s) && multiset(Keys(SortBy(s, key), key)) == multiset(Keys(s, key))
  {
    hide Le, Keys, InsertBy;
    if s == [] {
      assert |Keys(s, key)| == 0;
    } else {
      hide Increasing;
      SortBySorts(s[1..], key);
      InsertBySorts(s[0], SortBy(s[1..], key), key);
      InsertByBag(s[0], SortBy(s[1..], key), key);
      assert s == [s[0]] + s[1..];
      KeysCons(s[0], s[1..], key);
    }
  }
}
