/**
 * The orders in which the views list classes and names, and the stable sort
 * that produces them. The sort takes its comparison as a parameter: `Below`
 * compares strings character by character by code point, as the default
 * `sort` does; a locale's collation is any other total preorder on strings.
 */
module Ordering {
  import opened Seqs

  /** `a` comes no later than `b`: a prefix comes first, otherwise the first differing character decides. */
  predicate Below(a: string, b: string) {
    a == [] || (b != [] && (a[0] < b[0] || (a[0] == b[0] && Below(a[1..], b[1..]))))
  }

  lemma {:induction false} BelowTotal(a: string, b: string)
    ensures Below(a, b) || Below(b, a)
  {
    if a != [] && b != [] && a[0] == b[0] {
      BelowTotal(a[1..], b[1..]);
    }
  }

  lemma {:induction false} BelowTransitive(a: string, b: string, c: string)
    requires Below(a, b) && Below(b, c)
    ensures Below(a, c)
  {
    if a != [] && a[0] == b[0] && b[0] == c[0] {
      BelowTransitive(a[1..], b[1..], c[1..]);
    }
  }

  /** `le` compares any two strings and is transitive, as a consistent comparator is. */
  ghost predicate TotalPreorder(le: (string, string) -> bool) {
    && (forall a, b :: le(a, b) || le(b, a))
    && (forall a, b, c :: le(a, b) && le(b, c) ==> le(a, c))
  }

  /** The code-point order is such a comparison. */
  lemma BelowTotalPreorder()
    ensures TotalPreorder(Below)
  {
    forall a, b ensures Below(a, b) || Below(b, a) { BelowTotal(a, b); }
    forall a, b, c | Below(a, b) && Below(b, c) ensures Below(a, c) { BelowTransitive(a, b, c); }
  }

  /** Every element's key is no later than the keys of the elements after it. */
  ghost predicate SortedBy<T>(xs: seq<T>, key: T -> string, le: (string, string) -> bool) {
    forall i, j :: 0 <= i < j < |xs| ==> le(key(xs[i]), key(xs[j]))
  }

  /** `x` placed into `ys` before the first element whose key is not earlier than its own. */
  function Insert<T>(x: T, ys: seq<T>, key: T -> string, le: (string, string) -> bool): (r: seq<T>)
    ensures multiset(r) == multiset(ys) + multiset{x}
  {
    if ys == [] then [x]
    else if le(key(x), key(ys[0])) then [x] + ys
    else
      assert ys == [ys[0]] + ys[1..];
      [ys[0]] + Insert(x, ys[1..], key, le)
  }

  /** A lower bound of `x` and of every key in `ys` bounds every key after the insertion. */
  lemma InsertLowerBound<T>(x: T, ys: seq<T>, key: T -> string, le: (string, string) -> bool, lo: string)
    requires le(lo, key(x)) && forall j :: 0 <= j < |ys| ==> le(lo, key(ys[j]))
    ensures forall j :: 0 <= j < |Insert(x, ys, key, le)| ==> le(lo, key(Insert(x, ys, key, le)[j]))
  {
    var r := Insert(x, ys, key, le);
    forall j | 0 <= j < |r| ensures le(lo, key(r[j])) {
      assert r[j] in multiset(r);
      if r[j] != x {
        assert r[j] in multiset(ys);
        var m :| 0 <= m < |ys| && ys[m] == r[j];
      }
    }
  }

  lemma {:induction false} InsertSorted<T>(x: T, ys: seq<T>, key: T -> string, le: (string, string) -> bool)
    requires TotalPreorder(le) && SortedBy(ys, key, le)
    ensures SortedBy(Insert(x, ys, key, le), key, le)
  {
    var r := Insert(x, ys, key, le);
    if ys == [] {
    } else if le(key(x), key(ys[0])) {
      forall i, j | 0 <= i < j < |r| ensures le(key(r[i]), key(r[j])) {
        if i == 0 && j > 1 {
          assert le(key(ys[0]), key(ys[j - 1]));
        }
      }
    } else {
      var tail := ys[1..];
      var rest := Insert(x, tail, key, le);
      InsertSorted(x, tail, key, le);
      assert le(key(ys[0]), key(x));
      assert forall j :: 0 <= j < |tail| ==> le(key(ys[0]), key(tail[j])) by {
        forall j | 0 <= j < |tail| ensures le(key(ys[0]), key(tail[j])) {
          assert tail[j] == ys[j + 1];
        }
      }
      InsertLowerBound(x, tail, key, le, key(ys[0]));
      ConsSorted(ys[0], rest, key, le);
      assert r == [ys[0]] + rest;
    }
  }

  /** A sorted sequence stays sorted behind a head no later than all its keys. */
  lemma ConsSorted<T>(h: T, xs: seq<T>, key: T -> string, le: (string, string) -> bool)
    requires SortedBy(xs, key, le) && forall j :: 0 <= j < |xs| ==> le(key(h), key(xs[j]))
    ensures SortedBy([h] + xs, key, le)
  {
    var r := [h] + xs;
    forall i, j | 0 <= i < j < |r| ensures le(key(r[i]), key(r[j])) {
      assert r[j] == xs[j - 1];
      if i > 0 {
        assert r[i] == xs[i - 1];
      }
    }
  }

  /**
   * `xs` sorted by key under the comparison `le`, keeping the original order of
   * equal keys (`Array.prototype.sort` is stable).
   */
  function SortBy<T>(xs: seq<T>, key: T -> string, le: (string, string) -> bool): (r: seq<T>)
    ensures multiset(r) == multiset(xs)
  {
    if xs == [] then []
    else
      assert xs == [xs[0]] + xs[1..];
      Insert(xs[0], SortBy(xs[1..], key, le), key, le)
  }

  /** Under any total preorder the sort's result is ordered by key. */
  lemma {:induction false} SortBySorted<T>(xs: seq<T>, key: T -> string, le: (string, string) -> bool)
    requires TotalPreorder(le)
    ensures SortedBy(SortBy(xs, key, le), key, le)
  {
    if xs != [] {
      SortBySorted(xs[1..], key, le);
      InsertSorted(xs[0], SortBy(xs[1..], key, le), key, le);
    }
  }

  /** A sequence is distinct exactly when every element occurs in it at most once. */
  lemma {:induction false} DistinctMultiset<T>(xs: seq<T>)
    ensures Distinct(xs) <==> forall x :: multiset(xs)[x] <= 1
  {
    if xs != [] {
      var t := xs[1..];
      DistinctMultiset(t);
      assert xs == [xs[0]] + t;
      if Distinct(xs) {
        assert Distinct(t) by {
          forall i, j | 0 <= i < j < |t| ensures t[i] != t[j] {
            assert t[i] == xs[i + 1] && t[j] == xs[j + 1];
          }
        }
        assert xs[0] !in t;
      } else {
        var i, j :| 0 <= i < j < |xs| && xs[i] == xs[j];
        if i == 0 {
          assert xs[j] == t[j - 1];
          assert multiset(xs)[xs[0]] == 1 + multiset(t)[xs[0]];
        } else {
          assert xs[i] == t[i - 1] && xs[j] == t[j - 1];
          assert !Distinct(t);
          var v :| multiset(t)[v] > 1;
          assert multiset(xs)[v] >= multiset(t)[v];
        }
      }
    }
  }

  /** Sorting a sequence without repetitions gives one without repetitions. */
  lemma SortByDistinct<T>(xs: seq<T>, key: T -> string, le: (string, string) -> bool)
    requires Distinct(xs)
    ensures Distinct(SortBy(xs, key, le))
  {
    DistinctMultiset(xs);
    DistinctMultiset(SortBy(xs, key, le));
  }
}
