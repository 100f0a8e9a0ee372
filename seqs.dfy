/** Sequence operations the views use: JavaScript's `filter`, `map` and a `Set` built from an array. */
module Seqs {

  /** `a` is `b` with some elements left out, the rest kept in order. */
  predicate Subsequence<T(==)>(a: seq<T>, b: seq<T>)
    decreases |b|
  {
    a == [] || (b != [] && ((a[0] == b[0] && Subsequence(a[1..], b[1..])) || Subsequence(a, b[1..])))
  }

  /** The elements of `xs` that satisfy `p`, in their original order (`xs.filter(p)`). */
  function Filter<T(==,!new)>(xs: seq<T>, p: T -> bool): (r: seq<T>)
    ensures |r| <= |xs|
    ensures forall x :: x in r <==> x in xs && p(x)
    ensures Subsequence(r, xs)
  {
    if xs == [] then []
    else if p(xs[0]) then [xs[0]] + Filter(xs[1..], p)
    else Filter(xs[1..], p)
  }

  /** A filter that every element passes changes nothing. */
  lemma {:induction false} FilterKeepsAll<T(!new)>(xs: seq<T>, p: T -> bool)
    requires forall x :: x in xs ==> p(x)
    ensures Filter(xs, p) == xs
  {
    if xs != [] {
      FilterKeepsAll(xs[1..], p);
    }
  }

  /** Filtering keeps every copy of an element that passes and no copy of one that fails. */
  lemma {:induction false} FilterMultiset<T(!new)>(xs: seq<T>, p: T -> bool, x: T)
    ensures multiset(Filter(xs, p))[x] == if p(x) then multiset(xs)[x] else 0
  {
    if xs != [] {
      FilterMultiset(xs[1..], p, x);
      assert xs == [xs[0]] + xs[1..];
    }
  }

  /** Filtering a sequence with one more element at the end. */
  lemma {:induction false} FilterSnoc<T(!new)>(xs: seq<T>, y: T, p: T -> bool)
    ensures Filter(xs + [y], p) == Filter(xs, p) + (if p(y) then [y] else [])
  {
    if xs == [] {
      assert xs + [y] == [y];
    } else {
      FilterSnoc(xs[1..], y, p);
      assert (xs + [y])[0] == xs[0];
      assert (xs + [y])[1..] == xs[1..] + [y];
    }
  }

  /** A subsequence that keeps every copy of every element is the whole sequence. */
  lemma SubsequenceWithAllCopies<T>(a: seq<T>, b: seq<T>)
    requires Subsequence(a, b)
    requires forall x :: multiset(a)[x] == multiset(b)[x]
    ensures a == b
  {
    assert multiset(a) == multiset(b);
    assert |a| == |b| by {
      assert |multiset(a)| == |a| && |multiset(b)| == |b|;
    }
    SubsequenceSameLength(a, b);
  }

  /** A subsequence as long as the sequence is the sequence. */
  lemma {:induction false} SubsequenceSameLength<T>(a: seq<T>, b: seq<T>)
    requires Subsequence(a, b) && |a| == |b|
    ensures a == b
  {
    if b != [] {
      if a[0] == b[0] && Subsequence(a[1..], b[1..]) {
        SubsequenceSameLength(a[1..], b[1..]);
        assert a == [a[0]] + a[1..] && b == [b[0]] + b[1..];
      } else {
        SubsequenceShorter(a, b[1..]);
        assert false;
      }
    }
  }

  lemma {:induction false} SubsequenceShorter<T>(a: seq<T>, b: seq<T>)
    requires Subsequence(a, b)
    ensures |a| <= |b|
  {
    if a != [] {
      if a[0] == b[0] && Subsequence(a[1..], b[1..]) {
        SubsequenceShorter(a[1..], b[1..]);
      } else {
        SubsequenceShorter(a, b[1..]);
      }
    }
  }

  /**
   * What `xs.forEach((x, i) => { if (keep(x)) out.push(f(x, i)); })` collects:
   * the images of the kept elements, each with its index, in order.
   */
  function KeepMapIndexed<T, U>(xs: seq<T>, keep: T -> bool, f: (T, nat) -> U): (r: seq<U>)
    ensures |r| <= |xs|
  {
    if xs == [] then []
    else
      var n := |xs| - 1;
      KeepMapIndexed(xs[..n], keep, f) + (if keep(xs[n]) then [f(xs[n], n)] else [])
  }

  /** Collecting one element more adds its image when it is kept. */
  lemma KeepMapIndexedSnoc<T, U>(xs: seq<T>, keep: T -> bool, f: (T, nat) -> U, i: nat)
    requires i < |xs|
    ensures KeepMapIndexed(xs[..i + 1], keep, f) == KeepMapIndexed(xs[..i], keep, f) + (if keep(xs[i]) then [f(xs[i], i)] else [])
  {
    assert xs[..i + 1][..i] == xs[..i];
  }

  /** Everything collected is the image of a kept element with its index. */
  lemma {:induction false} KeepMapIndexedSources<T, U>(xs: seq<T>, keep: T -> bool, f: (T, nat) -> U)
    ensures forall y :: y in KeepMapIndexed(xs, keep, f) ==> exists i :: 0 <= i < |xs| && keep(xs[i]) && y == f(xs[i], i)
  {
    if xs != [] {
      var n := |xs| - 1;
      var prefix := xs[..n];
      KeepMapIndexedSources(prefix, keep, f);
      var earlier := KeepMapIndexed(prefix, keep, f);
      forall y | y in KeepMapIndexed(xs, keep, f) ensures exists i :: 0 <= i < |xs| && keep(xs[i]) && y == f(xs[i], i) {
        if y in earlier {
          var i :| 0 <= i < |prefix| && keep(prefix[i]) && y == f(prefix[i], i);
          assert prefix[i] == xs[i];
        } else {
          assert keep(xs[n]) && y == f(xs[n], n);
        }
      }
    }
  }

  /** Every kept element's image, with its index, is collected. */
  lemma {:induction false} KeepMapIndexedKept<T, U>(xs: seq<T>, keep: T -> bool, f: (T, nat) -> U)
    ensures forall i :: 0 <= i < |xs| && keep(xs[i]) ==> f(xs[i], i) in KeepMapIndexed(xs, keep, f)
  {
    if xs != [] {
      var n := |xs| - 1;
      var prefix := xs[..n];
      KeepMapIndexedKept(prefix, keep, f);
      forall i | 0 <= i < |xs| && keep(xs[i]) ensures f(xs[i], i) in KeepMapIndexed(xs, keep, f) {
        if i < n {
          assert prefix[i] == xs[i];
        }
      }
    }
  }

  /** As many images are collected as elements pass `keep`. */
  lemma {:induction false} KeepMapIndexedCount<T(!new), U>(xs: seq<T>, keep: T -> bool, f: (T, nat) -> U)
    ensures |KeepMapIndexed(xs, keep, f)| == |Filter(xs, keep)|
  {
    if xs != [] {
      var n := |xs| - 1;
      KeepMapIndexedCount(xs[..n], keep, f);
      assert xs == xs[..n] + [xs[n]];
      FilterSnoc(xs[..n], xs[n], keep);
    }
  }

  /** When images at different indexes have different keys, the collected keys are unique. */
  lemma {:induction false} KeepMapIndexedUniqueKeys<T, U, K>(xs: seq<T>, keep: T -> bool, f: (T, nat) -> U, key: U -> K)
    requires forall x1, x2, i: nat, j: nat :: i != j ==> key(f(x1, i)) != key(f(x2, j))
    ensures UniqueKeys(KeepMapIndexed(xs, keep, f), key)
  {
    if xs != [] {
      var n := |xs| - 1;
      var prefix := xs[..n];
      KeepMapIndexedUniqueKeys(prefix, keep, f, key);
      if keep(xs[n]) {
        var earlier := KeepMapIndexed(prefix, keep, f);
        KeepMapIndexedSources(prefix, keep, f);
        forall k | 0 <= k < |earlier| ensures key(earlier[k]) != key(f(xs[n], n)) {
          assert earlier[k] in earlier;
          var i :| 0 <= i < |prefix| && keep(prefix[i]) && earlier[k] == f(prefix[i], i);
        }
        AppendKeepsUniqueKeys(earlier, key, f(xs[n], n));
      }
    }
  }

  /** `xs.map(f)`. */
  function Map<T, U>(xs: seq<T>, f: T -> U): (r: seq<U>)
    ensures |r| == |xs|
    ensures forall i :: 0 <= i < |xs| ==> r[i] == f(xs[i])
  {
    if xs == [] then [] else [f(xs[0])] + Map(xs[1..], f)
  }

  /** Mapping a prefix one element longer. */
  lemma MapSnoc<T, U>(xs: seq<T>, f: T -> U, i: nat)
    requires i < |xs|
    ensures Map(xs[..i + 1], f) == Map(xs[..i], f) + [f(xs[i])]
  {
    var a := Map(xs[..i + 1], f);
    var b := Map(xs[..i], f) + [f(xs[i])];
    forall k | 0 <= k < |a| ensures a[k] == b[k] {
      assert xs[..i + 1][k] == xs[k];
      if k < i {
        assert xs[..i][k] == xs[k];
      }
    }
  }

  /** The number of elements whose key is `k` is the multiplicity of `k` among the keys. */
  lemma {:induction false} CountIsMultiplicity<T(!new), K>(xs: seq<T>, key: T -> K, k: K, p: T -> bool)
    requires forall x :: p(x) == (key(x) == k)
    ensures |Filter(xs, p)| == multiset(Map(xs, key))[k]
  {
    if xs != [] {
      CountIsMultiplicity(xs[1..], key, k, p);
      assert Map(xs, key) == [key(xs[0])] + Map(xs[1..], key);
    }
  }

  predicate Distinct<T(==)>(xs: seq<T>) {
    forall i, j :: 0 <= i < j < |xs| ==> xs[i] != xs[j]
  }

  /** Dropping the head of a sequence without repetitions leaves one without repetitions and without the head. */
  lemma DistinctTail<T>(xs: seq<T>)
    requires xs != [] && Distinct(xs)
    ensures Distinct(xs[1..]) && xs[0] !in xs[1..]
  {
    var t := xs[1..];
    forall i, j | 0 <= i < j < |t| ensures t[i] != t[j] {
      assert t[i] == xs[i + 1] && t[j] == xs[j + 1];
    }
  }

  /** No two elements share a key (ids are unique within a collection). */
  predicate UniqueKeys<T, K(==)>(xs: seq<T>, key: T -> K) {
    forall i, j :: 0 <= i < j < |xs| ==> key(xs[i]) != key(xs[j])
  }

  /** The distinct elements of `xs` in order of first occurrence (`[...new Set(xs)]`). */
  function Dedup<T(==,!new)>(xs: seq<T>): (r: seq<T>)
    ensures forall x :: x in r <==> x in xs
    ensures Distinct(r)
  {
    if xs == [] then []
    else
      var d := Dedup(xs[..|xs| - 1]);
      assert xs == xs[..|xs| - 1] + [xs[|xs| - 1]];
      if xs[|xs| - 1] in d then d else d + [xs[|xs| - 1]]
  }

  /** Deduplicating with one more element at the end: it is appended when it is new. */
  lemma DedupSnoc<T(!new)>(xs: seq<T>, y: T)
    ensures Dedup(xs + [y]) == if y in xs then Dedup(xs) else Dedup(xs) + [y]
  {
    assert (xs + [y])[..|xs|] == xs;
  }

  /** Filtering a collection with unique keys leaves the keys unique. */
  lemma {:induction false} FilterKeepsUniqueKeys<T(!new), K>(xs: seq<T>, key: T -> K, p: T -> bool)
    requires UniqueKeys(xs, key)
    ensures UniqueKeys(Filter(xs, p), key)
  {
    if xs != [] {
      var rest := Filter(xs[1..], p);
      assert UniqueKeys(xs[1..], key) by {
        forall i, j | 0 <= i < j < |xs[1..]| ensures key(xs[1..][i]) != key(xs[1..][j]) {
          assert xs[1..][i] == xs[i + 1] && xs[1..][j] == xs[j + 1];
        }
      }
      FilterKeepsUniqueKeys(xs[1..], key, p);
      if p(xs[0]) {
        forall j | 0 <= j < |rest| ensures key(xs[0]) != key(rest[j]) {
          assert rest[j] in xs[1..];
          var m :| 0 <= m < |xs[1..]| && xs[1..][m] == rest[j];
          assert xs[m + 1] == rest[j];
        }
        var r := [xs[0]] + rest;
        forall i, j | 0 <= i < j < |r| ensures key(r[i]) != key(r[j]) {
          if i > 0 {
            assert r[i] == rest[i - 1] && r[j] == rest[j - 1];
          } else {
            assert r[j] == rest[j - 1];
          }
        }
      }
    }
  }

  /** Appending an element whose key is new keeps the keys unique. */
  lemma AppendKeepsUniqueKeys<T, K>(xs: seq<T>, key: T -> K, x: T)
    requires UniqueKeys(xs, key)
    requires forall i :: 0 <= i < |xs| ==> key(xs[i]) != key(x)
    ensures UniqueKeys(xs + [x], key)
  {
    var r := xs + [x];
    forall i, j | 0 <= i < j < |r| ensures key(r[i]) != key(r[j]) {
      assert r[i] == xs[i];
    }
  }
}
