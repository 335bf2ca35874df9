/** Order-preserving selection and a stable insertion sort over sequences. */
module Seqs {

  /** The elements of `s` that satisfy `keep`, in their original order. */
  function Filter<T(!new)>(s: seq<T>, keep: T -> bool): (r: seq<T>)
    ensures |r| <= |s|
    ensures forall x {:trigger x in r} :: x in r <==> x in s && keep(x)
  {
    if s == [] then []
    else (if keep(s[0]) then [s[0]] else []) + Filter(s[1..], keep)
  }

  lemma {:induction false} FilterAppend<T(!new)>(a: seq<T>, b: seq<T>, keep: T -> bool)
    ensures Filter(a + b, keep) == Filter(a, keep) + Filter(b, keep)
  {
    if a != [] {
      assert (a + b)[1..] == a[1..] + b;
      FilterAppend(a[1..], b, keep);
    } else {
      assert a + b == b;
    }
  }

  lemma {:induction false} FilterKeepsAll<T(!new)>(s: seq<T>, keep: T -> bool)
    requires forall x :: x in s ==> keep(x)
    ensures Filter(s, keep) == s
  {
    if s != [] {
      FilterKeepsAll(s[1..], keep);
    }
  }

  /** `a` can be obtained from `b` by deleting elements. */
  ghost predicate IsSubsequence<T>(a: seq<T>, b: seq<T>)
    decreases |b|
  {
    if b == [] then a == []
    else
      (a != [] && a[|a| - 1] == b[|b| - 1] && IsSubsequence(a[..|a| - 1], b[..|b| - 1]))
      || IsSubsequence(a, b[..|b| - 1])
  }

  lemma {:induction false} SubsequenceMembers<T>(a: seq<T>, b: seq<T>)
    requires IsSubsequence(a, b)
    ensures forall x :: x in a ==> x in b
    decreases |b|
  {
    if b != [] {
      if a != [] && a[|a| - 1] == b[|b| - 1] && IsSubsequence(a[..|a| - 1], b[..|b| - 1]) {
        SubsequenceMembers(a[..|a| - 1], b[..|b| - 1]);
        assert a == a[..|a| - 1] + [a[|a| - 1]];
      } else {
        SubsequenceMembers(a, b[..|b| - 1]);
      }
    }
  }

  lemma {:induction false} SubsequenceTrans<T>(a: seq<T>, b: seq<T>, c: seq<T>)
    requires IsSubsequence(a, b) && IsSubsequence(b, c)
    ensures IsSubsequence(a, c)
    decreases |c|
  {
    if c != [] {
      var c' := c[..|c| - 1];
      if b != [] && b[|b| - 1] == c[|c| - 1] && IsSubsequence(b[..|b| - 1], c') {
        var b' := b[..|b| - 1];
        if a != [] && a[|a| - 1] == b[|b| - 1] && IsSubsequence(a[..|a| - 1], b') {
          SubsequenceTrans(a[..|a| - 1], b', c');
        } else {
          SubsequenceTrans(a, b', c');
        }
      } else {
        SubsequenceTrans(a, b, c');
      }
    }
  }

  lemma SubsequenceRefl<T>(a: seq<T>)
    ensures IsSubsequence(a, a)
    decreases |a|
  {
    if a != [] {
      SubsequenceRefl(a[..|a| - 1]);
    }
  }

  lemma {:induction false} SubsequenceAppendRight<T>(a: seq<T>, b: seq<T>, d: seq<T>)
    requires IsSubsequence(a, b)
    ensures IsSubsequence(a, b + d)
    decreases |d|
  {
    if d != [] {
      SubsequenceAppendRight(a, b, d[..|d| - 1]);
      assert (b + d)[..|b + d| - 1] == b + d[..|d| - 1];
    } else {
      assert b + d == b;
    }
  }

  lemma {:induction false} SubsequenceAppendBoth<T>(a: seq<T>, b: seq<T>, c: seq<T>)
    requires IsSubsequence(a, b)
    ensures IsSubsequence(a + c, b + c)
    decreases |c|
  {
    if c != [] {
      SubsequenceAppendBoth(a, b, c[..|c| - 1]);
      assert (a + c)[..|a + c| - 1] == a + c[..|c| - 1];
      assert (b + c)[..|b + c| - 1] == b + c[..|c| - 1];
    } else {
      assert a + c == a && b + c == b;
    }
  }

  lemma {:induction false} FilterIsSubsequence<T(!new)>(s: seq<T>, keep: T -> bool)
    ensures IsSubsequence(Filter(s, keep), s)
    decreases |s|
  {
    if s != [] {
      var init, last := s[..|s| - 1], s[|s| - 1];
      FilterIsSubsequence(init, keep);
      assert s == init + [last];
      FilterAppend(init, [last], keep);
      FilterOne(last, keep);
      if keep(last) {
        SubsequenceAppendBoth(Filter(init, keep), init, [last]);
      } else {
        SubsequenceAppendRight(Filter(init, keep), init, [last]);
        assert Filter(s, keep) == Filter(init, keep);
      }
    }
  }

  /** Insert `x` before the first element it may precede. */
  function InsertBy<T>(x: T, s: seq<T>, le: (T, T) -> bool): (r: seq<T>)
    ensures multiset(r) == multiset(s) + multiset{x}
  {
    if s == [] then [x]
    else if le(x, s[0]) then [x] + s
    else
      assert s == [s[0]] + s[1..];
      [s[0]] + InsertBy(x, s[1..], le)
  }

  /** A stable insertion sort: equal elements keep their relative order. */
  function SortBy<T>(s: seq<T>, le: (T, T) -> bool): (r: seq<T>)
    ensures multiset(r) == multiset(s)
  {
    if s == [] then []
    else
      assert s == [s[0]] + s[1..];
      InsertBy(s[0], SortBy(s[1..], le), le)
  }

  predicate SortedBy<T>(s: seq<T>, le: (T, T) -> bool)
  {
    forall i, j :: 0 <= i < j < |s| ==> le(s[i], s[j])
  }

  ghost predicate TotalPreorder<T(!new)>(le: (T, T) -> bool)
  {
    (forall a, b :: le(a, b) || le(b, a)) && (forall a, b, c :: le(a, b) && le(b, c) ==> le(a, c))
  }

  lemma {:induction false} InsertSorted<T(!new)>(x: T, s: seq<T>, le: (T, T) -> bool)
    requires TotalPreorder(le) && SortedBy(s, le)
    ensures SortedBy(InsertBy(x, s, le), le)
  {
    if s != [] && !le(x, s[0]) {
      InsertSorted(x, s[1..], le);
      var r := InsertBy(x, s[1..], le);
      forall k | 0 <= k < |r| ensures le(s[0], r[k]) {
        assert r[k] in multiset(r);
        assert r[k] == x || r[k] in multiset(s[1..]);
        if r[k] != x {
          var j :| 0 <= j < |s[1..]| && s[1..][j] == r[k];
          assert s[j + 1] == r[k];
        }
      }
    }
  }

  lemma {:induction false} SortBySorted<T(!new)>(s: seq<T>, le: (T, T) -> bool)
    requires TotalPreorder(le)
    ensures SortedBy(SortBy(s, le), le)
  {
    if s != [] {
      SortBySorted(s[1..], le);
      InsertSorted(s[0], SortBy(s[1..], le), le);
    }
  }

  /** Orders by an integer key. */
  function ByKey<T>(key: T -> int): (T, T) -> bool
  {
    (a: T, b: T) => key(a) <= key(b)
  }

  /** Selects the elements whose key is `k`. */
  function HasKey<T>(key: T -> int, k: int): T -> bool
  {
    (x: T) => key(x) == k
  }

  /**
   * Stability for a sort by an integer key: among the elements with any one
   * key, the sorted sequence keeps the input order.
   */
  lemma {:induction false} SortByKeyStable<T(!new)>(s: seq<T>, key: T -> int, k: int)
    ensures Filter(SortBy(s, ByKey(key)), HasKey(key, k)) == Filter(s, HasKey(key, k))
  {
    if s != [] {
      SortByKeyStable(s[1..], key, k);
      InsertStable(s[0], SortBy(s[1..], ByKey(key)), key, k);
      assert Filter(s, HasKey(key, k)) == Filter([s[0]], HasKey(key, k)) + Filter(s[1..], HasKey(key, k)) by {
        FilterAppend([s[0]], s[1..], HasKey(key, k));
        assert [s[0]] + s[1..] == s;
      }
    }
  }

  lemma FilterOne<T(!new)>(x: T, keep: T -> bool)
    ensures Filter([x], keep) == if keep(x) then [x] else []
  {
    assert [x][1..] == [];
  }

  lemma {:induction false} InsertStable<T(!new)>(x: T, s: seq<T>, key: T -> int, k: int)
    ensures Filter(InsertBy(x, s, ByKey(key)), HasKey(key, k)) == Filter([x], HasKey(key, k)) + Filter(s, HasKey(key, k))
  {
    var le, same := ByKey(key), HasKey(key, k);
    FilterOne(x, same);
    if s == [] {
      assert InsertBy(x, s, le) == [x];
      assert Filter(s, same) == [];
    } else if key(x) <= key(s[0]) {
      var ins := [x] + s;
      assert InsertBy(x, s, le) == ins;
      assert ins[1..] == s;
    } else {
      InsertStable(x, s[1..], key, k);
      InsertStableBehind(x, s, key, k);
    }
  }

  /** `Filter` of a sequence with a known head. */
  lemma FilterCons<T(!new)>(a: T, t: seq<T>, keep: T -> bool)
    ensures Filter([a] + t, keep) == (if keep(a) then [a] else []) + Filter(t, keep)
  {
    assert ([a] + t)[1..] == t;
  }

  /** The step of `InsertStable` where `x` goes behind the head of `s`. */
  lemma InsertStableBehind<T(!new)>(x: T, s: seq<T>, key: T -> int, k: int)
    requires s != [] && key(s[0]) < key(x)
    requires Filter(InsertBy(x, s[1..], ByKey(key)), HasKey(key, k)) == Filter([x], HasKey(key, k)) + Filter(s[1..], HasKey(key, k))
    ensures Filter(InsertBy(x, s, ByKey(key)), HasKey(key, k)) == Filter([x], HasKey(key, k)) + Filter(s, HasKey(key, k))
  {
    InsertByBehind(x, s, ByKey(key));
    FilterBehind(x, s, InsertBy(x, s[1..], ByKey(key)), HasKey(key, k));
  }

  /** Putting the head of `s` in front of `rest` commutes with `Filter` when at most one of `x` and the head is kept. */
  lemma FilterBehind<T(!new)>(x: T, s: seq<T>, rest: seq<T>, keep: T -> bool)
    requires s != [] && !(keep(s[0]) && keep(x))
    requires Filter(rest, keep) == Filter([x], keep) + Filter(s[1..], keep)
    ensures Filter([s[0]] + rest, keep) == Filter([x], keep) + Filter(s, keep)
  {
    assert [s[0]] + s[1..] == s;
    FilterCons(s[0], rest, keep);
    FilterCons(s[0], s[1..], keep);
    FilterOne(x, keep);
    var hs := if keep(s[0]) then [s[0]] else [];
    SwapHeads(hs, Filter([x], keep), Filter(s[1..], keep));
  }

  /** Inserting behind the head of `s` keeps that head in front. */
  lemma InsertByBehind<T>(x: T, s: seq<T>, le: (T, T) -> bool)
    requires s != [] && !le(x, s[0])
    ensures InsertBy(x, s, le) == [s[0]] + InsertBy(x, s[1..], le)
  {
  }

  /** Two prefixes of which one is empty can be swapped. */
  lemma SwapHeads<T>(a: seq<T>, b: seq<T>, t: seq<T>)
    requires a == [] || b == []
    ensures a + (b + t) == b + (a + t)
  {
  }

  /** The keys of a stable integer-key sort form a total preorder. */
  lemma ByKeyTotal<T(!new)>(key: T -> int)
    ensures TotalPreorder(ByKey(key))
  {
  }

  /** Applies `f` to every element. */
  function Map<A, B>(s: seq<A>, f: A -> B): (r: seq<B>)
    ensures |r| == |s|
    ensures forall i :: 0 <= i < |s| ==> r[i] == f(s[i])
  {
    seq(|s|, i requires 0 <= i < |s| => f(s[i]))
  }

  /** Every element is related by `ok` to each element after it. */
  predicate Pairwise<T>(s: seq<T>, ok: (T, T) -> bool)
  {
    forall i, j :: 0 <= i < j < |s| ==> ok(s[i], s[j])
  }

  lemma PairwiseSnoc<T>(s: seq<T>, x: T, ok: (T, T) -> bool)
    ensures Pairwise(s + [x], ok) <==> Pairwise(s, ok) && forall i :: 0 <= i < |s| ==> ok(s[i], x)
  {
    if Pairwise(s, ok) && forall i :: 0 <= i < |s| ==> ok(s[i], x) {
      var t := s + [x];
      forall i, j | 0 <= i < j < |t| ensures ok(t[i], t[j]) {
        if j < |s| {
          assert t[i] == s[i] && t[j] == s[j];
        } else {
          assert t[i] == s[i] && t[j] == x;
        }
      }
    }
    if Pairwise(s + [x], ok) {
      var t := s + [x];
      forall i | 0 <= i < |s| ensures ok(s[i], x) {
        assert t[i] == s[i] && t[|s|] == x;
      }
      forall i, j | 0 <= i < j < |s| ensures ok(s[i], s[j]) {
        assert t[i] == s[i] && t[j] == s[j];
      }
    }
  }

  lemma {:induction false} FilterPairwise<T(!new)>(s: seq<T>, keep: T -> bool, ok: (T, T) -> bool)
    requires Pairwise(s, ok)
    ensures Pairwise(Filter(s, keep), ok)
  {
    if s != [] {
      var tail := Filter(s[1..], keep);
      assert Pairwise(s[1..], ok) by {
        forall i, j | 0 <= i < j < |s[1..]| ensures ok(s[1..][i], s[1..][j]) {
          assert s[1..][i] == s[i + 1] && s[1..][j] == s[j + 1];
        }
      }
      FilterPairwise(s[1..], keep, ok);
      if keep(s[0]) {
        var r := [s[0]] + tail;
        assert Filter(s, keep) == r;
        forall i, j | 0 <= i < j < |r| ensures ok(r[i], r[j]) {
          if i == 0 {
            assert r[j] == tail[j - 1] && r[j] in tail;
            assert r[j] in s[1..];
            var k :| 0 <= k < |s[1..]| && s[1..][k] == r[j];
            assert ok(s[0], s[k + 1]);
          } else {
            assert r[i] == tail[i - 1] && r[j] == tail[j - 1];
          }
        }
      }
    }
  }

  lemma PairwiseMap<A, B>(s: seq<A>, f: A -> B, okA: (A, A) -> bool, okB: (B, B) -> bool)
    requires Pairwise(s, okA)
    requires forall i, j :: 0 <= i < j < |s| && okA(s[i], s[j]) ==> okB(f(s[i]), f(s[j]))
    ensures Pairwise(Map(s, f), okB)
  {
  }

  /** The keys of the elements of `s`. */
  function KeySet<T(==), K(==)>(s: seq<T>, key: T -> K): set<K>
  {
    set x | x in s :: key(x)
  }

  lemma KeySetSnoc<T, K>(s: seq<T>, x: T, key: T -> K)
    ensures KeySet(s + [x], key) == KeySet(s, key) + {key(x)}
  {
    assert forall y :: y in s + [x] <==> y in s || y == x;
  }

  /** No two elements share a key. */
  predicate KeysDistinct<T(==), K(==)>(s: seq<T>, key: T -> K)
  {
    forall i, j :: 0 <= i < j < |s| ==> key(s[i]) != key(s[j])
  }

  /**
   * The first element of every key, in their original order: the effect of
   * a loop that skips an element whose key is already in a `seen` set.
   */
  function DedupBy<T(==), K(==)>(s: seq<T>, key: T -> K): (r: seq<T>)
    decreases |s|
  {
    if s == [] then []
    else
      var d := DedupBy(s[..|s| - 1], key);
      var x := s[|s| - 1];
      if key(x) in KeySet(d, key) then d else d + [x]
  }

  /** The step the skipping loop takes: one more element. */
  lemma DedupBySnoc<T, K>(s: seq<T>, x: T, key: T -> K)
    ensures DedupBy(s + [x], key)
      == if key(x) in KeySet(DedupBy(s, key), key) then DedupBy(s, key) else DedupBy(s, key) + [x]
  {
    assert (s + [x])[..|s|] == s;
  }

  /** Deduplication keeps one element of every key: no key is lost, none is doubled, none is invented. */
  lemma {:induction false} DedupByKeys<T, K>(s: seq<T>, key: T -> K)
    ensures KeySet(DedupBy(s, key), key) == KeySet(s, key)
    ensures KeysDistinct(DedupBy(s, key), key)
    decreases |s|
  {
    if s != [] {
      var init, x := s[..|s| - 1], s[|s| - 1];
      assert s == init + [x];
      DedupByKeys(init, key);
      var d := DedupBy(init, key);
      KeySetSnoc(init, x, key);
      if key(x) !in KeySet(d, key) {
        KeySetSnoc(d, x, key);
        forall i | 0 <= i < |d| ensures key(d[i]) != key(x) {
          assert d[i] in d;
        }
        assert (d + [x])[|d|] == x;
        assert forall i :: 0 <= i < |d| ==> (d + [x])[i] == d[i];
      }
    }
  }

  /** Deduplication only drops elements: what it keeps is in the original order. */
  lemma {:induction false} DedupBySubsequence<T, K>(s: seq<T>, key: T -> K)
    ensures IsSubsequence(DedupBy(s, key), s)
    ensures |DedupBy(s, key)| <= |s|
    decreases |s|
  {
    if s == [] {
    } else {
      var init, x := s[..|s| - 1], s[|s| - 1];
      assert s == init + [x];
      DedupBySubsequence(init, key);
      var d := DedupBy(init, key);
      if key(x) in KeySet(d, key) {
        SubsequenceAppendRight(d, init, [x]);
      } else {
        SubsequenceAppendBoth(d, init, [x]);
      }
    }
  }

  /** The parts joined end to end. */
  function Concat<T>(parts: seq<seq<T>>): seq<T>
    decreases |parts|
  {
    if parts == [] then [] else Concat(parts[..|parts| - 1]) + parts[|parts| - 1]
  }

  lemma AppendAssoc<T>(x: seq<T>, y: seq<T>, z: seq<T>)
    ensures (x + y) + z == x + (y + z)
  {
  }

  /** A non-empty sequence is its front followed by its last element. */
  lemma SplitLast<T>(s: seq<T>)
    requires s != []
    ensures s == s[..|s| - 1] + [s[|s| - 1]]
  {
  }

  /** The elements of a sequence with one more at the end. */
  lemma ElementsSnoc<T>(s: seq<T>, x: T)
    ensures (set y | y in s + [x]) == (set y | y in s) + {x}
  {
  }

  /** Extending a prefix by one element. */
  lemma TakeSnoc<T>(s: seq<T>, i: nat)
    requires i < |s|
    ensures s[..i + 1] == s[..i] + [s[i]]
  {
  }

  lemma ConcatSnoc<T>(parts: seq<seq<T>>, p: seq<T>)
    ensures Concat(parts + [p]) == Concat(parts) + p
  {
    assert (parts + [p])[..|parts|] == parts;
  }

  lemma {:induction false} ConcatCons<T>(p: seq<T>, parts: seq<seq<T>>)
    ensures Concat([p] + parts) == p + Concat(parts)
    decreases |parts|
  {
    if parts == [] {
      assert [p] + parts == [p];
      assert Concat([p]) == Concat([p][..0]) + p;
    } else {
      var init, last := parts[..|parts| - 1], parts[|parts| - 1];
      ConcatCons(p, init);
      assert [p] + parts == ([p] + init) + [last];
      assert parts == init + [last];
      ConcatSnoc([p] + init, last);
      ConcatSnoc(init, last);
      calc {
        Concat([p] + parts);
        Concat([p] + init) + last;
        (p + Concat(init)) + last;
        p + (Concat(init) + last);
        p + Concat(parts);
      }
    }
  }
}
