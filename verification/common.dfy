/** Small vocabulary shared by every component: an optional value, the
    order-preserving subsequence relation, and the array filter that
    JavaScript's `Array.prototype.filter` performs. */
module Common {

  /** A value that may be absent (JavaScript's `undefined`). */
  datatype Option<T> = None | Some(value: T)

  /** `r` can be obtained from `s` by deleting elements, without reordering. */
  predicate IsSubsequence<T(==)>(r: seq<T>, s: seq<T>)
    decreases |s|
  {
    |r| == 0 ||
    (|s| > 0 &&
     ((r[0] == s[0] && IsSubsequence(r[1..], s[1..])) || IsSubsequence(r, s[1..])))
  }

  /** No element occurs twice. */
  predicate Distinct<T(==)>(s: seq<T>) {
    forall i, j :: 0 <= i < j < |s| ==> s[i] != s[j]
  }

  /** A sequence is duplicate-free exactly when no value occurs twice in it. */
  lemma {:induction false} DistinctByCounts<T>(s: seq<T>)
    ensures Distinct(s) <==> forall x :: multiset(s)[x] <= 1
    decreases |s|
  {
    if |s| > 0 {
      DistinctByCounts(s[1..]);
      assert s == [s[0]] + s[1..];
      if Distinct(s) {
        assert Distinct(s[1..]) by {
          forall i, j | 0 <= i < j < |s[1..]| ensures s[1..][i] != s[1..][j] {
            assert s[1..][i] == s[i + 1] && s[1..][j] == s[j + 1];
          }
        }
      } else {
        var i, j :| 0 <= i < j < |s| && s[i] == s[j];
        if i == 0 {
          assert s[j] == s[1..][j - 1];
          assert multiset(s)[s[0]] >= 2;
        } else {
          assert s[i] == s[1..][i - 1] && s[j] == s[1..][j - 1];
          assert !Distinct(s[1..]);
          var x :| multiset(s[1..])[x] > 1;
          assert multiset(s)[x] > 1;
        }
      }
    }
  }

  /** Rearranging keeps a sequence duplicate-free. */
  lemma PermutationKeepsDistinct<T>(r: seq<T>, s: seq<T>)
    requires multiset(r) == multiset(s)
    requires Distinct(s)
    ensures Distinct(r)
  {
    DistinctByCounts(s);
    DistinctByCounts(r);
  }

  /** Everything kept by a subsequence occurs in the original. */
  lemma {:induction false} SubsequenceMembers<T>(r: seq<T>, s: seq<T>)
    requires IsSubsequence(r, s)
    ensures forall x :: x in r ==> x in s
    decreases |s|
  {
    if |r| == 0 {
    } else if r[0] == s[0] && IsSubsequence(r[1..], s[1..]) {
      SubsequenceMembers(r[1..], s[1..]);
      assert r == [r[0]] + r[1..];
      assert s == [s[0]] + s[1..];
    } else {
      SubsequenceMembers(r, s[1..]);
      assert s == [s[0]] + s[1..];
    }
  }

  /** A subsequence is never longer than the original. */
  lemma {:induction false} SubsequenceLength<T>(r: seq<T>, s: seq<T>)
    requires IsSubsequence(r, s)
    ensures |r| <= |s|
    decreases |s|
  {
    if |r| == 0 {
    } else if r[0] == s[0] && IsSubsequence(r[1..], s[1..]) {
      SubsequenceLength(r[1..], s[1..]);
    } else {
      SubsequenceLength(r, s[1..]);
    }
  }

  /** A sequence is a subsequence of itself. */
  lemma {:induction false} SubsequenceReflexive<T>(s: seq<T>)
    ensures IsSubsequence(s, s)
    decreases |s|
  {
    if |s| > 0 {
      SubsequenceReflexive(s[1..]);
    }
  }

  /** A subsequence as long as the original is the original. */
  lemma {:induction false} SubsequenceFull<T>(r: seq<T>, s: seq<T>)
    requires IsSubsequence(r, s)
    requires |r| == |s|
    ensures r == s
    decreases |s|
  {
    if |r| > 0 {
      if r[0] == s[0] && IsSubsequence(r[1..], s[1..]) {
        SubsequenceFull(r[1..], s[1..]);
        assert r == [r[0]] + r[1..] && s == [s[0]] + s[1..];
      } else {
        SubsequenceLength(r, s[1..]);
        assert false;
      }
    }
  }

  /** The number of elements of `s` satisfying `p`. */
  function Count<T>(s: seq<T>, p: T -> bool): (n: nat)
    ensures n <= |s|
    decreases |s|
  {
    if |s| == 0 then 0 else (if p(s[0]) then 1 else 0) + Count(s[1..], p)
  }

  /** Keeps, in order, exactly the elements satisfying `p`: the result is a
      subsequence of `s` whose elements all satisfy `p` and which is as long
      as the number of elements of `s` satisfying `p` (so it drops none of
      them; `FilterCharacterized` shows these three facts pin it down). */
  function Filter<T(==)>(s: seq<T>, p: T -> bool): (r: seq<T>)
    ensures IsSubsequence(r, s)
    ensures forall i :: 0 <= i < |r| ==> p(r[i])
    ensures |r| == Count(s, p)
    decreases |s|
  {
    if |s| == 0 then []
    else
      var rest := Filter(s[1..], p);
      if p(s[0]) then [s[0]] + rest else rest
  }

  /** A subsequence whose elements all satisfy `p` holds at most as many
      elements as `s` has satisfying `p`. */
  lemma {:induction false} SubsequenceCountBound<T>(r: seq<T>, s: seq<T>, p: T -> bool)
    requires IsSubsequence(r, s)
    requires forall i :: 0 <= i < |r| ==> p(r[i])
    ensures |r| <= Count(s, p)
    decreases |s|
  {
    if |r| > 0 {
      if r[0] == s[0] && IsSubsequence(r[1..], s[1..]) {
        SubsequenceCountBound(r[1..], s[1..], p);
      } else {
        SubsequenceCountBound(r, s[1..], p);
      }
    }
  }

  /** The filter is the only subsequence of `s` whose elements all satisfy
      `p` and which keeps every element satisfying `p`. */
  lemma {:induction false} FilterCharacterized<T>(r: seq<T>, s: seq<T>, p: T -> bool)
    requires IsSubsequence(r, s)
    requires forall i :: 0 <= i < |r| ==> p(r[i])
    requires |r| == Count(s, p)
    ensures r == Filter(s, p)
    decreases |s|
  {
    if |s| > 0 {
      if p(s[0]) {
        if !(r[0] == s[0] && IsSubsequence(r[1..], s[1..])) {
          SubsequenceCountBound(r, s[1..], p);
          assert false;
        }
        FilterCharacterized(r[1..], s[1..], p);
        assert r == [r[0]] + r[1..];
      } else {
        if |r| > 0 {
          assert p(r[0]);
        }
        FilterCharacterized(r, s[1..], p);
      }
    }
  }

  /** Each value occurs in the filter as often as in `s` when it satisfies
      `p`, and not at all otherwise. */
  lemma {:induction false} FilterMultiset<T>(s: seq<T>, p: T -> bool)
    ensures forall x :: multiset(Filter(s, p))[x] == if p(x) then multiset(s)[x] else 0
    decreases |s|
  {
    if |s| > 0 {
      FilterMultiset(s[1..], p);
      assert s == [s[0]] + s[1..];
    }
  }

  /** Every element of `s` satisfying `p` is kept by the filter. */
  lemma FilterKeeps<T>(s: seq<T>, p: T -> bool, x: T)
    requires x in s && p(x)
    ensures x in Filter(s, p)
  {
    FilterMultiset(s, p);
    assert multiset(s)[x] > 0;
    assert multiset(Filter(s, p))[x] > 0;
  }

  /** Predicates that agree on the elements of `s` count them alike. */
  lemma {:induction false} CountAgree<T>(s: seq<T>, p: T -> bool, q: T -> bool)
    requires forall i :: 0 <= i < |s| ==> (p(s[i]) <==> q(s[i]))
    ensures Count(s, p) == Count(s, q)
    decreases |s|
  {
    if |s| > 0 {
      CountAgree(s[1..], p, q);
    }
  }

  /** When every element satisfies `p`, all of them are counted. */
  lemma {:induction false} CountAll<T>(s: seq<T>, p: T -> bool)
    requires forall i :: 0 <= i < |s| ==> p(s[i])
    ensures Count(s, p) == |s|
    decreases |s|
  {
    if |s| > 0 {
      CountAll(s[1..], p);
    }
  }

  /** Every element of `s` is counted on one side of `p` or the other. */
  lemma {:induction false} CountComplement<T>(s: seq<T>, p: T -> bool, q: T -> bool)
    requires forall i :: 0 <= i < |s| ==> (q(s[i]) <==> !p(s[i]))
    ensures Count(s, p) + Count(s, q) == |s|
    decreases |s|
  {
    if |s| > 0 {
      CountComplement(s[1..], p, q);
    }
  }

  /** Filtering twice by the same predicate changes nothing more. */
  lemma {:induction false} FilterIdempotent<T>(s: seq<T>, p: T -> bool)
    ensures Filter(Filter(s, p), p) == Filter(s, p)
    decreases |s|
  {
    if |s| > 0 {
      FilterIdempotent(s[1..], p);
      if p(s[0]) {
        var rest := Filter(s[1..], p);
        assert ([s[0]] + rest)[1..] == rest;
      }
    }
  }

  /** A subset is no larger than its superset. */
  lemma {:induction false} SubsetCardinality<T>(a: set<T>, b: set<T>)
    requires a <= b
    ensures |a| <= |b|
    decreases |a|
  {
    if a != {} {
      var x :| x in a;
      SubsetCardinality(a - {x}, b - {x});
    }
  }

  /** No two elements share a key. */
  predicate UniqueBy<T, K(==)>(s: seq<T>, key: T -> K) {
    forall i, j :: 0 <= i < j < |s| ==> key(s[i]) != key(s[j])
  }

  /** Deleting elements cannot introduce a shared key. */
  lemma {:induction false} SubsequenceKeepsUniqueBy<T, K>(r: seq<T>, s: seq<T>, key: T -> K)
    requires IsSubsequence(r, s)
    requires UniqueBy(s, key)
    ensures UniqueBy(r, key)
    decreases |s|
  {
    if |r| == 0 {
    } else {
      assert UniqueBy(s[1..], key) by {
        forall i, j | 0 <= i < j < |s[1..]| ensures key(s[1..][i]) != key(s[1..][j]) {
          assert s[1..][i] == s[i + 1] && s[1..][j] == s[j + 1];
        }
      }
      if r[0] == s[0] && IsSubsequence(r[1..], s[1..]) {
        SubsequenceKeepsUniqueBy(r[1..], s[1..], key);
        SubsequenceMembers(r[1..], s[1..]);
        forall i, j | 0 <= i < j < |r| ensures key(r[i]) != key(r[j]) {
          assert r[j] == r[1..][j - 1];
          if i == 0 {
            assert r[j] in s[1..];
            var k :| 0 <= k < |s[1..]| && s[1..][k] == r[j];
            assert s[k + 1] == r[j];
          } else {
            assert r[i] == r[1..][i - 1];
          }
        }
      } else {
        SubsequenceKeepsUniqueBy(r, s[1..], key);
      }
    }
  }

  /** Two key-unique sequences with no key in common concatenate to a
      key-unique sequence. */
  lemma AppendKeepsUniqueBy<T, K>(a: seq<T>, b: seq<T>, key: T -> K)
    requires UniqueBy(a, key)
    requires UniqueBy(b, key)
    requires forall i, j :: 0 <= i < |a| && 0 <= j < |b| ==> key(a[i]) != key(b[j])
    ensures UniqueBy(a + b, key)
  {
    var ab := a + b;
    forall i, j | 0 <= i < j < |ab| ensures key(ab[i]) != key(ab[j]) {
      if j < |a| {
      } else if i < |a| {
        assert ab[j] == b[j - |a|];
      } else {
        assert ab[i] == b[i - |a|] && ab[j] == b[j - |a|];
      }
    }
  }
}
