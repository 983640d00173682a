/** Order-preserving filtering of sequences, as done by `Array.prototype.filter`,
    and the facts about it that the session model needs. */
module Seqs {

  /** `a` can be obtained from `b` by deleting elements (order is kept). */
  predicate IsSubsequence<T(==)>(a: seq<T>, b: seq<T>)
    decreases |b|
  {
    if |b| == 0 then |a| == 0
    else IsSubsequence(a, b[1..]) || (|a| > 0 && a[0] == b[0] && IsSubsequence(a[1..], b[1..]))
  }

  /** No two elements of `s` share a key. */
  predicate KeysDistinct<T, K(==)>(s: seq<T>, key: T -> K) {
    forall i, j :: 0 <= i < j < |s| ==> key(s[i]) != key(s[j])
  }

  /** Some element of `s` has key `k` (`Array.prototype.some`). */
  predicate HasKey<T, K(==)>(s: seq<T>, key: T -> K, k: K) {
    exists i :: 0 <= i < |s| && key(s[i]) == k
  }

  /** The elements of `s` satisfying `keep`, in their original order. */
  function Filter<T(!new)>(s: seq<T>, keep: T -> bool): (r: seq<T>)
    ensures |r| <= |s|
    ensures forall x :: x in r <==> x in s && keep(x)
    decreases |s|
  {
    if |s| == 0 then []
    else
      var rest := Filter(s[1..], keep);
      assert s == [s[0]] + s[1..];
      if keep(s[0]) then [s[0]] + rest else rest
  }

  /** The elements of `s` whose key differs from `k`, in their original order
      (`s.filter(x => x.key !== k)`). */
  function RemoveKey<T(!new), K(==)>(s: seq<T>, key: T -> K, k: K): (r: seq<T>)
    ensures |r| <= |s|
    ensures forall x :: x in r <==> x in s && key(x) != k
    decreases |s|
  {
    if |s| == 0 then []
    else
      var rest := RemoveKey(s[1..], key, k);
      assert s == [s[0]] + s[1..];
      if key(s[0]) != k then [s[0]] + rest else rest
  }

  /** Every sequence is a subsequence of itself. */
  lemma {:induction false} SubsequenceReflexive<T>(s: seq<T>)
    ensures IsSubsequence(s, s)
    decreases |s|
  {
    if |s| > 0 {
      SubsequenceReflexive(s[1..]);
    }
  }

  lemma {:induction false} FilterIsSubsequence<T(!new)>(s: seq<T>, keep: T -> bool)
    ensures IsSubsequence(Filter(s, keep), s)
    decreases |s|
  {
    if |s| > 0 {
      FilterIsSubsequence(s[1..], keep);
      var rest := Filter(s[1..], keep);
      if keep(s[0]) {
        assert ([s[0]] + rest)[1..] == rest;
      }
    }
  }

  lemma {:induction false} RemoveKeyIsSubsequence<T(!new), K>(s: seq<T>, key: T -> K, k: K)
    ensures IsSubsequence(RemoveKey(s, key, k), s)
    decreases |s|
  {
    if |s| > 0 {
      RemoveKeyIsSubsequence(s[1..], key, k);
      var rest := RemoveKey(s[1..], key, k);
      if key(s[0]) != k {
        assert ([s[0]] + rest)[1..] == rest;
      }
    }
  }

  /** Removing a key nobody has changes nothing. */
  lemma {:induction false} RemoveAbsentKey<T(!new), K>(s: seq<T>, key: T -> K, k: K)
    requires !HasKey(s, key, k)
    ensures RemoveKey(s, key, k) == s
    decreases |s|
  {
    if |s| > 0 {
      assert key(s[0]) != k;
      assert !HasKey(s[1..], key, k) by {
        forall i | 0 <= i < |s[1..]| ensures key(s[1..][i]) != k {
          assert s[1..][i] == s[i + 1];
        }
      }
      RemoveAbsentKey(s[1..], key, k);
      assert s == [s[0]] + s[1..];
    }
  }

  /** Distinct keys stay distinct in the tail, which lacks the head's key. */
  lemma DistinctTail<T, K>(s: seq<T>, key: T -> K)
    requires KeysDistinct(s, key) && |s| > 0
    ensures KeysDistinct(s[1..], key)
    ensures !HasKey(s[1..], key, key(s[0]))
  {
    var tail := s[1..];
    forall a, b | 0 <= a < b < |tail| ensures key(tail[a]) != key(tail[b]) {
      assert tail[a] == s[a + 1] && tail[b] == s[b + 1];
    }
    forall j | 0 <= j < |tail| ensures key(tail[j]) != key(s[0]) {
      assert tail[j] == s[j + 1];
    }
  }

  /** One step of `RemoveKey`: the head is kept exactly when its key differs. */
  lemma RemoveKeyCons<T(!new), K>(s: seq<T>, key: T -> K, k: K)
    requires |s| > 0
    ensures RemoveKey(s, key, k) == (if key(s[0]) != k then [s[0]] else []) + RemoveKey(s[1..], key, k)
  {
  }

  /** When keys are distinct, removing the key of element `i` removes exactly that element. */
  lemma {:induction false} RemoveKeyAt<T(!new), K>(s: seq<T>, key: T -> K, i: nat)
    requires KeysDistinct(s, key)
    requires i < |s|
    ensures RemoveKey(s, key, key(s[i])) == s[..i] + s[i + 1..]
    decreases |s|
  {
    var k := key(s[i]);
    var tail := s[1..];
    DistinctTail(s, key);
    RemoveKeyCons(s, key, k);
    if i == 0 {
      RemoveAbsentKey(tail, key, k);
      assert s[..0] + s[1..] == tail;
    } else {
      assert tail[i - 1] == s[i];
      RemoveKeyAt(tail, key, i - 1);
      SpliceAfterHead(s, i);
    }
  }

  /** Cutting element `i` out of the tail and putting the head back is
      cutting it out of the whole sequence. */
  lemma SpliceAfterHead<T>(s: seq<T>, i: nat)
    requires 0 < i < |s|
    ensures [s[0]] + (s[1..][..i - 1] + s[1..][i..]) == s[..i] + s[i + 1..]
  {
    assert s[1..][..i - 1] == s[1..i];
    assert s[1..][i..] == s[i + 1..];
    assert [s[0]] + s[1..i] == s[..i];
  }

  /** Filtering keeps keys distinct. */
  lemma {:induction false} RemoveKeyKeepsDistinct<T(!new), K>(s: seq<T>, key: T -> K, k: K)
    requires KeysDistinct(s, key)
    ensures KeysDistinct(RemoveKey(s, key, k), key)
    decreases |s|
  {
    if |s| > 0 {
      assert KeysDistinct(s[1..], key) by {
        forall a, b | 0 <= a < b < |s[1..]| ensures key(s[1..][a]) != key(s[1..][b]) {
          assert s[1..][a] == s[a + 1] && s[1..][b] == s[b + 1];
        }
      }
      RemoveKeyKeepsDistinct(s[1..], key, k);
      var rest := RemoveKey(s[1..], key, k);
      if key(s[0]) != k {
        forall j | 0 <= j < |rest| ensures key(rest[j]) != key(s[0]) {
          assert rest[j] in s[1..];
          var m :| 0 <= m < |s[1..]| && s[1..][m] == rest[j];
          assert s[m + 1] == rest[j];
        }
        var r := [s[0]] + rest;
        forall a, b | 0 <= a < b < |r| ensures key(r[a]) != key(r[b]) {
          if a == 0 {
            assert r[b] == rest[b - 1];
          } else {
            assert r[a] == rest[a - 1] && r[b] == rest[b - 1];
          }
        }
      }
    }
  }

  /** Prepending an element whose key no other element has keeps keys distinct. */
  lemma PrependFreshKey<T(!new), K>(x: T, s: seq<T>, key: T -> K)
    requires KeysDistinct(s, key)
    requires !HasKey(s, key, key(x))
    ensures KeysDistinct([x] + s, key)
  {
  }

  /** After removing key `k`, no element has key `k`. */
  lemma RemoveKeyRemovesAll<T(!new), K>(s: seq<T>, key: T -> K, k: K)
    ensures !HasKey(RemoveKey(s, key, k), key, k)
  {
  }
}
