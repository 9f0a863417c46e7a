/** Sequence facts the queue relies on: reversal, the abstract effect of
    reversing the queue, and distinctness, which keeps its elements apart. */
module Sequences {

  /** The reversal of `s`: position k holds the element at the mirrored
      position |s| - 1 - k. */
  function Reversed<T>(s: seq<T>): (r: seq<T>)
    ensures |r| == |s|
  {
    seq(|s|, k requires 0 <= k < |s| => s[|s| - 1 - k])
  }

  /** Reversal peels off the front: reversing `s` is reversing its rest
      and putting its first element last. */
  lemma ReversedCons<T>(s: seq<T>)
    requires s != []
    ensures Reversed(s) == Reversed(s[1..]) + [s[0]]
  {
    var r, t := Reversed(s), Reversed(s[1..]) + [s[0]];
    assert forall k :: 0 <= k < |s| - 1 ==> r[k] == t[k];
  }

  /** Reversing twice gives the original sequence back. */
  lemma ReversedInvolutive<T>(s: seq<T>)
    ensures Reversed(Reversed(s)) == s
  {
    assert forall k :: 0 <= k < |s| ==> Reversed(Reversed(s))[k] == s[k];
  }

  /** Reversal rearranges elements and neither adds nor drops any. */
  lemma {:induction false} ReversedPermutation<T>(s: seq<T>)
    ensures multiset(Reversed(s)) == multiset(s)
  {
    if s != [] {
      ReversedPermutation(s[1..]);
      ReversedCons(s);
      assert s == [s[0]] + s[1..];
    }
  }

  /** No element occurs twice. */
  predicate Distinct<T(==)>(s: seq<T>) {
    s == [] || (s[0] !in s[1..] && Distinct(s[1..]))
  }

  /** Distinct is pairwise inequality of positions. */
  lemma {:induction false} DistinctPairwise<T>(s: seq<T>)
    ensures Distinct(s) <==> forall i, j :: 0 <= i < j < |s| ==> s[i] != s[j]
  {
    if s != [] {
      var t := s[1..];
      DistinctPairwise(t);
      assert forall i :: 0 <= i < |t| ==> t[i] == s[i + 1];
      if Distinct(s) {
        forall i, j | 0 <= i < j < |s|
          ensures s[i] != s[j]
        {
          if i > 0 {
            assert t[i - 1] != t[j - 1];
          } else {
            assert s[j] == t[j - 1];
          }
        }
      }
      if forall i, j :: 0 <= i < j < |s| ==> s[i] != s[j] {
        assert forall i, j :: 0 <= i < j < |t| ==> t[i] != t[j] by {
          forall i, j | 0 <= i < j < |t|
            ensures t[i] != t[j]
          {
            assert s[i + 1] != s[j + 1];
          }
        }
        assert s[0] !in t by {
          forall j | 0 <= j < |t|
            ensures t[j] != s[0]
          {
            assert s[0] != s[j + 1];
          }
        }
      }
    }
  }

  /** Appending an element that does not occur keeps a sequence distinct. */
  lemma DistinctAppend<T>(s: seq<T>, x: T)
    requires Distinct(s) && x !in s
    ensures Distinct(s + [x])
  {
    DistinctPairwise(s);
    var r := s + [x];
    forall i, j | 0 <= i < j < |r|
      ensures r[i] != r[j]
    {
      if j < |s| {
        assert r[i] == s[i] && r[j] == s[j];
      } else {
        assert r[i] == s[i];
      }
    }
    DistinctPairwise(r);
  }
}
