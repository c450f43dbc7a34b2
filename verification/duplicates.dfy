/** Freedom from duplicates for sequences of target ids, counted with
    multisets and, equivalently, as distinct slots. */
module Duplicates {

  /** No id occurs twice. */
  ghost predicate NoDup(s: seq<nat>) {
    forall x :: Occurrences(s, x) <= 1
  }

  /** How often `x` occurs in `s`. */
  function Occurrences(s: seq<nat>, x: nat): nat {
    multiset(s)[x]
  }

  /** No two slots of [lo, hi) of `s` hold the same id. */
  predicate DistinctIn(s: seq<nat>, lo: int, hi: int)
    requires 0 <= lo && hi <= |s|
  {
    forall i, j :: lo <= i < j < hi ==> s[i] != s[j]
  }

  /** Distinct slots make a duplicate-free slice. */
  lemma {:induction false} DistinctInNoDup(s: seq<nat>, lo: int, hi: int)
    requires 0 <= lo <= hi <= |s| && DistinctIn(s, lo, hi)
    ensures NoDup(s[lo..hi])
    decreases hi - lo
  {
    if lo < hi {
      DistinctInNoDup(s, lo, hi - 1);
      var init, last := s[lo..hi - 1], s[hi - 1];
      assert s[lo..hi] == init + [last];
      assert last !in init by {
        forall k | 0 <= k < |init| ensures init[k] != last {
          assert init[k] == s[lo + k];
        }
      }
      forall x: nat ensures Occurrences(s[lo..hi], x) <= 1 {
        assert multiset(s[lo..hi])[x] == multiset(init)[x] + multiset([last])[x];
        assert Occurrences(init, x) <= 1;
        if x == last {
          assert multiset(init)[x] == 0;
        }
      }
    }
  }

  /** A duplicate-free slice has distinct slots. */
  lemma NoDupDistinctIn(s: seq<nat>, lo: int, hi: int)
    requires 0 <= lo <= hi <= |s| && NoDup(s[lo..hi])
    ensures DistinctIn(s, lo, hi)
  {
    forall i, j | lo <= i < j < hi ensures s[i] != s[j] {
      var t, k := s[lo..hi], j - lo;
      assert t == t[..k] + t[k..];
      assert s[i] in multiset(t[..k]) by { assert t[..k][i - lo] == s[i]; }
      assert s[j] in multiset(t[k..]) by { assert t[k..][0] == s[j]; }
      assert multiset(t)[s[j]] == multiset(t[..k])[s[j]] + multiset(t[k..])[s[j]];
      assert Occurrences(t, s[j]) <= 1;
    }
  }
}
