/**
 * Swap-with-last removal, the idiom the entity systems and the particle
 * system use to delete from a vector in constant time: the last element
 * moves into the vacated slot and the vector shrinks by one.
 */
module SwapPops {

  function SwapPop<T>(s: seq<T>, i: nat): (r: seq<T>)
    requires i < |s|
    ensures |r| == |s| - 1
    ensures forall k :: 0 <= k < i ==> r[k] == s[k]
    ensures i < |r| ==> r[i] == s[|s| - 1]
    ensures forall k :: i < k < |r| ==> r[k] == s[k]
  {
    s[i := s[|s| - 1]][..|s| - 1]
  }

  /** Exactly the element at i leaves; every other element stays, as often as before. */
  lemma SwapPopMultiset<T>(s: seq<T>, i: nat)
    requires i < |s|
    ensures multiset(SwapPop(s, i)) + multiset{s[i]} == multiset(s)
  {
    var last := |s| - 1;
    var t := s[i := s[last]];
    if i == last {
      assert t[..last] + [s[i]] == s;
    } else {
      assert s == s[..i] + [s[i]] + s[i + 1..last] + [s[last]];
      assert t[..last] == s[..i] + [s[last]] + s[i + 1..last];
      calc {
        multiset(t[..last]) + multiset{s[i]};
        multiset(s[..i]) + multiset{s[last]} + multiset(s[i + 1..last]) + multiset{s[i]};
        multiset(s[..i] + [s[i]] + s[i + 1..last] + [s[last]]);
      }
    }
  }
}
