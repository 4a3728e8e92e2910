/** The integrity check of the hash table, on arbitrary links: it always terminates, and it passes
    exactly if the links spell proper doubly linked lists of the recorded lengths. */
module HashCheck {
  import opened HashLinks
  import opened HashBuckets

  ghost predicate PointersOk(links: seq<int>) {
    forall i :: 0 <= i < |links| ==> links[i] == NULL || 0 <= links[i] < |links|
  }

  /** `s` is a proper list that starts at `first`. */
  ghost predicate Proper(next: seq<int>, prev: seq<int>, first: int, s: seq<nat>) {
    Doubly(next, prev, s) && first == At(s, 0)
  }

  lemma {:induction false} NoRepeatsBound(s: seq<nat>, n: nat)
    requires NoRepeats(s) && InBounds(s, n)
    ensures |s| <= n
  {
    assert |s| > 0 ==> s[0] < n;
    if n > 0 {
      if exists k :: 0 <= k < |s| && s[k] == n - 1 {
        var k :| 0 <= k < |s| && s[k] == n - 1;
        WithoutMembers(s, k);
        var r := Without(s, k);
        forall i | 0 <= i < |r| ensures r[i] < n - 1 { assert r[i] in r && r[i] in s; IndexOf(s, r[i]); }
        NoRepeatsBound(r, n - 1);
      } else {
        forall i | 0 <= i < |s| ensures s[i] < n - 1 { assert s[i] != n - 1; }
        NoRepeatsBound(s, n - 1);
      }
    }
  }

  lemma IndexOf(s: seq<nat>, e: nat)
    requires e in s
    ensures exists k :: 0 <= k < |s| && s[k] == e
  {
  }

  /** The part of a list walked so far. */
  ghost predicate Walked(next: seq<int>, prev: seq<int>, first: int, s: seq<nat>, here: int) {
    && |next| == |prev| && InBounds(s, |next|) && NoRepeats(s)
    && (forall i :: 0 <= i < |s| ==> WalkedAt(next, prev, s, i))
    && first == (if s == [] then here else At(s, 0))
    && (s != [] ==> here == next[s[|s| - 1]])
  }

  ghost predicate WalkedAt(next: seq<int>, prev: seq<int>, s: seq<nat>, i: nat) {
    && i < |s| && s[i] < |next| == |prev| && prev[s[i]] == At(s, i - 1)
    && (i + 1 < |s| ==> next[s[i]] == At(s, i + 1))
  }

  lemma WalkOn(next: seq<int>, prev: seq<int>, first: int, s: seq<nat>, here: nat)
    requires Walked(next, prev, first, s, here) && here < |prev| && prev[here] == Last(s)
    ensures Walked(next, prev, first, s + [here], next[here])
  {
    var r := s + [here];
    forall i | 0 <= i < |s| ensures s[i] != here {
      assert WalkedAt(next, prev, s, i);
      assert i > 0 ==> s[i - 1] != s[|s| - 1];
    }
    forall i | 0 <= i < |r| ensures WalkedAt(next, prev, r, i) {
      if i < |s| {
        assert WalkedAt(next, prev, s, i);
      }
    }
  }

  lemma WalkedAll(next: seq<int>, prev: seq<int>, first: int, s: seq<nat>)
    requires Walked(next, prev, first, s, NULL)
    ensures Proper(next, prev, first, s)
  {
    forall i | 0 <= i < |s| ensures Linked(next, prev, s, i) {
      assert WalkedAt(next, prev, s, i);
    }
  }

  /** A walk stays on any proper list that starts where it started. */
  lemma {:induction false} WalkPrefix(next: seq<int>, prev: seq<int>, first: int, s: seq<nat>, here: int, t: seq<nat>)
    requires Walked(next, prev, first, s, here) && Proper(next, prev, first, t)
    ensures |s| <= |t| && here == At(t, |s|) && Last(s) == At(t, |s| - 1)
  {
    if s != [] {
      var front, last := s[..|s| - 1], s[|s| - 1];
      assert s == front + [last];
      assert WalkedAt(next, prev, s, |s| - 1);
      forall i | 0 <= i < |front| ensures WalkedAt(next, prev, front, i) { assert WalkedAt(next, prev, s, i); }
      if front != [] { assert WalkedAt(next, prev, s, |s| - 2); }
      WalkPrefix(next, prev, first, front, last, t);
      assert Linked(next, prev, t, |front|);
    }
  }

  /** Following the links from `first` stays within bounds: no pointer is wild, or the list is proper. */
  ghost predicate Followable(next: seq<int>, prev: seq<int>, first: int) {
    || (PointersOk(next) && (first == NULL || 0 <= first < |next|))
    || exists t :: Proper(next, prev, first, t)
  }

  lemma WalkInBounds(next: seq<int>, prev: seq<int>, first: int, s: seq<nat>, here: int)
    requires Followable(next, prev, first) && Walked(next, prev, first, s, here)
    ensures here == NULL || 0 <= here < |next|
  {
    if t :| Proper(next, prev, first, t) {
      WalkPrefix(next, prev, first, s, here, t);
      assert |s| < |t| ==> t[|s|] < |next|;
    }
  }

  method CheckChain(next: seq<int>, prev: seq<int>, first: int) returns (good: bool, n: nat, ghost s: seq<nat>)
    requires |next| == |prev| && Followable(next, prev, first)
    ensures good ==> Proper(next, prev, first, s) && n == |s|
    ensures forall t :: Proper(next, prev, first, t) ==> good && n == |t|
  {
    hide Walked, Proper, Followable;
    var thh, prv := first, NULL;
    good, n, s := true, 0, [];
    assert Walked(next, prev, first, [], first) by { NothingWalked(next, prev, first); }
    while thh != NULL
      invariant Walked(next, prev, first, s, thh) && prv == Last(s) && n == |s| <= |next|
      invariant good
      decreases |next| - |s|
    {
      WalkInBounds(next, prev, first, s, thh);
      if prv != prev[thh] {
        forall t | Proper(next, prev, first, t) ensures false {
          WalkPrefix(next, prev, first, s, thh, t);
          ProperAt(next, prev, first, t, |s|);
        }
        return false, n, s;
      }
      WalkOn(next, prev, first, s, thh);
      n := n + 1;
      prv := thh;
      s := s + [thh];
      thh := next[thh];
      WalkedBound(next, prev, first, s, thh);
    }
    WalkedAll(next, prev, first, s);
    forall t | Proper(next, prev, first, t) ensures |t| == n {
      WalkPrefix(next, prev, first, s, NULL, t);
    }
  }

  lemma NothingWalked(next: seq<int>, prev: seq<int>, first: int)
    requires |next| == |prev|
    ensures Walked(next, prev, first, [], first)
  {
  }

  lemma WalkedBound(next: seq<int>, prev: seq<int>, first: int, s: seq<nat>, here: int)
    requires Walked(next, prev, first, s, here)
    ensures |s| <= |next|
  {
    NoRepeatsBound(s, |next|);
  }

  lemma ProperAt(next: seq<int>, prev: seq<int>, first: int, t: seq<nat>, i: nat)
    requires Proper(next, prev, first, t) && i < |t|
    ensures t[i] < |prev| && prev[t[i]] == At(t, i - 1)
  {
    assert Linked(next, prev, t, i);
  }

  /** The chains of the buckets and the application order are proper lists of the recorded lengths. */
  ghost predicate Intact(next: seq<int>, prev: seq<int>, hhNext: seq<int>, hhPrev: seq<int>, head: int,
                         buckets: seq<Bucket>, numItems: nat, chains: Chains, order: seq<nat>) {
    && BucketsOk(hhNext, hhPrev, buckets, chains) && Sum(Lengths(chains)) == numItems
    && Proper(next, prev, head, order) && |order| == numItems
  }

  method Fsck(next: seq<int>, prev: seq<int>, hhNext: seq<int>, hhPrev: seq<int>, head: int, buckets: seq<Bucket>,
              numItems: nat) returns (ok: bool, ghost chains: Chains, ghost order: seq<nat>)
    requires |next| == |prev| && Followable(next, prev, head)
    requires |hhNext| == |hhPrev| && forall b :: 0 <= b < |buckets| ==> Followable(hhNext, hhPrev, buckets[b].head)
    ensures ok ==> Intact(next, prev, hhNext, hhPrev, head, buckets, numItems, chains, order)
    ensures forall c, o :: Intact(next, prev, hhNext, hhPrev, head, buckets, numItems, c, o) ==> ok
  {
    hide Proper, Sum, Followable;
    var count := 0;
    chains, order := [], [];
    assert Sum(Lengths(chains)) == 0 by { SumZero(Lengths(chains)); }
    for b := 0 to |buckets|
      invariant |chains| == b && count == Sum(Lengths(chains))
      invariant forall i :: 0 <= i < b ==> BucketOk(hhNext, hhPrev, buckets[i], chains[i])
      invariant forall c :: BucketsOk(hhNext, hhPrev, buckets, c) ==> SameLengths(chains, c, b)
    {
      var good, bktCount;
      ghost var s;
      good, bktCount, s := CheckChain(hhNext, hhPrev, buckets[b].head);
      forall c | BucketsOk(hhNext, hhPrev, buckets, c) ensures good && buckets[b].count == bktCount == |c[b]| {
        BucketProper(hhNext, hhPrev, buckets, c, b);
      }
      if !good || buckets[b].count != bktCount {
        return false, chains, order;
      }
      ProperDoubly(hhNext, hhPrev, buckets[b].head, s);
      SumPush(chains, s);
      chains := chains + [s];
      count := count + bktCount;
    }
    forall c | BucketsOk(hhNext, hhPrev, buckets, c) ensures Sum(Lengths(c)) == count {
      assert Lengths(c) == Lengths(chains);
    }
    if count != numItems {
      return false, chains, order;
    }
    var good, n;
    good, n, order := CheckChain(next, prev, head);
    ok := good && n == numItems;
  }

  ghost predicate SameLengths(chains: Chains, c: Chains, b: nat) {
    b <= |chains| && b <= |c| && forall i :: 0 <= i < b ==> |chains[i]| == |c[i]|
  }

  lemma BucketProper(hhNext: seq<int>, hhPrev: seq<int>, buckets: seq<Bucket>, chains: Chains, b: nat)
    requires BucketsOk(hhNext, hhPrev, buckets, chains) && b < |buckets|
    ensures Proper(hhNext, hhPrev, buckets[b].head, chains[b]) && buckets[b].count == |chains[b]|
  {
    assert BucketOk(hhNext, hhPrev, buckets[b], chains[b]);
  }

  lemma ProperDoubly(next: seq<int>, prev: seq<int>, first: int, s: seq<nat>)
    requires Proper(next, prev, first, s)
    ensures Doubly(next, prev, s) && first == At(s, 0)
  {
  }

  lemma SumPush(chains: Chains, s: seq<nat>)
    ensures Sum(Lengths(chains + [s])) == Sum(Lengths(chains)) + |s|
  {
    assert Lengths(chains + [s])[..|chains|] == Lengths(chains);
  }
}
