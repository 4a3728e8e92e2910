/** One step of bucket expansion: an element leaves its old chain for the front of its new one. */
module HashExpansion {
  import opened HashLinks
  import opened HashMasks
  import opened HashBuckets
  import opened HashSpec

  /** The elements visited so far: all chains before `i`, and the first `j` elements of chain `i`. */
  ghost predicate Visited(hashv: seq<nat>, chains: Chains, i: nat, j: nat, e: nat) {
    var b := Selected(hashv, e, |chains|);
    b < i || (b == i < |chains| && exists k :: 0 <= k < j && k < |chains[i]| && chains[i][k] == e)
  }

  ghost predicate MovedSoFar(hashv: seq<nat>, listed: seq<nat>, chains: Chains, i: nat, j: nat, fresh_: Chains) {
    forall b: nat, e :: b < |fresh_| ==>
      (e in fresh_[b] <==> e in listed && Visited(hashv, chains, i, j, e) && Selected(hashv, e, |fresh_|) == b)
  }

  ghost predicate NextIs(hhNext: seq<int>, c: seq<nat>, k: nat) {
    k < |c| && c[k] < |hhNext| && hhNext[c[k]] == At(c, k + 1)
  }

  /** What is left of the chain being emptied. */
  ghost predicate Ahead(hhNext: seq<int>, c: seq<nat>, j: nat) {
    NoRepeats(c) && forall k :: j <= k < |c| ==> NextIs(hhNext, c, k)
  }

  ghost predicate Untaken(hhNext: seq<int>, hhPrev: seq<int>, chains: Chains, i: nat) {
    forall c :: i <= c < |chains| ==> Doubly(hhNext, hhPrev, chains[c])
  }

  /** The factor by which a bucket exceeds the ideal chain length. */
  function Multiplier(len: nat, ideal: nat): nat
    requires ideal > 0
  {
    if len > ideal then len / ideal else 0
  }

  ghost predicate Multiplied(buckets: seq<Bucket>, ideal: nat)
    requires ideal > 0
  {
    forall b :: 0 <= b < |buckets| ==> buckets[b].expandMult == Multiplier(buckets[b].count, ideal)
  }

  lemma MovedApart(hashv: seq<nat>, listed: seq<nat>, chains: Chains, i: nat, j: nat, fresh_: Chains)
    requires MovedSoFar(hashv, listed, chains, i, j, fresh_)
    ensures forall b: nat, c: nat, x :: b < |fresh_| && c < |fresh_| && c != b && x in fresh_[c] ==> x !in fresh_[b]
  {
    forall b: nat, c: nat, x | b < |fresh_| && c < |fresh_| && c != b && x in fresh_[c] ensures x !in fresh_[b] {
      assert Selected(hashv, x, |fresh_|) == c;
    }
  }

  lemma NotYetVisited(hashv: seq<nat>, listed: seq<nat>, chains: Chains, i: nat, j: nat)
    requires Placed(hashv, listed, chains) && i < |chains| && j < |chains[i]| && NoRepeats(chains[i])
    ensures var e := chains[i][j];
      e in listed && e < |hashv| && Selected(hashv, e, |chains|) == i && !Visited(hashv, chains, i, j, e)
    ensures forall e :: Visited(hashv, chains, i, j + 1, e) <==> Visited(hashv, chains, i, j, e) || e == chains[i][j]
  {
    var e := chains[i][j];
    assert e in chains[i];
    assert e in listed;
  }

  lemma MovePlaced(hashv: seq<nat>, listed: seq<nat>, chains: Chains, i: nat, j: nat, fresh_: Chains)
    requires Placed(hashv, listed, chains) && i < |chains| && j < |chains[i]| && NoRepeats(chains[i]) && fresh_ != []
    requires MovedSoFar(hashv, listed, chains, i, j, fresh_)
    ensures var e := chains[i][j];
      && e < |hashv| && (forall c: nat :: c < |fresh_| ==> e !in fresh_[c])
      && MovedSoFar(hashv, listed, chains, i, j + 1, Pushed(fresh_, ToBucket(hashv[e], |fresh_|), e))
  {
    hide Visited, And;
    var e := chains[i][j];
    NotYetVisited(hashv, listed, chains, i, j);
    var b := ToBucket(hashv[e], |fresh_|);
    var after := Pushed(fresh_, b, e);
    forall c: nat, x | c < |after|
      ensures x in after[c] <==> x in listed && Visited(hashv, chains, i, j + 1, x) && Selected(hashv, x, |after|) == c
    {
      assert x in fresh_[c] <==> x in listed && Visited(hashv, chains, i, j, x) && Selected(hashv, x, |fresh_|) == c;
    }
  }

  /** Later chains, and the rest of this one, keep their links. */
  lemma MoveKeepsRest(hhNext: seq<int>, hhPrev: seq<int>, hashv: seq<nat>, listed: seq<nat>, chains: Chains, i: nat, j: nat,
                      h: int)
    requires Placed(hashv, listed, chains) && i < |chains| && j < |chains[i]| && |hhNext| == |hhPrev|
    requires Ahead(hhNext, chains[i], j) && Untaken(hhNext, hhPrev, chains, i + 1)
    requires h == NULL || (0 <= h < |hhNext| && Visited(hashv, chains, i, j, h))
    ensures var e := chains[i][j];
      && e < |hhNext| && Ahead(hhNext[e := h], chains[i], j + 1)
      && Untaken(hhNext[e := h], Assign(hhPrev[e := NULL], h, e), chains, i + 1)
  {
    hide And;
    var e := chains[i][j];
    assert NextIs(hhNext, chains[i], j) && e in chains[i];
    var hhNext', hhPrev' := hhNext[e := h], Assign(hhPrev[e := NULL], h, e);
    forall k | j + 1 <= k < |chains[i]| ensures NextIs(hhNext', chains[i], k) {
      assert NextIs(hhNext, chains[i], k);
    }
    forall c | i + 1 <= c < |chains| ensures Doubly(hhNext', hhPrev', chains[c]) {
      hide Doubly;
      ChainsApart(hashv, listed, chains, c, i);
      forall x | x in chains[c] ensures x != e && x != h {
        assert Selected(hashv, x, |chains|) == c;
      }
      Untouched(hhNext, hhPrev, hhNext', hhPrev', chains[c], {e as int, h});
    }
  }

  lemma MoveMultiplied(buckets: seq<Bucket>, ideal: nat, b: nat, e: nat)
    requires ideal > 0 && Multiplied(buckets, ideal) && b < |buckets|
    ensures var n := buckets[b].count + 1;
      Multiplied(buckets[b := Bucket(e, n, if n > ideal then n / ideal else buckets[b].expandMult)], ideal)
  {
  }

  lemma NextChain(hhNext: seq<int>, hhPrev: seq<int>, hashv: seq<nat>, listed: seq<nat>, chains: Chains, i: nat,
                  fresh_: Chains)
    requires Placed(hashv, listed, chains) && i < |chains| && Untaken(hhNext, hhPrev, chains, i + 1)
    requires MovedSoFar(hashv, listed, chains, i, |chains[i]|, fresh_)
    ensures MovedSoFar(hashv, listed, chains, i + 1, 0, fresh_)
    ensures i + 1 < |chains| ==> Ahead(hhNext, chains[i + 1], 0)
  {
    if i + 1 < |chains| {
      FirstAhead(hhNext, hhPrev, chains, i + 1);
    }
    hide And, Doubly, Untaken, Ahead;
    forall b: nat, e | b < |fresh_|
      ensures e in fresh_[b] <==> e in listed && Visited(hashv, chains, i + 1, 0, e) && Selected(hashv, e, |fresh_|) == b
    {
      if e in listed {
        assert e in chains[i] <==> Selected(hashv, e, |chains|) == i;
        assert Visited(hashv, chains, i + 1, 0, e) <==> Visited(hashv, chains, i, |chains[i]|, e);
      }
    }
  }

  lemma FirstAhead(hhNext: seq<int>, hhPrev: seq<int>, chains: Chains, i: nat)
    requires i < |chains| && Untaken(hhNext, hhPrev, chains, i)
    ensures Ahead(hhNext, chains[i], 0)
  {
    assert Doubly(hhNext, hhPrev, chains[i]);
    forall k | 0 <= k < |chains[i]| ensures NextIs(hhNext, chains[i], k) {
      assert Linked(hhNext, hhPrev, chains[i], k);
    }
  }

  /** Before the first move. */
  lemma NothingMoved(hhNext: seq<int>, hhPrev: seq<int>, hashv: seq<nat>, buckets: seq<Bucket>, listed: seq<nat>,
                     chains: Chains, n: nat, ideal: nat)
    requires Bucketed(hhNext, hhPrev, hashv, buckets, listed, chains) && ideal > 0
    ensures var fresh_, empty := EmptyChains(n), EmptyBuckets(n);
      && |hhNext| == |hhPrev|
      && BucketsOk(hhNext, hhPrev, empty, fresh_) && MovedSoFar(hashv, listed, chains, 0, 0, fresh_)
      && Untaken(hhNext, hhPrev, chains, 0) && Ahead(hhNext, chains[0], 0) && Multiplied(empty, ideal)
      && Sum(Lengths(fresh_)) == 0 && Sum(Excesses(fresh_, ideal)) == 0
  {
    hide And, Placed;
    var fresh_ := EmptyChains(n);
    SumZero(Lengths(fresh_));
    SumZero(Excesses(fresh_, ideal));
    assert BucketOk(hhNext, hhPrev, buckets[0], chains[0]);
    forall c | 0 <= c < |chains| ensures Doubly(hhNext, hhPrev, chains[c]) {
      assert BucketOk(hhNext, hhPrev, buckets[c], chains[c]);
    }
    FirstAhead(hhNext, hhPrev, chains, 0);
  }

  /** After the last move every element is in its new chain. */
  lemma AllMoved(hashv: seq<nat>, listed: seq<nat>, chains: Chains, fresh_: Chains)
    requires Placed(hashv, listed, chains) && chains != [] && MovedSoFar(hashv, listed, chains, |chains|, 0, fresh_)
    ensures Placed(hashv, listed, fresh_)
  {
    hide And;
    forall b: nat, e | b < |fresh_| ensures e in fresh_[b] <==> e in listed && Selected(hashv, e, |fresh_|) == b {
      if e in listed {
        var k := IndexIn(listed, e);
        assert Visited(hashv, chains, |chains|, 0, e);
      }
    }
  }
}
