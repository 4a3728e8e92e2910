/** The bucket array of the hash table: every listed element is in exactly the chain its hash value selects. */
module HashBuckets {
  import opened HashLinks
  import opened HashMasks

  datatype Bucket = Bucket(head: int, count: nat, expandMult: nat)

  type Chains = seq<seq<nat>>

  function ToBucket(hashv: nat, numBuckets: nat): (b: nat)
    requires numBuckets > 0
    ensures b < numBuckets
  {
    And(hashv, numBuckets - 1)
  }

  ghost predicate BucketOk(hhNext: seq<int>, hhPrev: seq<int>, bucket: Bucket, chain: seq<nat>) {
    Doubly(hhNext, hhPrev, chain) && bucket.head == At(chain, 0) && bucket.count == |chain|
  }

  ghost predicate BucketsOk(hhNext: seq<int>, hhPrev: seq<int>, buckets: seq<Bucket>, chains: Chains) {
    |buckets| == |chains| && forall b :: 0 <= b < |chains| ==> BucketOk(hhNext, hhPrev, buckets[b], chains[b])
  }

  /** An element is in a chain iff it is listed and its hash value selects that chain. */
  ghost predicate Placed(hashv: seq<nat>, listed: seq<nat>, chains: Chains) {
    && InBounds(listed, |hashv|)
    && forall b: nat, e :: b < |chains| ==> (e in chains[b] <==> e in listed && Selected(hashv, e, |chains|) == b)
  }

  /** The bucket of an element, or the number of buckets if there is no such element. */
  ghost function Selected(hashv: seq<nat>, e: nat, numBuckets: nat): nat {
    if e < |hashv| && numBuckets > 0 then ToBucket(hashv[e], numBuckets) else numBuckets
  }

  function Sum(ns: seq<nat>): nat {
    if ns == [] then 0 else Sum(ns[..|ns| - 1]) + ns[|ns| - 1]
  }

  lemma {:induction false} SumUpdate(ns: seq<nat>, i: nat, n: nat)
    requires i < |ns|
    ensures Sum(ns[i := n]) + ns[i] == Sum(ns) + n
  {
    var last := |ns| - 1;
    if i == last {
      assert ns[i := n][..last] == ns[..last];
    } else {
      SumUpdate(ns[..last], i, n);
      assert ns[i := n][..last] == ns[..last][i := n];
    }
  }

  lemma {:induction false} SumZero(ns: seq<nat>)
    requires forall i :: 0 <= i < |ns| ==> ns[i] == 0
    ensures Sum(ns) == 0
  {
    if ns != [] {
      SumZero(ns[..|ns| - 1]);
    }
  }

  function Lengths(chains: Chains): (ns: seq<nat>)
    ensures |ns| == |chains|
  {
    seq(|chains|, b requires 0 <= b < |chains| => |chains[b]|)
  }

  /** How many elements of a chain are beyond the ideal length. */
  function Excess(len: nat, ideal: nat): nat {
    if len > ideal then len - ideal else 0
  }

  function Excesses(chains: Chains, ideal: nat): (ns: seq<nat>)
    ensures |ns| == |chains|
  {
    seq(|chains|, b requires 0 <= b < |chains| => Excess(|chains[b]|, ideal))
  }

  /** What holds of the buckets between operations. */
  ghost predicate Bucketed(hhNext: seq<int>, hhPrev: seq<int>, hashv: seq<nat>, buckets: seq<Bucket>, listed: seq<nat>,
                           chains: Chains) {
    && |chains| > 0 && |hashv| == |hhNext|
    && BucketsOk(hhNext, hhPrev, buckets, chains) && Placed(hashv, listed, chains)
    && Sum(Lengths(chains)) == |listed|
  }

  function EmptyBuckets(n: nat): (r: seq<Bucket>)
    ensures |r| == n && forall b :: 0 <= b < n ==> r[b] == Bucket(NULL, 0, 0)
  {
    seq(n, _ => Bucket(NULL, 0, 0))
  }

  ghost function EmptyChains(n: nat): (r: Chains)
    ensures |r| == n
  {
    seq(n, _ => [])
  }

  // ----- Putting an element at the front of its chain -----

  ghost function Pushed(chains: Chains, b: nat, e: nat): (r: Chains)
    requires b < |chains|
    ensures |r| == |chains|
  {
    chains[b := [e] + chains[b]]
  }

  lemma PushedSums(chains: Chains, b: nat, e: nat, ideal: nat)
    requires b < |chains|
    ensures Sum(Lengths(Pushed(chains, b, e))) == Sum(Lengths(chains)) + 1
    ensures Sum(Excesses(Pushed(chains, b, e), ideal))
         == Sum(Excesses(chains, ideal)) + if |chains[b]| + 1 > ideal then 1 else 0
  {
    var r := Pushed(chains, b, e);
    assert Lengths(r) == Lengths(chains)[b := |chains[b]| + 1];
    SumUpdate(Lengths(chains), b, |chains[b]| + 1);
    assert Excesses(r, ideal) == Excesses(chains, ideal)[b := Excess(|chains[b]| + 1, ideal)];
    SumUpdate(Excesses(chains, ideal), b, Excess(|chains[b]| + 1, ideal));
  }

  lemma PushedBuckets(hhNext: seq<int>, hhPrev: seq<int>, buckets: seq<Bucket>, chains: Chains, b: nat, e: nat, mult: nat)
    requires BucketsOk(hhNext, hhPrev, buckets, chains) && b < |chains| && e < |hhNext|
    requires forall c: nat :: c < |chains| ==> e !in chains[c]
    requires forall c: nat, x :: c < |chains| && c != b && x in chains[c] ==> x !in chains[b]
    ensures var h := buckets[b].head;
      && (h == NULL || 0 <= h < |hhPrev| == |hhNext|)
      && BucketsOk(hhNext[e := h], Assign(hhPrev[e := NULL], h, e), buckets[b := Bucket(e, buckets[b].count + 1, mult)],
                   Pushed(chains, b, e))
  {
    hide Doubly;
    assert BucketOk(hhNext, hhPrev, buckets[b], chains[b]);
    PushFront(hhNext, hhPrev, chains[b], e);
    DoublySizes(hhNext, hhPrev, chains[b]);
    var h := buckets[b].head;
    var hhNext', hhPrev' := hhNext[e := h], Assign(hhPrev[e := NULL], h, e);
    var buckets', chains' := buckets[b := Bucket(e, buckets[b].count + 1, mult)], Pushed(chains, b, e);
    forall c | 0 <= c < |chains| ensures BucketOk(hhNext', hhPrev', buckets'[c], chains'[c]) {
      if c != b {
        assert BucketOk(hhNext, hhPrev, buckets[c], chains[c]);
        assert h != NULL ==> h in chains[b];
        Untouched(hhNext, hhPrev, hhNext', hhPrev', chains[c], {e as int, h});
      }
    }
  }

  lemma DoublySizes(next: seq<int>, prev: seq<int>, s: seq<nat>)
    requires Doubly(next, prev, s)
    ensures |next| == |prev|
  {
  }

  // ----- Adding and deleting -----

  lemma ChainsDisjoint(hashv: seq<nat>, listed: seq<nat>, chains: Chains, e: nat)
    requires Placed(hashv, listed, chains) && e !in listed
    ensures forall b: nat :: b < |chains| ==> e !in chains[b]
    ensures forall b: nat, c: nat, x :: b < |chains| && c < |chains| && c != b && x in chains[c] ==> x !in chains[b]
  {
    forall b: nat, c: nat, x | b < |chains| && c < |chains| && c != b && x in chains[c] ensures x !in chains[b] {
      ChainsApart(hashv, listed, chains, b, c);
    }
  }

  lemma BucketedAdd(hhNext: seq<int>, hhPrev: seq<int>, hashv: seq<nat>, buckets: seq<Bucket>, listed: seq<nat>,
                    chains: Chains, e: nat, h: nat)
    requires Bucketed(hhNext, hhPrev, hashv, buckets, listed, chains) && e < |hashv| && e !in listed
    ensures var b := ToBucket(h, |chains|);
      var first := buckets[b].head;
      && (first == NULL || 0 <= first < |hhPrev| == |hhNext|)
      && Bucketed(hhNext[e := first], Assign(hhPrev[e := NULL], first, e), hashv[e := h],
                  buckets[b := Bucket(e, buckets[b].count + 1, buckets[b].expandMult)], listed + [e], Pushed(chains, b, e))
  {
    hide BucketOk, Sum;
    var b := ToBucket(h, |chains|);
    ChainsDisjoint(hashv, listed, chains, e);
    PushedBuckets(hhNext, hhPrev, buckets, chains, b, e, buckets[b].expandMult);
    PushedSums(chains, b, e, 0);
    PlacedAdd(hashv, listed, chains, e, h);
  }

  lemma PlacedAdd(hashv: seq<nat>, listed: seq<nat>, chains: Chains, e: nat, h: nat)
    requires chains != [] && Placed(hashv, listed, chains) && e < |hashv| && e !in listed
    ensures Placed(hashv[e := h], listed + [e], Pushed(chains, ToBucket(h, |chains|), e))
  {
    hide And;
    var b, hashv', listed' := ToBucket(h, |chains|), hashv[e := h], listed + [e];
    var chains' := Pushed(chains, b, e);
    forall c: nat, x | c < |chains| ensures x in chains'[c] <==> x in listed' && Selected(hashv', x, |chains|) == c {
      assert x in chains[c] <==> x in listed && Selected(hashv, x, |chains|) == c;
    }
  }

  lemma PlacedDelete(hashv: seq<nat>, listed: seq<nat>, chains: Chains, i: nat, b: nat, k: nat)
    requires Placed(hashv, listed, chains) && NoRepeats(listed) && i < |listed|
    requires b < |chains| && k < |chains[b]| && NoRepeats(chains[b]) && chains[b][k] == listed[i]
    ensures Placed(hashv, Without(listed, i), chains[b := Without(chains[b], k)])
  {
    hide Selected, Without;
    var chain, listed' := chains[b], Without(listed, i);
    WithoutMembers(chain, k);
    WithoutMembers(listed, i);
    var chains' := chains[b := Without(chain, k)];
    assert listed[i] in chains[b];
    forall c: nat, x | c < |chains| ensures x in chains'[c] <==> x in listed' && Selected(hashv, x, |chains|) == c {
      assert x in chains[c] <==> x in listed && Selected(hashv, x, |chains|) == c;
    }
    forall j | 0 <= j < |listed'| ensures listed'[j] < |hashv| { assert listed'[j] in listed'; }
  }

  lemma BucketedDelete(hhNext: seq<int>, hhPrev: seq<int>, hashv: seq<nat>, buckets: seq<Bucket>, listed: seq<nat>,
                       chains: Chains, i: nat, b: nat, k: nat)
    requires Bucketed(hhNext, hhPrev, hashv, buckets, listed, chains) && NoRepeats(listed)
    requires i < |listed| && b < |chains| && k < |chains[b]| && chains[b][k] == listed[i]
    ensures var e := listed[i];
      && 0 < buckets[b].count && e < |hhNext| == |hhPrev|
      && (hhPrev[e] == NULL || 0 <= hhPrev[e] < |hhNext|) && (hhNext[e] == NULL || 0 <= hhNext[e] < |hhNext|)
      && var first := if buckets[b].head == e then hhNext[e] else buckets[b].head;
      Bucketed(Assign(hhNext, hhPrev[e], hhNext[e]), Assign(hhPrev, hhNext[e], hhPrev[e]), hashv,
               buckets[b := Bucket(first, buckets[b].count - 1, buckets[b].expandMult)],
               Without(listed, i), chains[b := Without(chains[b], k)])
  {
    var e, chain := listed[i], chains[b];
    hide Sum, Placed, Linked, At;
    assert BucketOk(hhNext, hhPrev, buckets[b], chain);
    UnlinkBuckets(hhNext, hhPrev, buckets, chains, b, k, hashv, listed);
    assert Lengths(chains[b := Without(chain, k)]) == Lengths(chains)[b := |chain| - 1];
    SumUpdate(Lengths(chains), b, |chain| - 1);
    PlacedDelete(hashv, listed, chains, i, b, k);
  }

  lemma UnlinkBuckets(hhNext: seq<int>, hhPrev: seq<int>, buckets: seq<Bucket>, chains: Chains, b: nat, k: nat,
                      hashv: seq<nat>, listed: seq<nat>)
    requires BucketsOk(hhNext, hhPrev, buckets, chains) && Placed(hashv, listed, chains) && b < |chains| && k < |chains[b]|
    ensures var e := chains[b][k];
      && 0 < buckets[b].count && e < |hhNext| == |hhPrev|
      && (hhPrev[e] == NULL || 0 <= hhPrev[e] < |hhNext|) && (hhNext[e] == NULL || 0 <= hhNext[e] < |hhNext|)
      && var first := if buckets[b].head == e then hhNext[e] else buckets[b].head;
      BucketsOk(Assign(hhNext, hhPrev[e], hhNext[e]), Assign(hhPrev, hhNext[e], hhPrev[e]),
                buckets[b := Bucket(first, buckets[b].count - 1, buckets[b].expandMult)],
                chains[b := Without(chains[b], k)])
  {
    var e, chain := chains[b][k], chains[b];
    assert BucketOk(hhNext, hhPrev, buckets[b], chain);
    assert Linked(hhNext, hhPrev, chain, k);
    Unlink(hhNext, hhPrev, chain, k);
    hide Doubly, Linked;
    DoublySizes(hhNext, hhPrev, chain);
    var hhNext', hhPrev' := Assign(hhNext, hhPrev[e], hhNext[e]), Assign(hhPrev, hhNext[e], hhPrev[e]);
    var first := if buckets[b].head == e then hhNext[e] else buckets[b].head;
    FirstWithout(chain, k);
    if k > 0 { assert chain[0] != chain[k] by { DoublyDistinct(hhNext, hhPrev, chain, 0, k); } }
    var buckets' := buckets[b := Bucket(first, buckets[b].count - 1, buckets[b].expandMult)];
    var chains' := chains[b := Without(chain, k)];
    forall c | 0 <= c < |chains| ensures BucketOk(hhNext', hhPrev', buckets'[c], chains'[c]) {
      if c != b {
        assert BucketOk(hhNext, hhPrev, buckets[c], chains[c]);
        assert hhPrev[e] == NULL || hhPrev[e] in chain;
        assert hhNext[e] == NULL || hhNext[e] in chain;
        ChainsApart(hashv, listed, chains, b, c);
        Untouched(hhNext, hhPrev, hhNext', hhPrev', chains[c], {hhPrev[e], hhNext[e]});
      }
    }
  }

  lemma ChainsApart(hashv: seq<nat>, listed: seq<nat>, chains: Chains, b: nat, c: nat)
    requires Placed(hashv, listed, chains) && b < |chains| && c < |chains| && b != c
    ensures forall x :: x in chains[c] ==> x !in chains[b]
  {
    forall x | x in chains[c] ensures x !in chains[b] {
      assert Selected(hashv, x, |chains|) == c;
    }
  }

  lemma DoublyDistinct(next: seq<int>, prev: seq<int>, s: seq<nat>, i: nat, j: nat)
    requires Doubly(next, prev, s) && i < j < |s|
    ensures s[i] != s[j]
  {
  }

  lemma FirstWithout(s: seq<nat>, k: nat)
    requires k < |s|
    ensures |Without(s, k)| == |s| - 1 && At(Without(s, k), 0) == if k == 0 then At(s, 1) else At(s, 0)
  {
  }
}
