/** The intrusive hash table: an application-ordered list and bucket chains over the same elements. */
module HashTable {
  import opened HashLinks
  import opened HashMasks
  import opened HashBuckets
  import opened HashExpansion
  import opened HashSpec
  import opened HashCalls
  import opened HashCheck
  import opened HashSort
  import opened HashSortLinks

  const INITIAL_NUM_BUCKETS: nat := 32
  const INITIAL_NUM_BUCKETS_LOG2: nat := 5
  const CAPACITY_THRESHOLD: nat := 10

  /** The table's own record; `bloom` holds the indices of the filter bits that are set. */
  datatype Table = Table(
    tail: int,
    buckets: seq<Bucket>,
    numBuckets: nat,
    log2NumBuckets: nat,
    numItems: nat,
    idealChainMaxlen: nat,
    nonidealItems: nat,
    ineffExpands: nat,
    noexpand: bool,
    bloom: set<nat>)

  ghost predicate PowerSized(tbl: Table, chains: Chains) {
    tbl.numBuckets == |tbl.buckets| == |chains| == Pow2(tbl.log2NumBuckets)
  }

  class HashTable<K(==)> {
    const keys: seq<K>            // the key of every element the application may add
    const hash: K -> nat
    const bloomEnabled: bool
    const bloomBits: nat

    // the hash handles
    var next: seq<int>
    var prev: seq<int>
    var hhNext: seq<int>
    var hhPrev: seq<int>
    var hashv: seq<nat>

    var head: int
    var tbl: Table                // meaningful while `head` is not NULL

    ghost var order: seq<nat>     // the elements in application order
    ghost var chains: Chains      // the elements of each bucket
    ghost var expansions: seq<bool>  // whether each expansion of this table so far was ineffective

    ghost predicate Sized()
      reads this
    {
      |next| == |prev| == |hhNext| == |hhPrev| == |hashv| == |keys|
    }

    /** The stored hash values are those of the keys, and the filter has seen them all. */
    ghost predicate HashOk(order: seq<nat>, hashv: seq<nat>, bits: set<nat>) {
      && InBounds(order, |hashv|) && |hashv| == |keys|
      && forall i :: 0 <= i < |order| ==> hashv[order[i]] == hash(keys[order[i]]) && BloomTest(bits, hashv[order[i]])
    }

    ghost predicate Listed()
      reads this
    {
      Doubly(next, prev, order) && head == At(order, 0) && tbl.tail == Last(order) && tbl.numItems == |order|
    }

    ghost predicate Chained()
      reads this
    {
      PowerSized(tbl, chains) && Bucketed(hhNext, hhPrev, hashv, tbl.buckets, order, chains)
    }

    ghost predicate Valid()
      reads this
    {
      && Sized() && UniqueKeys(keys, order) && (head == NULL <==> order == [])
      && (order != [] ==> Listed() && Chained() && HashOk(order, hashv, tbl.bloom) && Tracked(tbl, expansions))
    }

    /** The elements whose hash values select a bucket. */
    ghost function Crowd(b: nat): set<nat>
      reads this
    {
      set e | e in order && e < |keys| && tbl.numBuckets > 0 && hash(keys[e]) % tbl.numBuckets == b
    }

    function BloomIndex(h: nat): nat {
      And(h, Pow2(bloomBits) - 1)
    }

    predicate BloomTest(bits: set<nat>, h: nat) {
      bloomEnabled ==> BloomIndex(h) in bits
    }

    constructor (keys: seq<K>, hash: K -> nat, bloomEnabled: bool, bloomBits: nat)
      ensures Valid() && order == [] && this.keys == keys && this.hash == hash
    {
      this.keys, this.hash, this.bloomEnabled, this.bloomBits := keys, hash, bloomEnabled, bloomBits;
      next, prev := seq(|keys|, _ => NULL), seq(|keys|, _ => NULL);
      hhNext, hhPrev := seq(|keys|, _ => NULL), seq(|keys|, _ => NULL);
      hashv := seq(|keys|, _ => 0);
      head := NULL;
      order, chains := [], [];
    }

    // ----- Finding -----

    method FindInBucket(b: nat, key: K) returns (out: int)
      requires Sized() && Chained() && b < tbl.numBuckets
      ensures out != NULL ==> 0 <= out < |keys| && out in chains[b] && keys[out] == key
      ensures out == NULL ==> forall e :: e in chains[b] && e < |keys| ==> keys[e] != key
    {
      ghost var chain := chains[b];
      assert BucketOk(hhNext, hhPrev, tbl.buckets[b], chain);
      out := tbl.buckets[b].head;
      ghost var j := 0;
      while out != NULL
        invariant 0 <= j <= |chain| && out == At(chain, j)
        invariant forall i :: 0 <= i < j && chain[i] < |keys| ==> keys[chain[i]] != key
        decreases |chain| - j
      {
        assert Linked(hhNext, hhPrev, chain, j);
        if keys[out] == key {
          return;
        }
        out := hhNext[out];
        j := j + 1;
      }
    }

    method Find(key: K) returns (out: int)
      requires Valid()
      ensures Looked(keys, order, key, out)
    {
      out := NULL;
      if head != NULL {
        var h := hash(key);
        var b := ToBucket(h, tbl.numBuckets);
        if BloomTest(tbl.bloom, h) {
          out := FindInBucket(b, key);
        }
        LookedUp(key, h, b, out);
      }
    }

    /** Looking only into the bucket of the key, and only if the filter passes, misses nothing. */
    lemma LookedUp(key: K, h: nat, b: nat, out: int)
      requires Valid() && head != NULL && h == hash(key) && b == ToBucket(h, |chains|)
      requires !BloomTest(tbl.bloom, h) ==> out == NULL
      requires BloomTest(tbl.bloom, h) ==>
        if out == NULL then forall e :: e in chains[b] && e < |keys| ==> keys[e] != key
        else 0 <= out < |keys| && out in chains[b] && keys[out] == key
      ensures Looked(keys, order, key, out)
    {
      hide And, Doubly, BucketsOk, Pow2;
      if out != NULL {
        assert out in order;
      }
      forall e | e in order && e < |keys| && keys[e] == key ensures e in chains[b] && BloomTest(tbl.bloom, h) {
        var k := IndexIn(order, e);
        assert hashv[order[k]] == h;
        assert Selected(hashv, e, |chains|) == b;
      }
    }

    // ----- Adding -----

    /** An empty table for the first element. */
    method MakeTable(e: nat)
      modifies this`tbl, this`chains, this`expansions
      requires Sized()
      ensures tbl == EmptyTable(e) && PowerSized(tbl, chains)
      ensures Bucketed(hhNext, hhPrev, hashv, tbl.buckets, [], chains)
      ensures Fresh(tbl) && Tracked(tbl, expansions) && expansions == []
    {
      expansions := [];
      tbl := EmptyTable(e);
      chains := EmptyChains(INITIAL_NUM_BUCKETS);
      EmptyBucketed(hhNext, hhPrev, hashv, INITIAL_NUM_BUCKETS);
      InitialSize();
    }

    /** Put `e`, whose hash value has been computed, into its bucket; `listed` are the elements in buckets. */
    method AddToBucket(b: nat, e: nat, ghost listed: seq<nat>)
      requires Sized() && PowerSized(tbl, chains) && tbl.numItems == |listed| + 1
      requires Bucketed(hhNext, hhPrev, hashv, tbl.buckets, listed, chains)
      requires e < |keys| && e !in listed && b < tbl.numBuckets && b == ToBucket(hashv[e], tbl.numBuckets)
      requires Tracked(tbl, expansions)
      modifies this`hhNext, this`hhPrev, this`tbl, this`chains, this`expansions
      ensures Sized() && PowerSized(tbl, chains)
      ensures Bucketed(hhNext, hhPrev, hashv, tbl.buckets, listed + [e], chains)
      ensures SameList(tbl, old(tbl))
      ensures if old(Overfull(tbl, b)) then tbl.numBuckets == 2 * old(tbl.numBuckets) && Expanded(tbl, chains, old(tbl.ineffExpands))
              else tbl == old(tbl).(buckets := tbl.buckets)
      ensures Tracked(tbl, expansions)
      ensures expansions == if old(Overfull(tbl, b)) then old(expansions) + [Ineffective(tbl, chains)] else old(expansions)
    {
      BucketedAdd(hhNext, hhPrev, hashv, tbl.buckets, listed, chains, e, hashv[e]);
      assert hashv[e := hashv[e]] == hashv;
      hide Bucketed, Pow2, Pushed, TrackedBy, Ineffective;
      var bucket := tbl.buckets[b];
      hhNext := hhNext[e := bucket.head];
      hhPrev := Assign(hhPrev[e := NULL], bucket.head, e);
      bucket := Bucket(e, bucket.count + 1, bucket.expandMult);
      tbl := tbl.(buckets := tbl.buckets[b := bucket]);
      chains := Pushed(chains, b, e);
      if bucket.count >= (bucket.expandMult + 1) * CAPACITY_THRESHOLD && !tbl.noexpand {
        ExpandBuckets(listed + [e]);
      }
    }

    /** Append `e` to the application order. */
    method AppendToOrder(e: nat)
      requires Sized() && e < |keys| && e !in order
      requires if head == NULL then order == [] else order != [] && Doubly(next, prev, order) && tbl.tail == Last(order)
      requires head == NULL || (Chained() && tbl.numItems == |order| && Tracked(tbl, expansions))
      modifies this`next, this`prev, this`head, this`tbl, this`chains, this`expansions
      ensures Sized() && Doubly(next, prev, order + [e]) && head == (if order == [] then e as int else old(head))
      ensures tbl == (if order == [] then EmptyTable(e) else old(tbl).(tail := e)).(numItems := |order| + 1)
      ensures PowerSized(tbl, chains) && Bucketed(hhNext, hhPrev, hashv, tbl.buckets, order, chains)
      ensures Tracked(tbl, expansions) && expansions == (if order == [] then [] else old(expansions))
      ensures order == [] ==> Fresh(tbl.(numItems := 0))
    {
      hide Bucketed, Doubly, And, Pow2, EmptyBuckets, EmptyChains, TrackedBy, Fresh;
      if order != [] { PushBack(next, prev, order, e); } else { FirstLink(next, prev, e); }
      next := next[e := NULL];
      if head == NULL {
        head := e;
        prev := prev[e := NULL];
        MakeTable(e);
      } else {
        next := next[tbl.tail := e];
        prev := prev[e := tbl.tail];
        tbl := tbl.(tail := e);
      }
      tbl := tbl.(numItems := tbl.numItems + 1);
    }

    /** Add an element under a new key: it becomes the last one. */
    method Add(e: nat)
      requires Valid() && e < |keys| && e !in order && !HasKey(keys, order, keys[e])
      modifies this
      ensures Valid() && order == old(order) + [e]
      ensures old(order) != [] && old(tbl.noexpand) ==> tbl.noexpand && tbl.numBuckets == old(tbl.numBuckets)
      ensures old(order) != [] ==> tbl.numBuckets == old(if Grows(e) then 2 * tbl.numBuckets else tbl.numBuckets)
      ensures old(order) == [] ==> tbl.numBuckets == 32 && !tbl.noexpand && tbl.ineffExpands == 0 && expansions == []
      ensures old(order) != [] ==> old(expansions) <= expansions && |expansions| == old(|expansions| + if Grows(e) then 1 else 0)
    {
      AddReady(e);
      ghost var grows := order != [] && Grows(e);
      ghost var before, bits := tbl, if order == [] then {} else tbl.bloom;
      hide *;
      AppendToOrder(e);
      HashvIrrelevant(hhNext, hhPrev, hashv, tbl.buckets, order, chains, e, hash(keys[e]));
      hashv := hashv[e := hash(keys[e])];
      SizeKnown(tbl, chains);
      var b := ToBucket(hashv[e], tbl.numBuckets);
      assert Overfull(tbl, b) == grows by { SameFullness(before, tbl, b, order, e); }
      AddToBucket(b, e, order);
      ghost var grown := tbl;
      tbl := tbl.(bloom := BloomAdd(tbl.bloom, hashv[e]));
      order := order + [e];
      AddDone(e, before, grown, bits);
    }

    /** What adding needs to know of the table. */
    lemma AddReady(e: nat)
      requires Valid() && e < |keys| && e !in order && !HasKey(keys, order, keys[e])
      ensures Sized() && |hashv| == |keys| && UniqueKeys(keys, order + [e])
      ensures if head == NULL then order == [] else order != [] && Doubly(next, prev, order) && tbl.tail == Last(order)
      ensures head == NULL || (Chained() && tbl.numItems == |order| && Tracked(tbl, expansions))
      ensures var bits := if order == [] then {} else tbl.bloom;
        HashOk(order + [e], hashv[e := hash(keys[e])], BloomAdd(bits, hash(keys[e])))
      ensures order != [] ==>
        |tbl.buckets| == tbl.numBuckets > 0 && (Grows(e) <==> Overfull(tbl, ToBucket(hash(keys[e]), tbl.numBuckets)))
    {
      hide Bucketed, Doubly, UniqueKeys, HasKey, And, Pow2, HashOk, TrackedBy, Grows, Overfull;
      if order != [] { GrowsIff(e); } else { NoHashes(hashv); }
      UniqueAdd(keys, order, e);
      HashOkAdd(order, hashv, if order == [] then {} else tbl.bloom, e);
    }

    lemma AddDone(e: nat, before: Table, grown: Table, bits: set<nat>)
      requires Sized() && order != [] && UniqueKeys(keys, order) && Doubly(next, prev, order) && head == At(order, 0)
      requires grown.tail == Last(order) && grown.numItems == |order| && PowerSized(grown, chains)
      requires Bucketed(hhNext, hhPrev, hashv, grown.buckets, order, chains) && Tracked(grown, expansions)
      requires e < |keys| && tbl == grown.(bloom := BloomAdd(bits, hash(keys[e])))
      requires HashOk(order, hashv, BloomAdd(bits, hash(keys[e])))
      ensures Valid()
    {
      hide Bucketed, Doubly, UniqueKeys, Pow2, HashOk, TrackedBy, BloomAdd;
    }

    lemma NoHashes(hashv: seq<nat>)
      requires |hashv| == |keys|
      ensures HashOk([], hashv, {})
    {
    }

    lemma HashOkAdd(order: seq<nat>, hashv: seq<nat>, bits: set<nat>, e: nat)
      requires HashOk(order, hashv, bits) && e < |keys| && e !in order
      ensures HashOk(order + [e], hashv[e := hash(keys[e])], BloomAdd(bits, hash(keys[e])))
    {
      var order', hashv' := order + [e], hashv[e := hash(keys[e])];
      forall i | 0 <= i < |order'|
        ensures hashv'[order'[i]] == hash(keys[order'[i]]) && BloomTest(BloomAdd(bits, hash(keys[e])), hashv'[order'[i]])
      {
        if i < |order| { assert order[i] in order && order[i] != e; }
      }
    }

    /** Adding `e` to a table that is not empty doubles its buckets: its bucket would have ten elements, or ten more for
        every multiple of the ideal length it had before, and expansion is on. */
    ghost predicate Grows(e: nat)
      reads this
    {
      && e < |keys| && |tbl.buckets| == tbl.numBuckets > 0 && !tbl.noexpand
      && var b := hash(keys[e]) % tbl.numBuckets; |Crowd(b)| + 1 >= (tbl.buckets[b].expandMult + 1) * 10
    }

    /** The count kept with the bucket is the number of elements that select it. */
    lemma GrowsIff(e: nat)
      requires Valid() && order != [] && e < |keys|
      ensures tbl.numBuckets == |tbl.buckets| > 0
      ensures Grows(e) <==> Overfull(tbl, ToBucket(hash(keys[e]), tbl.numBuckets))
    {
      hide UniqueKeys, Listed, TrackedBy, Doubly, And, Pow2;
      var b := ToBucket(hash(keys[e]), tbl.numBuckets);
      MaskIsMod(hash(keys[e]), tbl.log2NumBuckets);
      Pow2Positive(tbl.log2NumBuckets);
      assert BucketOk(hhNext, hhPrev, tbl.buckets[b], chains[b]);
      CrowdIs(b);
      InChainOnce(hhNext, hhPrev, tbl.buckets[b], chains[b]);
      SizeOf(chains[b]);
    }

    lemma CrowdIs(b: nat)
      requires Valid() && order != [] && b < |chains|
      ensures Crowd(b) == Members(chains[b])
    {
      hide UniqueKeys, Listed, TrackedBy, Doubly, And, Pow2, BucketsOk;
      Pow2Positive(tbl.log2NumBuckets);
      forall x | x in order ensures x < |keys| && Selected(hashv, x, |chains|) == hash(keys[x]) % tbl.numBuckets {
        var k := IndexIn(order, x);
        MaskIsMod(hash(keys[x]), tbl.log2NumBuckets);
      }
      forall x ensures x in chains[b] <==> x in order && Selected(hashv, x, |chains|) == b {}
    }

    function BloomAdd(bits: set<nat>, h: nat): set<nat> {
      if bloomEnabled then bits + {BloomIndex(h)} else bits
    }

    /** With the filter on, a hash value passes iff it agrees with one that was added in the low bits. */
    lemma BloomAfter(bits: set<nat>, h: nat, g: nat)
      ensures BloomTest(BloomAdd(bits, h), g) <==> BloomTest(bits, g) || g % Pow2(bloomBits) == h % Pow2(bloomBits)
      ensures BloomTest({}, g) <==> !bloomEnabled
    {
      MaskIsMod(g, bloomBits);
      MaskIsMod(h, bloomBits);
    }

    // ----- Deleting and replacing -----

    /** Take the element at position `k` out of the application order. */
    method UnlinkFromOrder(e: nat, ghost k: nat)
      requires Sized() && Listed() && k < |order| && order[k] == e && |order| > 1
      modifies this`next, this`prev, this`head, this`tbl
      ensures Sized() && Doubly(next, prev, Without(order, k))
      ensures head == At(Without(order, k), 0) && tbl == old(tbl).(tail := Last(Without(order, k)))
    {
      Unlink(next, prev, order, k);
      Ends(next, prev, order, k);
      hide Doubly, Without, At;
      if e == tbl.tail {
        tbl := tbl.(tail := prev[e]);
      }
      var p, n := prev[e], next[e];
      if prev[e] != NULL {
        next := next[prev[e] := next[e]];
      } else {
        head := next[e];
      }
      assert next[e] == n;
      if next[e] != NULL {
        prev := prev[next[e] := prev[e]];
      }
    }

    /** Take `e` out of its bucket. */
    method DeleteFromBucket(b: nat, e: nat, ghost i: nat)
      requires Sized() && PowerSized(tbl, chains) && Bucketed(hhNext, hhPrev, hashv, tbl.buckets, order, chains)
      requires NoRepeats(order) && i < |order| && order[i] == e && b == Selected(hashv, e, |chains|)
      modifies this`hhNext, this`hhPrev, this`tbl, this`chains
      ensures Sized() && PowerSized(tbl, chains) && tbl == old(tbl).(buckets := tbl.buckets)
      ensures Bucketed(hhNext, hhPrev, hashv, tbl.buckets, Without(order, i), chains)
    {
      ghost var k := InChain(hashv, order, chains, i, b);
      BucketedDelete(hhNext, hhPrev, hashv, tbl.buckets, order, chains, i, b, k);
      hide Bucketed, Without, And, Pow2, NoRepeats;
      var bucket := tbl.buckets[b];
      bucket := Bucket(bucket.head, bucket.count - 1, bucket.expandMult);
      if bucket.head == e {
        bucket := Bucket(hhNext[e], bucket.count, bucket.expandMult);
      }
      var p, n := hhPrev[e], hhNext[e];
      hhNext, hhPrev := Assign(hhNext, p, n), Assign(hhPrev, n, p);
      tbl := tbl.(buckets := tbl.buckets[b := bucket]);
      chains := chains[b := Without(chains[b], k)];
    }

    /** Delete an element; deleting the only one frees the table. */
    method Delete(e: nat)
      requires Valid() && e in order
      modifies this
      ensures Valid() && order == Dropped(old(order), e)
      ensures order != [] ==> tbl == old(tbl).(tail := tbl.tail, buckets := tbl.buckets, numItems := old(tbl.numItems) - 1)
      ensures expansions == old(expansions)
    {
      ghost var k := IndexIn(order, e);
      UniqueNoRepeats(keys, order);
      DroppedAt(order, k);
      Unlink(next, prev, order, k);
      UniqueDrop(keys, order, k);
      HashOkDrop(order, hashv, tbl.bloom, k);
      assert prev[e] == NULL && next[e] == NULL <==> |order| == 1;
      hide Bucketed, Doubly, Without, And, Pow2, UniqueKeys, HashOk, NoRepeats, TrackedBy;
      if prev[e] == NULL && next[e] == NULL {
        head := NULL;
        order := Without(order, k);
        assert order == [] by { WithoutSize(old(order), k); }
      } else {
        UnlinkFromOrder(e, k);
        var b := ToBucket(hashv[e], tbl.numBuckets);
        DeleteFromBucket(b, e, k);
        tbl := tbl.(numItems := tbl.numItems - 1);
        WithoutSize(order, k);
        order := Without(order, k);
      }
    }

    lemma HashOkDrop(order: seq<nat>, hashv: seq<nat>, bits: set<nat>, k: nat)
      requires HashOk(order, hashv, bits) && k < |order|
      ensures HashOk(Without(order, k), hashv, bits)
    {
      var order' := Without(order, k);
      forall i | 0 <= i < |order'|
        ensures order'[i] < |hashv| && hashv[order'[i]] == hash(keys[order'[i]]) && BloomTest(bits, hashv[order'[i]])
      {
        assert order'[i] == order[if i < k then i else i + 1];
      }
    }

    /** Add `e`, after deleting the element that has the same key, if any. */
    method Replace(e: nat) returns (replaced: int)
      requires Valid() && e < |keys|
      modifies this
      ensures Valid() && Looked(keys, old(order), keys[e], replaced)
      ensures order == (if replaced == NULL then old(order) else Dropped(old(order), replaced)) + [e]
      ensures old(order) != [] && old(tbl.noexpand) && (replaced == NULL || |old(order)| > 1) ==>
        tbl.noexpand && tbl.numBuckets == old(tbl.numBuckets)
    {
      hide Bucketed, Doubly, And, Pow2, HashOk, Bucketed, Listed, Chained;
      replaced := Find(keys[e]);
      if replaced != NULL {
        DropKey(keys, order, replaced, e);
        Delete(replaced);
      } else {
        KeyNotListed(keys, order, e);
      }
      Add(e);
    }

    // ----- Whole runs -----

    /** Any sequence of allowed calls behaves like the abstract table.  Expansion that was switched off stays
        off, and the buckets keep their number, as long as the calls do not empty the table. */
    method Run(calls: seq<Call<K>>) returns (results: seq<int>)
      requires Valid() && AllAllowed(keys, order, calls)
      modifies this
      ensures Valid() && order == After(keys, old(order), calls) && results == Outcomes(keys, old(order), calls)
      ensures old(order) != [] && old(tbl.noexpand) && NeverEmptied(keys, old(order), calls) ==>
        order != [] && tbl.noexpand && tbl.numBuckets == old(tbl.numBuckets)
      ensures order != [] ==> (tbl.noexpand <==> TwoInARow(expansions))
      ensures order != [] ==> tbl.numBuckets == 32 * Pow2(|expansions|)
    {
      hide *;
      results := [];
      CallsStart(keys, order, calls);
      for i := 0 to |calls|
        invariant Valid() && AllAllowed(keys, order, calls[i..])
        invariant After(keys, order, calls[i..]) == After(keys, old(order), calls)
        invariant results + Outcomes(keys, order, calls[i..]) == Outcomes(keys, old(order), calls)
        invariant old(order) != [] && old(tbl.noexpand) && NeverEmptied(keys, old(order), calls) ==>
          && order != [] && tbl.noexpand && tbl.numBuckets == old(tbl.numBuckets)
          && NeverEmptied(keys, order, calls[i..])
      {
        CallsUnfold(keys, order, calls, i);
        if NeverEmptied(keys, order, calls[i..]) { NeverEmptiedUnfold(keys, order, calls, i); }
        var result := Do(calls[i]);
        results := results + [result];
      }
      CallsStart(keys, order, calls);
      if order != [] { ExpansionLaw(); }
    }

    /** Expansion is off only after two ineffective expansions in a row, and every expansion has doubled the buckets. */
    lemma ExpansionLaw()
      requires Valid() && order != []
      ensures tbl.noexpand <==> TwoInARow(expansions)
      ensures tbl.numBuckets == 32 * Pow2(|expansions|)
    {
      hide Pow2;
      Pow2Plus(INITIAL_NUM_BUCKETS_LOG2, |expansions|);
      InitialSize();
    }

    lemma ValidUnique()
      requires Valid()
      ensures UniqueKeys(keys, order)
    {
    }

    method Do(c: Call<K>) returns (result: int)
      requires Valid() && Allowed(keys, order, c)
      modifies this
      ensures Valid() && order == Step(keys, old(order), c) && result == Outcome(keys, old(order), c)
      ensures old(order) != [] && old(tbl.noexpand) && KeepsTable(keys, old(order), c) ==>
        order != [] && tbl.noexpand && tbl.numBuckets == old(tbl.numBuckets)
    {
      ValidUnique();
      hide Valid, HasKey, Dropped, UniqueKeys;
      result := NULL;
      match c
      case FindCall(key) =>
        result := Find(key);
        LookedUnique(keys, order, key, result);
      case AddCall(e) => Add(e);
      case ReplaceCall(e) =>
        ghost var was := order;
        result := Replace(e);
        LookedUnique(keys, was, keys[e], result);
      case DeleteCall(e) =>
        DropUnique(keys, order, e);
        DroppedSize(keys, order, e);
        Delete(e);
      case SortCall(cmp) => Sort(cmp);
    }

    /** Visit the elements in application order; the successor is fetched before the element is handled. */
    method Iterate() returns (visited: seq<nat>)
      requires Valid()
      ensures visited == order
    {
      visited := [];
      var el := head;
      var tmp := if head != NULL then next[head] else NULL;
      assert head != NULL ==> Linked(next, prev, order, 0);
      while el != NULL
        invariant |visited| <= |order| && forall i :: 0 <= i < |visited| ==> visited[i] == order[i]
        invariant el == At(order, |visited|) && tmp == (if el != NULL then At(order, |visited| + 1) else NULL)
        decreases |order| - |visited|
      {
        if tmp != NULL { assert Linked(next, prev, order, |visited| + 1); }
        visited := visited + [el];
        el := tmp;
        tmp := if tmp != NULL then next[tmp] else NULL;
      }
    }

    /** The integrity check passes on every table reached by calls. */
    method Check() returns (ok: bool)
      requires Valid()
      ensures ok
    {
      ok := true;
      if head != NULL {
        assert Proper(next, prev, head, order);
        forall b | 0 <= b < |tbl.buckets| ensures Followable(hhNext, hhPrev, tbl.buckets[b].head) {
          BucketProper(hhNext, hhPrev, tbl.buckets, chains, b);
        }
        assert Intact(next, prev, hhNext, hhPrev, head, tbl.buckets, tbl.numItems, chains, order);
        ghost var c, o;
        ok, c, o := Fsck(next, prev, hhNext, hhPrev, head, tbl.buckets, tbl.numItems);
      }
    }

    // ----- Sorting -----

    /** Link `e` after the last element of the output. */
    method AppendSorted(e: nat, list: int, last: int) returns (newList: int)
      requires e < |next| && e < |prev| && (last == NULL || 0 <= last < |next|)
      modifies this`next, this`prev
      ensures next == Assign(old(next), last, e) && prev == old(prev)[e := last]
      ensures newList == if last == NULL then e as int else list
    {
      newList := list;
      if last != NULL {
        next := next[last := e];
      } else {
        newList := e;
      }
      prev := prev[e := last];
    }

    /** Merge the run `p0` with the following run `q0`, of at most `insize` elements, onto the output.
        On ties the element of the left run goes first. */
    method MergeRuns(pFirst: int, pLength: nat, qFirst: int, insize: nat, listIn: int, lastIn: int, cmp: Comparison,
                     ghost out0: seq<nat>, ghost p0: seq<nat>, ghost q0: seq<nat>, ghost rest: seq<nat>)
      returns (q: int, list: int, last: int)
      requires Merging(next, prev, out0, p0, q0 + rest) && pLength == |p0| && (p0 != [] ==> pFirst == p0[0])
      requires qFirst == At(q0 + rest, 0) && |q0| <= insize && (|q0| < insize ==> rest == [])
      requires listIn == At(out0, 0) && lastIn == Last(out0)
      modifies this`next, this`prev
      ensures |next| == old(|next|) && |prev| == old(|prev|)
      ensures Merging(next, prev, Merged(out0, p0, q0, cmp), [], rest) && q == At(rest, 0)
      ensures list == At(Merged(out0, p0, q0, cmp), 0) && last == Last(Merged(out0, p0, q0, cmp))
    {
      hide Merging, Merge, Merged, Last;
      list, last, q := listIn, lastIn, qFirst;
      var p, psize, qsize := pFirst, pLength, insize;
      ghost var out, ps, qs := out0, p0, q0;
      while psize > 0 || (qsize > 0 && q != NULL)
        invariant |next| == old(|next|) && |prev| == old(|prev|)
        invariant Merging(next, prev, out, ps, qs + rest) && psize == |ps| && (ps != [] ==> p == ps[0])
        invariant q == At(qs + rest, 0) && |qs| <= qsize && (|qs| < qsize ==> rest == [])
        invariant list == At(out, 0) && last == Last(out)
        invariant Merged(out, ps, qs, cmp) == Merged(out0, p0, q0, cmp)
        decreases |ps| + |qs|
      {
        MergedStep(out, ps, qs, cmp);
        var e;
        var fromRight := if psize == 0 then true else if qsize == 0 || q == NULL then false else cmp(p, q) > 0;
        if fromRight {
          assert qs != [] && (qs + rest)[1..] == qs[1..] + rest;
          MergeRight(next, prev, out, ps, qs + rest);
          e := q;
          q := next[q];
          qsize := qsize - 1;
          qs := qs[1..];
        } else {
          MergeLeft(next, prev, out, ps, qs + rest);
          e := p;
          p := next[p];
          psize := psize - 1;
          ps := ps[1..];
        }
        list := AppendSorted(e, list, last);
        PushEnds(out, e);
        last := e;
        out := out + [e as nat];
      }
      assert qs == [] && qs + rest == rest && ps == [];
      MergedDone(out, cmp);
    }

    /** Step over the first run; `input` is the whole remaining list. */
    method SkipRun(p: int, insize: nat, ghost runs: seq<seq<nat>>) returns (q: int, psize: nat)
      requires runs != [] && RunSizes(runs, insize) && Closed(next, Flatten(runs)) && p == At(Flatten(runs), 0)
      ensures psize == |runs[0]| && q == At(Flatten(runs[1..]), 0)
    {
      ghost var input := Flatten(runs);
      assert input == runs[0] + Flatten(runs[1..]) && (|runs| == 1 ==> runs[1..] == []);
      hide Flatten, Closed;
      q, psize := p, 0;
      for i := 0 to insize
        invariant psize == i <= |runs[0]| && q == At(input, i) != NULL
      {
        ClosedAt(next, input, i);
        psize := psize + 1;
        q := next[q];
        if q == NULL {
          break;
        }
      }
    }

    /** One pass over the list: merge the runs pairwise. */
    method SortPass(listIn: int, insize: nat, cmp: Comparison, ghost runs: seq<seq<nat>>)
      returns (list: int, last: int, nmerges: nat)
      requires runs != [] && RunSizes(runs, insize) && insize > 0
      requires Doubly(next, prev, Flatten(runs)) && listIn == At(Flatten(runs), 0)
      modifies this`next, this`prev
      ensures |next| == |prev| == old(|next|)
      ensures Doubly(next, prev, Flatten(MergePass(runs, cmp)))
      ensures list == At(Flatten(MergePass(runs, cmp)), 0) && last == Last(Flatten(MergePass(runs, cmp)))
      ensures nmerges == |MergePass(runs, cmp)|
    {
      ghost var result := Flatten(MergePass(runs, cmp));
      StartMerging(next, prev, Flatten(runs));
      NothingPassed(runs, cmp);
      assert |next| == |prev| && At([], 0) == NULL && Last([]) == NULL;
      hide *;
      var p := listIn;
      list, last, nmerges := NULL, NULL, 0;
      ghost var out: seq<nat>, left := [], runs;
      while p != NULL
        invariant |next| == |prev| == old(|next|)
        invariant RunSizes(left, insize) && Merging(next, prev, out, [], Flatten(left)) && p == At(Flatten(left), 0)
        invariant list == At(out, 0) && last == Last(out)
        invariant Passed(out, left, cmp) == result
        invariant nmerges + |MergePass(left, cmp)| == |MergePass(runs, cmp)|
        decreases |left|
      {
        TakeRuns(next, prev, out, left, insize, cmp);
        nmerges := nmerges + 1;
        var q, psize := SkipRun(p, insize, left);
        ghost var second := SecondRun(left);
        p, list, last := MergeRuns(p, psize, q, insize, list, last, cmp, out, left[0], second, Flatten(Rest(left)));
        out := Merged(out, left[0], second, cmp);
        left := Rest(left);
      }
      NothingLeft(next, prev, out, left, insize, cmp);
      next := Assign(next, last, NULL);
    }

    /** Passes with doubling run lengths, until one merge covers the whole list. */
    method SortList(first: int, cmp: Comparison, ghost start: seq<nat>) returns (list: int, last: int, ghost sorted: seq<nat>)
      requires Doubly(next, prev, start) && first == At(start, 0) && start != []
      modifies this`next, this`prev
      ensures |next| == |prev| == old(|next|)
      ensures Doubly(next, prev, sorted) && list == At(sorted, 0) && last == Last(sorted)
      ensures sorted == MergeSort(start, cmp)
    {
      assert NoRepeats(start) && |next| == |prev| && MergeSort(start, cmp) == SortRuns(Singles(start), cmp);
      hide *;
      SinglesStart(cmp, start);
      ghost var runs := Singles(start);
      list, last := first, NULL;
      var insize: nat := 1;
      var looping := true;
      while looping
        invariant |next| == |prev| == old(|next|) && Doubly(next, prev, Flatten(runs)) && list == At(Flatten(runs), 0)
        invariant RunSizes(runs, insize) && runs != [] && insize > 0 && SortRuns(runs, cmp) == MergeSort(start, cmp)
        invariant !looping ==> |runs| == 1 && last == Last(Flatten(runs))
        decreases if looping then |runs| + 1 else 0
      {
        var nmerges;
        list, last, nmerges := SortPass(list, insize, cmp, runs);
        SortRunsStep(runs, cmp);
        PassSizes(runs, insize, cmp);
        runs := MergePass(runs, cmp);
        if nmerges <= 1 {
          looping := false;
        }
        insize := insize * 2;
      }
      SortRunsStep(runs, cmp);
      sorted := Flatten(runs);
    }

    /** Sort the application order in place; buckets and chains are not touched. */
    method Sort(cmp: Comparison)
      requires Valid()
      modifies this`next, this`prev, this`head, this`tbl, this`order
      ensures Valid() && order == MergeSort(old(order), cmp) && IsStableSort(cmp, old(order), order)
      ensures order != [] ==> tbl == old(tbl).(tail := tbl.tail)
    {
      SortedOrder(cmp);
      hide *;
      if head != NULL {
        ghost var start, was := order, tbl;
        var list, last;
        list, last, order := SortList(head, cmp, order);
        tbl := tbl.(tail := last);
        head := list;
        Reordered(start, was, cmp);
      }
    }

    /** What sorting needs to know of the table. */
    lemma SortedOrder(cmp: Comparison)
      requires Valid()
      ensures UniqueKeys(keys, order) && (head == NULL ==> order == [])
      ensures head != NULL ==>
        && order != [] && Doubly(next, prev, order) && head == At(order, 0) && tbl.numItems == |order|
        && |next| == |prev| == |hhNext| == |hhPrev| == |hashv| == |keys| && PowerSized(tbl, chains)
        && Bucketed(hhNext, hhPrev, hashv, tbl.buckets, order, chains) && HashOk(order, hashv, tbl.bloom)
        && Tracked(tbl, expansions)
      ensures IsStableSort(cmp, order, MergeSort(order, cmp)) && (order == [] ==> MergeSort(order, cmp) == [])
    {
      hide Doubly, Bucketed, HashOk, StableSorted;
      UniqueNoRepeats(keys, order);
      MergeSortProps(cmp, order);
    }

    /** A table whose application order was permuted, with the links to match, is still valid. */
    lemma Reordered(start: seq<nat>, was: Table, cmp: Comparison)
      requires start != [] && IsStableSort(cmp, start, order)
      requires tbl == was.(tail := Last(order))
      requires |next| == |prev| == |hhNext| == |hhPrev| == |hashv| == |keys|
      requires UniqueKeys(keys, start) && PowerSized(was, chains) && was.numItems == |start|
      requires Bucketed(hhNext, hhPrev, hashv, was.buckets, start, chains) && HashOk(start, hashv, was.bloom)
      requires Tracked(was, expansions)
      requires Doubly(next, prev, order) && head == At(order, 0)
      ensures Valid()
    {
      SameElements(start, order);
      UniqueSame(keys, start, order);
      BucketedSame(hhNext, hhPrev, hashv, was.buckets, start, chains, order);
      HashOkSame(start, hashv, was.bloom, order);
    }

    lemma HashOkSame(order: seq<nat>, hashv: seq<nat>, bits: set<nat>, other: seq<nat>)
      requires HashOk(order, hashv, bits) && forall e :: e in other ==> e in order
      ensures HashOk(other, hashv, bits)
    {
      forall i | 0 <= i < |other|
        ensures other[i] < |hashv| && hashv[other[i]] == hash(keys[other[i]]) && BloomTest(bits, hashv[other[i]])
      {
        var k := IndexIn(order, other[i]);
      }
    }

    // ----- Expanding -----

    /** Double the number of buckets and rebuild every chain. */
    method ExpandBuckets(ghost listed: seq<nat>)
      requires Sized() && PowerSized(tbl, chains) && tbl.numItems == |listed| > 0
      requires Bucketed(hhNext, hhPrev, hashv, tbl.buckets, listed, chains) && !tbl.noexpand && Tracked(tbl, expansions)
      modifies this`hhNext, this`hhPrev, this`tbl, this`chains, this`expansions
      ensures Sized() && PowerSized(tbl, chains) && tbl.numBuckets == 2 * old(tbl.numBuckets)
      ensures Bucketed(hhNext, hhPrev, hashv, tbl.buckets, listed, chains)
      ensures SameList(tbl, old(tbl)) && Expanded(tbl, chains, old(tbl.ineffExpands))
      ensures Tracked(tbl, expansions) && expansions == old(expansions) + [Ineffective(tbl, chains)]
    {
      hide Bucketed, BucketsOk, MovedSoFar, Untaken, Ahead, Multiplied, Placed, Sum, And, Lengths, Excesses, IsCeil, Pushed,
           EmptyBuckets, EmptyChains, TrackedBy, Ineffective;
      ghost var before := tbl;
      var n2 := 2 * tbl.numBuckets;
      assert n2 == Pow2(tbl.log2NumBuckets + 1);
      var ideal := ShiftRight(tbl.numItems, tbl.log2NumBuckets + 1) + (if And(tbl.numItems, n2 - 1) != 0 then 1 else 0);
      CeilByMask(tbl.numItems, tbl.log2NumBuckets + 1);
      CeilPositive(ideal, tbl.numItems, n2);
      tbl := tbl.(idealChainMaxlen := ideal, nonidealItems := 0);
      var newBuckets := EmptyBuckets(n2);
      ghost var newChains := EmptyChains(n2);
      NothingMoved(hhNext, hhPrev, hashv, tbl.buckets, listed, chains, n2, ideal);
      Parts(hhNext, hhPrev, hashv, tbl.buckets, listed, chains);
      ghost var lengths, tbl0 := Lengths(chains), tbl;
      ghost var hhNext0, hhPrev0 := hhNext, hhPrev;
      assert Sum(lengths[..0]) == 0 by { SumZero(lengths[..0]); }
      for i := 0 to tbl.numBuckets
        modifies this`hhNext, this`hhPrev, this`tbl
        invariant Sized() && |newBuckets| == |newChains| == n2 && tbl == tbl0.(nonidealItems := tbl.nonidealItems)
        invariant MovedSoFar(hashv, listed, chains, i, 0, newChains) && BucketsOk(hhNext, hhPrev, newBuckets, newChains)
        invariant Untaken(hhNext, hhPrev, chains, i) && (i < |chains| ==> Ahead(hhNext, chains[i], 0))
        invariant Multiplied(newBuckets, ideal)
        invariant Sum(Lengths(newChains)) == Sum(lengths[..i])
        invariant tbl.nonidealItems == Sum(Excesses(newChains, ideal))
      {
        HeadOfChain(tbl.buckets, chains, i, hhNext0, hhPrev0);
        UntakenRest(hhNext, hhPrev, chains, i);
        newBuckets, newChains := EmptyChain(i, tbl.buckets[i].head, n2, newBuckets, newChains, listed);
        NextChain(hhNext, hhPrev, hashv, listed, chains, i, newChains);
        SumPrefix(chains, i);
      }
      assert lengths[..|lengths|] == lengths;
      AllMoved(hashv, listed, chains, newChains);
      Reassemble(hhNext, hhPrev, hashv, newBuckets, listed, newChains);
      var ineff := if tbl.nonidealItems > ShiftRight(tbl.numItems, 1) then tbl.ineffExpands + 1 else 0;
      tbl := tbl.(numBuckets := n2, log2NumBuckets := tbl.log2NumBuckets + 1, buckets := newBuckets, ineffExpands := ineff);
      chains := newChains;
      ShiftIsDiv(tbl.numItems, 1);
      if tbl.ineffExpands > 1 {
        tbl := tbl.(noexpand := true);
      }
      TrackedStep(before, expansions, tbl, chains);
      expansions := expansions + [Ineffective(tbl, chains)];
    }

    /** Move the elements of one old bucket into the new buckets. */
    method EmptyChain(i: nat, first: int, n2: nat, newBuckets: seq<Bucket>, ghost newChains: Chains, ghost listed: seq<nat>)
      returns (moreBuckets: seq<Bucket>, ghost moreChains: Chains)
      requires Sized() && i < |chains| && |newBuckets| == |newChains| == n2 && n2 > 0 && tbl.idealChainMaxlen > 0
      requires Placed(hashv, listed, chains) && first == At(chains[i], 0)
      requires MovedSoFar(hashv, listed, chains, i, 0, newChains) && BucketsOk(hhNext, hhPrev, newBuckets, newChains)
      requires Untaken(hhNext, hhPrev, chains, i + 1) && Ahead(hhNext, chains[i], 0)
      requires Multiplied(newBuckets, tbl.idealChainMaxlen)
      requires tbl.nonidealItems == Sum(Excesses(newChains, tbl.idealChainMaxlen))
      modifies this`hhNext, this`hhPrev, this`tbl
      ensures Sized() && |moreBuckets| == |moreChains| == n2 && tbl == old(tbl).(nonidealItems := tbl.nonidealItems)
      ensures MovedSoFar(hashv, listed, chains, i, |chains[i]|, moreChains) && BucketsOk(hhNext, hhPrev, moreBuckets, moreChains)
      ensures Untaken(hhNext, hhPrev, chains, i + 1) && Multiplied(moreBuckets, tbl.idealChainMaxlen)
      ensures Sum(Lengths(moreChains)) == Sum(Lengths(newChains)) + |chains[i]|
      ensures tbl.nonidealItems == Sum(Excesses(moreChains, tbl.idealChainMaxlen))
    {
      hide BucketsOk, MovedSoFar, Untaken, Ahead, Multiplied, Placed, Sum, And, Lengths, Excesses, Pushed;
      moreBuckets, moreChains := newBuckets, newChains;
      var ideal := tbl.idealChainMaxlen;
      var thh := first;
      ghost var j := 0;
      while thh != NULL
        modifies this`hhNext, this`hhPrev, this`tbl
        invariant Sized() && |moreBuckets| == |moreChains| == n2 && j <= |chains[i]| && thh == At(chains[i], j)
        invariant tbl == old(tbl).(nonidealItems := tbl.nonidealItems)
        invariant MovedSoFar(hashv, listed, chains, i, j, moreChains) && BucketsOk(hhNext, hhPrev, moreBuckets, moreChains)
        invariant Untaken(hhNext, hhPrev, chains, i + 1) && Ahead(hhNext, chains[i], j)
        invariant Multiplied(moreBuckets, ideal)
        invariant Sum(Lengths(moreChains)) == Sum(Lengths(newChains)) + j
        invariant tbl.nonidealItems == Sum(Excesses(moreChains, ideal))
        decreases |chains[i]| - j
      {
        AheadHere(hhNext, chains[i], j);
        var hhNxt := hhNext[thh];
        MovePlaced(hashv, listed, chains, i, j, moreChains);
        MovedApart(hashv, listed, chains, i, j, moreChains);
        var b := ToBucket(hashv[thh], n2);
        var bucket := moreBuckets[b];
        var count, mult := bucket.count + 1, bucket.expandMult;
        if count > ideal {
          tbl := tbl.(nonidealItems := tbl.nonidealItems + 1);
          mult := count / ideal;
        }
        PushedBuckets(hhNext, hhPrev, moreBuckets, moreChains, b, thh, mult);
        MoveMultiplied(moreBuckets, ideal, b, thh);
        PushedSums(moreChains, b, thh, ideal);
        HeadVisited(hhNext, hhPrev, moreBuckets, hashv, listed, chains, i, j, moreChains, b);
        MoveKeepsRest(hhNext, hhPrev, hashv, listed, chains, i, j, bucket.head);
        hhPrev := hhPrev[thh := NULL];
        hhNext := hhNext[thh := bucket.head];
        hhPrev := Assign(hhPrev, bucket.head, thh);
        moreBuckets := moreBuckets[b := Bucket(thh, count, mult)];
        moreChains := Pushed(moreChains, b, thh);
        thh := hhNxt;
        j := j + 1;
      }
    }
  }

  /** Adding to this bucket triggers an expansion. */
  predicate Overfull(tbl: Table, b: nat)
    requires b < |tbl.buckets|
  {
    tbl.buckets[b].count + 1 >= (tbl.buckets[b].expandMult + 1) * CAPACITY_THRESHOLD && !tbl.noexpand
  }

  lemma FirstLink(next: seq<int>, prev: seq<int>, e: nat)
    requires |next| == |prev| && e < |next|
    ensures Doubly(next[e := NULL], prev[e := NULL], [] + [e])
  {
    assert Linked(next[e := NULL], prev[e := NULL], [e], 0);
  }

  /** The hash value of an element that is in no bucket does not matter. */
  lemma HashvIrrelevant(hhNext: seq<int>, hhPrev: seq<int>, hashv: seq<nat>, buckets: seq<Bucket>, listed: seq<nat>,
                        chains: Chains, e: nat, h: nat)
    requires Bucketed(hhNext, hhPrev, hashv, buckets, listed, chains) && e < |hashv| && e !in listed
    ensures Bucketed(hhNext, hhPrev, hashv[e := h], buckets, listed, chains)
  {
    hide And;
    var hashv' := hashv[e := h];
    forall b: nat, x | b < |chains| ensures x in chains[b] <==> x in listed && Selected(hashv', x, |chains|) == b {
      assert x in chains[b] <==> x in listed && Selected(hashv, x, |chains|) == b;
    }
  }

  lemma BucketedSame(hhNext: seq<int>, hhPrev: seq<int>, hashv: seq<nat>, buckets: seq<Bucket>, listed: seq<nat>,
                     chains: Chains, other: seq<nat>)
    requires Bucketed(hhNext, hhPrev, hashv, buckets, listed, chains)
    requires |other| == |listed| && forall e :: e in other <==> e in listed
    ensures Bucketed(hhNext, hhPrev, hashv, buckets, other, chains)
  {
    hide BucketsOk, And;
    forall i | 0 <= i < |other| ensures other[i] < |hashv| { var k := IndexIn(listed, other[i]); }
  }

  lemma Ends(next: seq<int>, prev: seq<int>, s: seq<nat>, k: nat)
    requires Doubly(next, prev, s) && k < |s| && |s| > 1
    ensures s[k] == Last(s) <==> k == |s| - 1
    ensures s[k] < |next| && prev[s[k]] == At(s, k - 1) && next[s[k]] == At(s, k + 1)
    ensures prev[s[k]] != s[k] && next[s[k]] != s[k]
    ensures At(Without(s, k), 0) == (if k == 0 then At(s, 1) else At(s, 0))
    ensures Last(Without(s, k)) == (if k == |s| - 1 then At(s, k - 1) else Last(s))
    ensures At(s, k - 1) == NULL <==> k == 0
    ensures At(s, k - 1) == NULL || 0 <= At(s, k - 1) < |next|
    ensures At(s, k + 1) == NULL || 0 <= At(s, k + 1) < |next|
  {
    assert Linked(next, prev, s, k);
  }

  lemma InChain(hashv: seq<nat>, listed: seq<nat>, chains: Chains, i: nat, b: nat) returns (k: nat)
    requires Placed(hashv, listed, chains) && chains != [] && i < |listed| && b == Selected(hashv, listed[i], |chains|)
    ensures b < |chains| && k < |chains[b]| && chains[b][k] == listed[i]
  {
    hide And;
    assert listed[i] in listed && listed[i] in chains[b];
    k := IndexIn(chains[b], listed[i]);
  }

  lemma WithoutSize(s: seq<nat>, k: nat)
    requires k < |s|
    ensures |Without(s, k)| == |s| - 1
  {
  }

  /** The parts of the record that bucket operations leave alone. */
  ghost predicate SameList(tbl: Table, before: Table) {
    tbl.tail == before.tail && tbl.numItems == before.numItems && tbl.bloom == before.bloom
  }

  /** The statistics right after an expansion, from the final chains. */
  ghost predicate Expanded(tbl: Table, chains: Chains, ineffBefore: nat) {
    && tbl.idealChainMaxlen > 0 && IsCeil(tbl.idealChainMaxlen, tbl.numItems, tbl.numBuckets)
    && tbl.nonidealItems == Sum(Excesses(chains, tbl.idealChainMaxlen))
    && Multiplied(tbl.buckets, tbl.idealChainMaxlen)
    && tbl.ineffExpands == (if tbl.nonidealItems > tbl.numItems / 2 then ineffBefore + 1 else 0)
    && tbl.noexpand == (tbl.ineffExpands > 1)
  }

  /** A table just made: 32 empty buckets, and expansion is on. */
  ghost predicate Fresh(tbl: Table) {
    && tbl.numBuckets == 32 && |tbl.buckets| == 32 && tbl.numItems == 0
    && (forall b :: 0 <= b < 32 ==> tbl.buckets[b].count == 0 && tbl.buckets[b].expandMult == 0)
    && !tbl.noexpand && tbl.ineffExpands == 0 && tbl.bloom == {}
  }

  /** More than half of the elements are beyond the ideal length of their chains. */
  ghost predicate Ineffective(tbl: Table, chains: Chains) {
    Sum(Excesses(chains, tbl.idealChainMaxlen)) > tbl.numItems / 2
  }

  /** How many of the last expansions, in a row, were ineffective. */
  ghost function Streak(expansions: seq<bool>): nat {
    if expansions == [] || !expansions[|expansions| - 1] then 0 else 1 + Streak(expansions[..|expansions| - 1])
  }

  ghost predicate TwoInARow(expansions: seq<bool>) {
    |expansions| >= 2 && expansions[|expansions| - 1] && expansions[|expansions| - 2]
  }

  /** The record counts the ineffective expansions in a row; the buckets have doubled with every expansion. */
  ghost predicate Tracked(tbl: Table, expansions: seq<bool>) {
    TrackedBy(tbl.ineffExpands, tbl.noexpand, tbl.log2NumBuckets, expansions)
  }

  ghost predicate TrackedBy(ineffExpands: nat, noexpand: bool, log2NumBuckets: nat, expansions: seq<bool>) {
    && ineffExpands == Streak(expansions) && (noexpand <==> TwoInARow(expansions))
    && log2NumBuckets == INITIAL_NUM_BUCKETS_LOG2 + |expansions|
  }

  lemma TrackedStep(before: Table, expansions: seq<bool>, tbl: Table, chains: Chains)
    requires Tracked(before, expansions) && Expanded(tbl, chains, before.ineffExpands)
    requires tbl.log2NumBuckets == before.log2NumBuckets + 1
    ensures Tracked(tbl, expansions + [Ineffective(tbl, chains)])
  {
    var more := expansions + [Ineffective(tbl, chains)];
    assert more[..|expansions|] == expansions;
  }

  function EmptyTable(e: nat): Table {
    Table(e, EmptyBuckets(INITIAL_NUM_BUCKETS), INITIAL_NUM_BUCKETS, INITIAL_NUM_BUCKETS_LOG2, 0, 0, 0, 0, false, {})
  }

  lemma {:induction false} Pow2Positive(k: nat)
    ensures Pow2(k) > 0
  {
    if k > 0 { Pow2Positive(k - 1); }
  }

  lemma InChainOnce(hhNext: seq<int>, hhPrev: seq<int>, bucket: Bucket, chain: seq<nat>)
    requires BucketOk(hhNext, hhPrev, bucket, chain)
    ensures NoRepeats(chain) && bucket.count == |chain|
  {
  }

  lemma SizeKnown(tbl: Table, chains: Chains)
    requires PowerSized(tbl, chains)
    ensures tbl.numBuckets == |tbl.buckets| > 0
  {
    Pow2Positive(tbl.log2NumBuckets);
  }

  /** Appending to the order changes no bucket, and the first bucket is never full. */
  lemma SameFullness(before: Table, tbl: Table, b: nat, order: seq<nat>, e: nat)
    requires b < |tbl.buckets|
    requires tbl == (if order == [] then EmptyTable(e) else before.(tail := e)).(numItems := |order| + 1)
    ensures order == [] ==> !Overfull(tbl, b)
    ensures order != [] ==> b < |before.buckets| && (Overfull(tbl, b) <==> Overfull(before, b))
  {
  }

  ghost function Members(s: seq<nat>): set<nat> {
    set x | x in s
  }

  lemma {:induction false} SizeOf(s: seq<nat>)
    requires NoRepeats(s)
    ensures |Members(s)| == |s|
  {
    if s != [] {
      var front, last := s[..|s| - 1], s[|s| - 1];
      SizeOf(front);
      assert s == front + [last] && last !in front;
      assert Members(s) == Members(front) + {last};
    }
  }

  lemma {:induction false} Pow2Plus(a: nat, b: nat)
    ensures Pow2(a + b) == Pow2(a) * Pow2(b)
  {
    if b > 0 { Pow2Plus(a, b - 1); }
  }

  lemma InitialSize()
    ensures Pow2(INITIAL_NUM_BUCKETS_LOG2) == INITIAL_NUM_BUCKETS
  {
    assert Pow2(3) == 8;
  }

  lemma EmptyBucketed(hhNext: seq<int>, hhPrev: seq<int>, hashv: seq<nat>, n: nat)
    requires |hhNext| == |hhPrev| == |hashv| && n > 0
    ensures Bucketed(hhNext, hhPrev, hashv, EmptyBuckets(n), [], EmptyChains(n))
  {
    var chains := EmptyChains(n);
    SumZero(Lengths(chains));
  }

  lemma CeilPositive(r: nat, a: nat, b: nat)
    requires IsCeil(r, a, b) && a > 0
    ensures r > 0
  {
  }

  lemma Parts(hhNext: seq<int>, hhPrev: seq<int>, hashv: seq<nat>, buckets: seq<Bucket>, listed: seq<nat>, chains: Chains)
    requires Bucketed(hhNext, hhPrev, hashv, buckets, listed, chains)
    ensures BucketsOk(hhNext, hhPrev, buckets, chains) && Placed(hashv, listed, chains)
    ensures Sum(Lengths(chains)) == |listed|
  {
  }

  lemma Reassemble(hhNext: seq<int>, hhPrev: seq<int>, hashv: seq<nat>, buckets: seq<Bucket>, listed: seq<nat>,
                   chains: Chains)
    requires |chains| > 0 && |hashv| == |hhNext| && BucketsOk(hhNext, hhPrev, buckets, chains)
    requires Placed(hashv, listed, chains) && Sum(Lengths(chains)) == |listed|
    ensures Bucketed(hhNext, hhPrev, hashv, buckets, listed, chains)
  {
  }

  lemma HeadOfChain(buckets: seq<Bucket>, chains: Chains, i: nat, hhNext: seq<int>, hhPrev: seq<int>)
    requires BucketsOk(hhNext, hhPrev, buckets, chains) && i < |chains|
    ensures buckets[i].head == At(chains[i], 0)
  {
    assert BucketOk(hhNext, hhPrev, buckets[i], chains[i]);
  }

  lemma UntakenRest(hhNext: seq<int>, hhPrev: seq<int>, chains: Chains, i: nat)
    requires Untaken(hhNext, hhPrev, chains, i)
    ensures Untaken(hhNext, hhPrev, chains, i + 1)
  {
  }

  lemma SumPrefix(chains: Chains, i: nat)
    requires i < |chains|
    ensures Sum(Lengths(chains)[..i + 1]) == Sum(Lengths(chains)[..i]) + |chains[i]|
  {
    assert Lengths(chains)[..i + 1][..i] == Lengths(chains)[..i];
  }

  lemma AheadHere(hhNext: seq<int>, c: seq<nat>, j: nat)
    requires Ahead(hhNext, c, j) && j < |c|
    ensures c[j] < |hhNext| && hhNext[c[j]] == At(c, j + 1) && NoRepeats(c)
  {
    assert NextIs(hhNext, c, j);
  }

  lemma HeadVisited(hhNext: seq<int>, hhPrev: seq<int>, buckets: seq<Bucket>, hashv: seq<nat>, listed: seq<nat>,
                    chains: Chains, i: nat, j: nat, fresh_: Chains, b: nat)
    requires BucketsOk(hhNext, hhPrev, buckets, fresh_) && MovedSoFar(hashv, listed, chains, i, j, fresh_) && b < |fresh_|
    ensures var h := buckets[b].head;
      h == NULL || (0 <= h < |hhNext| == |hhPrev| && Visited(hashv, chains, i, j, h))
    ensures buckets[b].count == |fresh_[b]|
  {
    assert BucketOk(hhNext, hhPrev, buckets[b], fresh_[b]);
    var h := buckets[b].head;
    if h != NULL {
      assert fresh_[b][0] in fresh_[b];
    }
  }
}
