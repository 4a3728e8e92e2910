/** The abstract table: a map from keys to elements that remembers the order of insertion.  Its state is
    the sequence of its elements, whose keys are distinct. */
module HashSpec {
  import opened HashLinks

  ghost predicate UniqueKeys<K>(keys: seq<K>, order: seq<nat>) {
    && InBounds(order, |keys|)
    && forall i, j :: 0 <= i < j < |order| ==> keys[order[i]] != keys[order[j]]
  }

  ghost predicate HasKey<K>(keys: seq<K>, order: seq<nat>, key: K) {
    exists e :: e in order && e < |keys| && keys[e] == key
  }

  /** `out` is the element with the key, or NULL if there is none. */
  ghost predicate Looked<K>(keys: seq<K>, order: seq<nat>, key: K, out: int) {
    if out == NULL then !HasKey(keys, order, key)
    else 0 <= out < |keys| && out in order && keys[out] == key
  }

  /** The order without one element. */
  ghost function Dropped(order: seq<nat>, e: nat): (r: seq<nat>) {
    if e in order then
      var k :| 0 <= k < |order| && order[k] == e;
      Without(order, k)
    else order
  }

  lemma UniqueNoRepeats<K>(keys: seq<K>, order: seq<nat>)
    requires UniqueKeys(keys, order)
    ensures NoRepeats(order)
  {
  }

  lemma UniqueAdd<K>(keys: seq<K>, order: seq<nat>, e: nat)
    requires UniqueKeys(keys, order) && e < |keys| && !HasKey(keys, order, keys[e])
    ensures UniqueKeys(keys, order + [e])
  {
    forall i | 0 <= i < |order| ensures keys[order[i]] != keys[e] { assert order[i] in order; }
  }

  /** The element of a sequence without repetitions determines its position. */
  lemma DroppedAt(order: seq<nat>, k: nat)
    requires NoRepeats(order) && k < |order|
    ensures Dropped(order, order[k]) == Without(order, k)
  {
  }

  lemma UniqueDrop<K>(keys: seq<K>, order: seq<nat>, k: nat)
    requires UniqueKeys(keys, order) && k < |order|
    ensures UniqueKeys(keys, Without(order, k))
  {
    var r := Without(order, k);
    forall i | 0 <= i < |r| ensures r[i] == order[if i < k then i else i + 1] {}
  }

  /** Once the element with a key is gone, no element has that key. */
  lemma DropKey<K>(keys: seq<K>, order: seq<nat>, replaced: nat, e: nat)
    requires UniqueKeys(keys, order) && replaced in order && e < |keys| && keys[replaced] == keys[e]
    ensures replaced < |keys|
    ensures !HasKey(keys, Dropped(order, replaced), keys[e]) && e !in Dropped(order, replaced)
  {
    UniqueNoRepeats(keys, order);
    var k := IndexIn(order, replaced);
    DroppedAt(order, k);
    WithoutMembers(order, k);
    forall x | x in order && x < |keys| && keys[x] == keys[e] ensures x == replaced {
      var i := IndexIn(order, x);
    }
  }

  lemma KeyNotListed<K>(keys: seq<K>, order: seq<nat>, e: nat)
    requires e < |keys| && !HasKey(keys, order, keys[e])
    ensures e !in order
  {
  }

  // ----- Permutations -----

  lemma SameElements(s: seq<nat>, t: seq<nat>)
    requires multiset(s) == multiset(t)
    ensures |s| == |t| && forall e :: e in s <==> e in t
  {
    assert |s| == |multiset(s)| && |t| == |multiset(t)|;
    forall e ensures e in s <==> e in t { assert e in s <==> e in multiset(s); }
  }

  lemma UniqueSame<K>(keys: seq<K>, order: seq<nat>, other: seq<nat>)
    requires UniqueKeys(keys, order) && NoRepeats(other) && forall e :: e in other ==> e in order
    ensures UniqueKeys(keys, other)
  {
    forall i | 0 <= i < |other| ensures other[i] < |keys| { var k := IndexIn(order, other[i]); }
    forall i, j | 0 <= i < j < |other| ensures keys[other[i]] != keys[other[j]] {
      var k := IndexIn(order, other[i]);
      var l := IndexIn(order, other[j]);
      assert k != l;
    }
  }

  /** Permuting the elements changes no lookup. */
  lemma LookupSame<K>(keys: seq<K>, order: seq<nat>, other: seq<nat>, key: K)
    requires UniqueKeys(keys, order) && NoRepeats(other) && multiset(other) == multiset(order)
    ensures UniqueKeys(keys, other) && Lookup(keys, other, key) == Lookup(keys, order, key)
  {
    SameElements(order, other);
    UniqueSame(keys, order, other);
    LookedUnique(keys, other, key, Lookup(keys, order, key));
  }

  // ----- Looking up -----

  /** The element with a key, or NULL. */
  ghost function Lookup<K>(keys: seq<K>, order: seq<nat>, key: K): (out: int)
    ensures Looked(keys, order, key, out)
  {
    if HasKey(keys, order, key) then
      var e :| e in order && e < |keys| && keys[e] == key;
      e
    else NULL
  }

  lemma LookedUnique<K>(keys: seq<K>, order: seq<nat>, key: K, out: int)
    requires UniqueKeys(keys, order) && Looked(keys, order, key, out)
    ensures out == Lookup(keys, order, key)
  {
    var other := Lookup(keys, order, key);
    if out != NULL && other != NULL {
      var i := IndexIn(order, out);
      var j := IndexIn(order, other);
    }
  }

  lemma IndexIn(s: seq<nat>, e: nat) returns (k: nat)
    requires e in s
    ensures k < |s| && s[k] == e
  {
    k :| 0 <= k < |s| && s[k] == e;
  }

  lemma DroppedSize<K>(keys: seq<K>, order: seq<nat>, e: nat)
    requires UniqueKeys(keys, order) && e in order
    ensures |Dropped(order, e)| == |order| - 1
  {
  }

  lemma DropUnique<K>(keys: seq<K>, order: seq<nat>, e: nat)
    requires UniqueKeys(keys, order) && e in order
    ensures UniqueKeys(keys, Dropped(order, e))
    ensures forall x :: x in Dropped(order, e) <==> x in order && x != e
  {
    UniqueNoRepeats(keys, order);
    var k := IndexIn(order, e);
    DroppedAt(order, k);
    UniqueDrop(keys, order, k);
    WithoutMembers(order, k);
  }

  lemma LookupPush<K>(keys: seq<K>, order: seq<nat>, e: nat, key: K)
    requires UniqueKeys(keys, order + [e])
    ensures e < |keys|
    ensures Lookup(keys, order + [e], key) == if keys[e] == key then e as int else Lookup(keys, order, key)
  {
    assert (order + [e])[|order|] == e;
    forall i | 0 <= i < |order| ensures order[i] < |keys| { assert (order + [e])[i] == order[i]; }
    forall i, j | 0 <= i < j < |order| ensures keys[order[i]] != keys[order[j]] {
      assert (order + [e])[i] == order[i] && (order + [e])[j] == order[j];
    }
    var out := if keys[e] == key then e as int else Lookup(keys, order, key);
    if keys[e] != key && HasKey(keys, order + [e], key) {
      var x :| x in order + [e] && x < |keys| && keys[x] == key;
      assert x in order;
    }
    LookedUnique(keys, order + [e], key, out);
  }

  lemma LookupDrop<K>(keys: seq<K>, order: seq<nat>, e: nat, key: K)
    requires UniqueKeys(keys, order) && e in order
    ensures Lookup(keys, Dropped(order, e), key)
         == if Lookup(keys, order, key) == e then NULL else Lookup(keys, order, key)
  {
    DropUnique(keys, order, e);
    var before := Lookup(keys, order, key);
    if before == e {
      DropKey(keys, order, e, e);
      assert !HasKey(keys, Dropped(order, e), key);
    } else if before == NULL {
      assert forall x :: x in Dropped(order, e) ==> x in order;
    }
    LookedUnique(keys, Dropped(order, e), key, if before == e then NULL else before);
  }
}
