/** Calls on the abstract table, what they mean, and runs of them. */
module HashCalls {
  import opened HashLinks
  import opened HashSpec
  import opened HashSort

  datatype Call<K> = FindCall(key: K) | AddCall(e: nat) | ReplaceCall(e: nat) | DeleteCall(e: nat)
                   | SortCall(cmp: Comparison)

  /** An element may be added if it is not in the table and its key is new, and deleted if it is in the table. */
  ghost predicate Allowed<K>(keys: seq<K>, order: seq<nat>, c: Call<K>) {
    match c
    case FindCall(_) => true
    case AddCall(e) => e < |keys| && e !in order && !HasKey(keys, order, keys[e])
    case ReplaceCall(e) => e < |keys|
    case DeleteCall(e) => e in order
    case SortCall(_) => true
  }

  /** An element may be added iff the keys stay unique, deleted iff it is there; nothing else is asked of a call. */
  lemma AllowedIff<K>(keys: seq<K>, order: seq<nat>, e: nat, key: K, cmp: Comparison)
    requires UniqueKeys(keys, order)
    ensures Allowed(keys, order, AddCall(e)) <==> UniqueKeys(keys, order + [e])
    ensures Allowed(keys, order, DeleteCall(e)) <==> e in order
    ensures Allowed(keys, order, ReplaceCall(e)) <==> e < |keys|
    ensures Allowed(keys, order, FindCall(key)) && Allowed(keys, order, SortCall(cmp))
  {
    var more := order + [e];
    if UniqueKeys(keys, more) {
      assert more[|order|] == e;
      forall i | 0 <= i < |order| ensures order[i] != e && keys[order[i]] != keys[e] {
        assert keys[more[i]] != keys[more[|order|]];
      }
    }
  }

  ghost function Step<K>(keys: seq<K>, order: seq<nat>, c: Call<K>): seq<nat>
    requires Allowed(keys, order, c)
  {
    match c
    case FindCall(_) => order
    case AddCall(e) => order + [e]
    case ReplaceCall(e) =>
      var old_ := Lookup(keys, order, keys[e]);
      (if old_ == NULL then order else Dropped(order, old_)) + [e]
    case DeleteCall(e) => Dropped(order, e)
    case SortCall(cmp) => MergeSort(order, cmp)
  }

  /** The pointer a call hands back. */
  ghost function Outcome<K>(keys: seq<K>, order: seq<nat>, c: Call<K>): int
    requires Allowed(keys, order, c)
  {
    match c
    case FindCall(key) => Lookup(keys, order, key)
    case AddCall(_) => NULL
    case ReplaceCall(e) => Lookup(keys, order, keys[e])
    case DeleteCall(_) => NULL
    case SortCall(_) => NULL
  }

  ghost predicate AllAllowed<K>(keys: seq<K>, order: seq<nat>, calls: seq<Call<K>>)
    decreases |calls|
  {
    calls != [] ==> Allowed(keys, order, calls[0]) && AllAllowed(keys, Step(keys, order, calls[0]), calls[1..])
  }

  ghost function After<K>(keys: seq<K>, order: seq<nat>, calls: seq<Call<K>>): seq<nat>
    requires AllAllowed(keys, order, calls)
    decreases |calls|
  {
    if calls == [] then order else After(keys, Step(keys, order, calls[0]), calls[1..])
  }

  ghost function Outcomes<K>(keys: seq<K>, order: seq<nat>, calls: seq<Call<K>>): seq<int>
    requires AllAllowed(keys, order, calls)
    decreases |calls|
  {
    if calls == [] then []
    else [Outcome(keys, order, calls[0])] + Outcomes(keys, Step(keys, order, calls[0]), calls[1..])
  }

  lemma CallsUnfold<K>(keys: seq<K>, order: seq<nat>, calls: seq<Call<K>>, i: nat)
    requires i < |calls| && AllAllowed(keys, order, calls[i..])
    ensures Allowed(keys, order, calls[i])
    ensures var next := Step(keys, order, calls[i]);
      && AllAllowed(keys, next, calls[i + 1..]) && After(keys, order, calls[i..]) == After(keys, next, calls[i + 1..])
      && Outcomes(keys, order, calls[i..]) == [Outcome(keys, order, calls[i])] + Outcomes(keys, next, calls[i + 1..])
  {
    assert calls[i..][0] == calls[i] && calls[i..][1..] == calls[i + 1..];
  }

  lemma CallsStart<K>(keys: seq<K>, order: seq<nat>, calls: seq<Call<K>>)
    ensures calls[0..] == calls && calls[|calls|..] == [] && AllAllowed(keys, order, [])
    ensures After(keys, order, []) == order && Outcomes(keys, order, []) == []
  {
  }

  /** The call does not empty the table, not even in the middle of a replacement. */
  ghost predicate KeepsTable<K>(keys: seq<K>, order: seq<nat>, c: Call<K>) {
    match c
    case ReplaceCall(e) => e < |keys| && (Lookup(keys, order, keys[e]) == NULL || |order| > 1)
    case DeleteCall(_) => |order| > 1
    case _ => true
  }

  /** Deleting keeps the table iff an element is left, and replacing iff one is left after the old element is gone. */
  lemma KeepsTableIff<K>(keys: seq<K>, order: seq<nat>, c: Call<K>)
    requires Allowed(keys, order, c) && UniqueKeys(keys, order) && order != []
    ensures KeepsTable(keys, order, c) <==>
      && (c.DeleteCall? ==> Step(keys, order, c) != [])
      && (c.ReplaceCall? ==>
            Outcome(keys, order, c) == NULL || Dropped(order, Outcome(keys, order, c)) != [])
  {
  }

  ghost predicate NeverEmptied<K>(keys: seq<K>, order: seq<nat>, calls: seq<Call<K>>)
    requires AllAllowed(keys, order, calls)
    decreases |calls|
  {
    calls != [] ==>
      KeepsTable(keys, order, calls[0]) && NeverEmptied(keys, Step(keys, order, calls[0]), calls[1..])
  }

  lemma NeverEmptiedUnfold<K>(keys: seq<K>, order: seq<nat>, calls: seq<Call<K>>, i: nat)
    requires i < |calls| && AllAllowed(keys, order, calls[i..]) && NeverEmptied(keys, order, calls[i..])
    ensures Allowed(keys, order, calls[i]) && KeepsTable(keys, order, calls[i])
    ensures var next := Step(keys, order, calls[i]);
      AllAllowed(keys, next, calls[i + 1..]) && NeverEmptied(keys, next, calls[i + 1..])
  {
    assert calls[i..][0] == calls[i] && calls[i..][1..] == calls[i + 1..];
  }

  // ----- The map laws -----

  /** Every allowed call keeps the keys distinct. */
  lemma StepUnique<K>(keys: seq<K>, order: seq<nat>, c: Call<K>)
    requires UniqueKeys(keys, order) && Allowed(keys, order, c)
    ensures UniqueKeys(keys, Step(keys, order, c))
  {
    hide UniqueKeys, HasKey;
    match c
    case FindCall(_) =>
    case AddCall(e) => UniqueAdd(keys, order, e);
    case ReplaceCall(e) =>
      var old_ := Lookup(keys, order, keys[e]);
      if old_ == NULL {
        UniqueAdd(keys, order, e);
      } else {
        DropUnique(keys, order, old_);
        DropKey(keys, order, old_, e);
        UniqueAdd(keys, Dropped(order, old_), e);
      }
    case DeleteCall(e) => DropUnique(keys, order, e);
    case SortCall(cmp) =>
      UniqueNoRepeats(keys, order);
      MergeSortProps(cmp, order);
      SameElements(order, MergeSort(order, cmp));
      UniqueSame(keys, order, MergeSort(order, cmp));
  }

  /** What a lookup finds after a call: the added element under its key, nothing under the key of a
      deleted element, and otherwise, also after sorting, what it found before. */
  lemma LookupAfter<K>(keys: seq<K>, order: seq<nat>, c: Call<K>, key: K)
    requires UniqueKeys(keys, order) && Allowed(keys, order, c)
    ensures var before, after := Lookup(keys, order, key), Lookup(keys, Step(keys, order, c), key);
      match c
      case FindCall(_) => after == before
      case AddCall(e) => after == if keys[e] == key then e as int else before
      case ReplaceCall(e) => after == if keys[e] == key then e as int else before
      case DeleteCall(e) => after == if before == e then NULL else before
      case SortCall(_) => after == before
  {
    StepUnique(keys, order, c);
    var after := Step(keys, order, c);
    var before := Lookup(keys, order, key);
    match c
    case FindCall(_) =>
    case AddCall(e) => LookupPush(keys, order, e, key);
    case ReplaceCall(e) =>
      var old_ := Lookup(keys, order, keys[e]);
      if old_ == NULL {
        LookupPush(keys, order, e, key);
      } else {
        DropUnique(keys, order, old_);
        LookupDrop(keys, order, old_, key);
        LookupPush(keys, Dropped(order, old_), e, key);
      }
    case DeleteCall(e) => LookupDrop(keys, order, e, key);
    case SortCall(cmp) =>
      UniqueNoRepeats(keys, order);
      MergeSortProps(cmp, order);
      LookupSame(keys, order, MergeSort(order, cmp), key);
  }
}
