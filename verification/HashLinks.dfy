/** Doubly linked lists laid out in index arrays: element `e` is followed by `next[e]` and preceded by
    `prev[e]`.  Both the application-order list and the bucket chains of the hash table have this form. */
module HashLinks {
  const NULL: int := -1

  /** The element at a position, or NULL beyond either end. */
  function At(s: seq<nat>, i: int): int {
    if 0 <= i < |s| then s[i] else NULL
  }

  ghost predicate NoRepeats(s: seq<nat>) {
    forall i, j :: 0 <= i < j < |s| ==> s[i] != s[j]
  }

  ghost predicate InBounds(s: seq<nat>, n: nat) {
    forall i :: 0 <= i < |s| ==> s[i] < n
  }

  /** The links of the element at position `i` lead to its neighbours. */
  ghost predicate Linked(next: seq<int>, prev: seq<int>, s: seq<nat>, i: nat) {
    i < |s| && s[i] < |next| == |prev| && next[s[i]] == At(s, i + 1) && prev[s[i]] == At(s, i - 1)
  }

  /** The links spell out exactly the sequence `s`, in both directions and with NULL at both ends. */
  ghost predicate Doubly(next: seq<int>, prev: seq<int>, s: seq<nat>) {
    |next| == |prev| && InBounds(s, |next|) && NoRepeats(s) && forall i :: 0 <= i < |s| ==> Linked(next, prev, s, i)
  }

  function Last(s: seq<nat>): int {
    At(s, |s| - 1)
  }

  /** Assignment through a pointer that may be NULL. */
  function Assign(links: seq<int>, at: int, v: int): (r: seq<int>)
    requires at == NULL || 0 <= at < |links|
    ensures |r| == |links|
  {
    if at == NULL then links else links[at := v]
  }

  // ----- Appending and prepending -----

  lemma PushBack(next: seq<int>, prev: seq<int>, s: seq<nat>, e: nat)
    requires Doubly(next, prev, s) && e < |next| && e !in s
    ensures Last(s) == NULL || 0 <= Last(s) < |next|
    ensures Doubly(Assign(next[e := NULL], Last(s), e), prev[e := Last(s)], s + [e])
  {
    var next', prev', s' := Assign(next[e := NULL], Last(s), e), prev[e := Last(s)], s + [e];
    assert NoRepeats(s');
    forall i | 0 <= i < |s'| ensures Linked(next', prev', s', i) {
      if i < |s| {
        assert Linked(next, prev, s, i) && s[i] in s;
        if i < |s| - 1 { assert s[i] != s[|s| - 1]; }
      }
    }
  }

  lemma PushFront(next: seq<int>, prev: seq<int>, s: seq<nat>, e: nat)
    requires Doubly(next, prev, s) && e < |next| && e !in s
    ensures At(s, 0) == NULL || 0 <= At(s, 0) < |prev|
    ensures Doubly(next[e := At(s, 0)], Assign(prev[e := NULL], At(s, 0), e), [e] + s)
  {
    var next', prev', s' := next[e := At(s, 0)], Assign(prev[e := NULL], At(s, 0), e), [e] + s;
    assert NoRepeats(s');
    forall i | 0 <= i < |s'| ensures Linked(next', prev', s', i) {
      if 0 < i {
        assert Linked(next, prev, s, i - 1) && s[i - 1] in s;
        if 1 < i { assert s[0] != s[i - 1]; }
      }
    }
  }

  // ----- Unlinking -----

  function Without(s: seq<nat>, k: nat): seq<nat>
    requires k < |s|
  {
    s[..k] + s[k + 1..]
  }

  lemma WithoutMembers(s: seq<nat>, k: nat)
    requires k < |s| && NoRepeats(s)
    ensures NoRepeats(Without(s, k)) && forall e :: e in Without(s, k) <==> e in s && e != s[k]
  {
    var r := Without(s, k);
    forall i | 0 <= i < |r| ensures r[i] == s[if i < k then i else i + 1] && r[i] in s && r[i] != s[k] {}
    forall e | e in s && e != s[k] ensures e in r {
      var i :| 0 <= i < |s| && s[i] == e;
      assert r[if i < k then i else i - 1] == e;
    }
  }

  lemma Unlink(next: seq<int>, prev: seq<int>, s: seq<nat>, k: nat)
    requires Doubly(next, prev, s) && k < |s|
    ensures var e := s[k];
      && prev[e] == At(s, k - 1) && next[e] == At(s, k + 1)
      && (prev[e] == NULL || 0 <= prev[e] < |next|) && (next[e] == NULL || 0 <= next[e] < |next|)
      && Doubly(Assign(next, prev[e], next[e]), Assign(prev, next[e], prev[e]), Without(s, k))
  {
    var e, r := s[k], Without(s, k);
    assert Linked(next, prev, s, k);
    WithoutMembers(s, k);
    var next', prev' := Assign(next, prev[e], next[e]), Assign(prev, next[e], prev[e]);
    forall i | 0 <= i < |r| ensures Linked(next', prev', r, i) {
      var j := if i < k then i else i + 1;
      assert r[i] == s[j] && Linked(next, prev, s, j);
      if 0 < k && j != k - 1 { assert s[j] != s[k - 1]; }
      if k + 1 < |s| && j != k + 1 { assert s[j] != s[k + 1]; }
    }
  }

  // ----- Lists that an update does not touch -----

  lemma Untouched(next: seq<int>, prev: seq<int>, next': seq<int>, prev': seq<int>, s: seq<nat>, touched: set<int>)
    requires Doubly(next, prev, s) && |next'| == |prev'| == |next|
    requires forall e :: 0 <= e < |next| && e !in touched ==> next'[e] == next[e] && prev'[e] == prev[e]
    requires forall e :: e in s ==> e !in touched
    ensures Doubly(next', prev', s)
  {
    forall i | 0 <= i < |s| ensures Linked(next', prev', s, i) {
      assert s[i] in s && Linked(next, prev, s, i);
    }
  }
}
