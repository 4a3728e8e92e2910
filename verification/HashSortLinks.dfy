/** The links of the application-order list while it is being sorted: an output list under construction,
    and the remaining input, which is only followed forwards. */
module HashSortLinks {
  import opened HashLinks
  import opened HashSpec
  import opened HashSort

  ghost predicate OutAt(next: seq<int>, prev: seq<int>, out: seq<nat>, i: nat) {
    && i < |out| && out[i] < |next| == |prev| && prev[out[i]] == At(out, i - 1)
    && (i + 1 < |out| ==> next[out[i]] == out[i + 1])
  }

  /** The output so far; the link after its last element is not yet set. */
  ghost predicate OutLinked(next: seq<int>, prev: seq<int>, out: seq<nat>) {
    |next| == |prev| && forall i :: 0 <= i < |out| ==> OutAt(next, prev, out, i)
  }

  ghost predicate FwdAt(next: seq<int>, s: seq<nat>, i: nat) {
    i < |s| && s[i] < |next| && (i + 1 < |s| ==> next[s[i]] == s[i + 1])
  }

  ghost predicate Fwd(next: seq<int>, s: seq<nat>) {
    forall i :: 0 <= i < |s| ==> FwdAt(next, s, i)
  }

  /** Followed by NULL. */
  ghost predicate Closed(next: seq<int>, s: seq<nat>) {
    Fwd(next, s) && (s != [] ==> s[|s| - 1] < |next| && next[s[|s| - 1]] == NULL)
  }

  ghost predicate Apart(out: seq<nat>, p: seq<nat>, s: seq<nat>) {
    && NoRepeats(out) && NoRepeats(p) && NoRepeats(s)
    && (forall x :: x in out ==> x !in p && x !in s) && (forall x :: x in p ==> x !in s)
  }

  lemma MoveFirst(out: seq<nat>, s: seq<nat>)
    requires NoRepeats(out) && NoRepeats(s) && s != [] && s[0] !in out
    ensures NoRepeats(out + [s[0]]) && NoRepeats(s[1..]) && s[0] !in s[1..]
  {
    forall i | 0 <= i < |s[1..]| ensures s[1..][i] == s[i + 1] && s[1..][i] != s[0] {}
    forall i, j | 0 <= i < j < |s[1..]| ensures s[1..][i] != s[1..][j] { assert s[i + 1] != s[j + 1]; }
    forall i | 0 <= i < |out| ensures out[i] != s[0] { assert out[i] in out; }
  }

  lemma TakeLeft(out: seq<nat>, p: seq<nat>, s: seq<nat>)
    requires Apart(out, p, s) && p != []
    ensures Apart(out + [p[0]], p[1..], s)
  {
    assert p == [p[0]] + p[1..];
    MoveFirst(out, p);
  }

  lemma TakeRight(out: seq<nat>, p: seq<nat>, s: seq<nat>)
    requires Apart(out, p, s) && s != []
    ensures Apart(out + [s[0]], p, s[1..])
  {
    assert s == [s[0]] + s[1..];
    MoveFirst(out, s);
  }

  /** Append `e` to the output. */
  lemma OutAppend(next: seq<int>, prev: seq<int>, out: seq<nat>, e: nat)
    requires OutLinked(next, prev, out) && NoRepeats(out) && e !in out && e < |next|
    ensures Last(out) == NULL || 0 <= Last(out) < |next|
    ensures OutLinked(Assign(next, Last(out), e), prev[e := Last(out)], out + [e])
  {
    if out != [] { assert OutAt(next, prev, out, |out| - 1); }
    var next', prev', out' := Assign(next, Last(out), e), prev[e := Last(out)], out + [e];
    forall i | 0 <= i < |out'| ensures OutAt(next', prev', out', i) {
      if i < |out| {
        assert OutAt(next, prev, out, i) && out[i] in out;
        if i < |out| - 1 { assert out[i] != out[|out| - 1]; }
      }
    }
  }

  lemma FwdKept(next: seq<int>, s: seq<nat>, at: int, v: int)
    requires Fwd(next, s) && (at == NULL || 0 <= at < |next|) && (at >= 0 ==> at !in s)
    ensures Fwd(Assign(next, at, v), s)
  {
    var next' := Assign(next, at, v);
    forall i | 0 <= i < |s| ensures FwdAt(next', s, i) {
      assert FwdAt(next, s, i) && s[i] in s;
    }
  }

  lemma ClosedKept(next: seq<int>, s: seq<nat>, at: int, v: int)
    requires Closed(next, s) && (at == NULL || 0 <= at < |next|) && (at >= 0 ==> at !in s)
    ensures Closed(Assign(next, at, v), s)
  {
    FwdKept(next, s, at, v);
  }

  /** The first element and where its link leads. */
  lemma FwdFirst(next: seq<int>, s: seq<nat>)
    requires Fwd(next, s) && s != []
    ensures s[0] < |next| && Fwd(next, s[1..]) && (|s| > 1 ==> next[s[0]] == s[1])
  {
    assert FwdAt(next, s, 0);
    forall i | 0 <= i < |s[1..]| ensures FwdAt(next, s[1..], i) { assert FwdAt(next, s, i + 1); }
  }

  lemma ClosedFirst(next: seq<int>, s: seq<nat>)
    requires Closed(next, s) && s != []
    ensures s[0] < |next| && Closed(next, s[1..]) && next[s[0]] == At(s[1..], 0)
  {
    FwdFirst(next, s);
  }

  /** A list in both directions is an input to be followed forwards. */
  lemma DoublyClosed(next: seq<int>, prev: seq<int>, s: seq<nat>)
    requires Doubly(next, prev, s)
    ensures Closed(next, s)
  {
    forall i | 0 <= i < |s| ensures FwdAt(next, s, i) { assert Linked(next, prev, s, i); }
    if s != [] { assert Linked(next, prev, s, |s| - 1); }
  }

  /** Terminating the output makes it a proper list. */
  lemma OutDone(next: seq<int>, prev: seq<int>, out: seq<nat>)
    requires OutLinked(next, prev, out) && NoRepeats(out)
    ensures Last(out) == NULL || 0 <= Last(out) < |next|
    ensures Doubly(Assign(next, Last(out), NULL), prev, out)
  {
    if out != [] { assert OutAt(next, prev, out, |out| - 1); }
    var next' := Assign(next, Last(out), NULL);
    forall i | 0 <= i < |out| ensures Linked(next', prev, out, i) && out[i] < |next| {
      assert OutAt(next, prev, out, i);
      if i < |out| - 1 { assert out[i] != out[|out| - 1]; }
    }
  }

  lemma ClosedSplit(next: seq<int>, p: seq<nat>, s: seq<nat>)
    requires Closed(next, p + s)
    ensures Fwd(next, p) && Closed(next, s)
  {
    forall i | 0 <= i < |p| ensures FwdAt(next, p, i) { assert FwdAt(next, p + s, i); }
    forall i | 0 <= i < |s| ensures FwdAt(next, s, i) {
      assert FwdAt(next, p + s, |p| + i);
      assert (p + s)[|p| + i] == s[i];
    }
  }

  /** What holds inside a merge: `out` is linked, the rest of the left run `p` and of the input `s` can be
      followed, and no element occurs twice. */
  ghost predicate Merging(next: seq<int>, prev: seq<int>, out: seq<nat>, p: seq<nat>, s: seq<nat>) {
    OutLinked(next, prev, out) && Fwd(next, p) && Closed(next, s) && Apart(out, p, s)
  }

  lemma MergeLeft(next: seq<int>, prev: seq<int>, out: seq<nat>, p: seq<nat>, s: seq<nat>)
    requires Merging(next, prev, out, p, s) && p != []
    ensures p[0] < |next| == |prev| && (Last(out) == NULL || 0 <= Last(out) < |next|)
    ensures |p| > 1 ==> next[p[0]] == p[1]
    ensures Merging(Assign(next, Last(out), p[0]), prev[p[0] := Last(out)], out + [p[0]], p[1..], s)
  {
    assert |next| == |prev|;
    hide OutLinked, Fwd, Closed, Apart;
    FwdFirst(next, p);
    ApartLast(out, p, s);
    OutAppend(next, prev, out, p[0]);
    FwdKept(next, p[1..], Last(out), p[0]);
    ClosedKept(next, s, Last(out), p[0]);
    TakeLeft(out, p, s);
  }

  lemma MergeRight(next: seq<int>, prev: seq<int>, out: seq<nat>, p: seq<nat>, s: seq<nat>)
    requires Merging(next, prev, out, p, s) && s != []
    ensures s[0] < |next| == |prev| && (Last(out) == NULL || 0 <= Last(out) < |next|)
    ensures next[s[0]] == At(s[1..], 0)
    ensures Merging(Assign(next, Last(out), s[0]), prev[s[0] := Last(out)], out + [s[0]], p, s[1..])
  {
    assert |next| == |prev|;
    hide OutLinked, Fwd, Closed, Apart;
    ClosedFirst(next, s);
    ApartLast(out, p, s);
    OutAppend(next, prev, out, s[0]);
    FwdKept(next, p, Last(out), s[0]);
    ClosedKept(next, s[1..], Last(out), s[0]);
    TakeRight(out, p, s);
  }

  lemma ApartLast(out: seq<nat>, p: seq<nat>, s: seq<nat>)
    requires Apart(out, p, s)
    ensures NoRepeats(out) && forall x :: x in out ==> x !in p && x !in s
    ensures (p != [] ==> p[0] !in out) && (s != [] ==> s[0] !in out)
    ensures Last(out) >= 0 ==> Last(out) !in p && Last(out) !in p[if p == [] then 0 else 1..]
    ensures Last(out) >= 0 ==> Last(out) !in s && Last(out) !in s[if s == [] then 0 else 1..]
  {
    if out != [] { assert out[|out| - 1] in out; }
  }

  /** In a forward list, position `k` leads to position `k + 1`. */
  lemma ClosedAt(next: seq<int>, s: seq<nat>, k: nat)
    requires Closed(next, s) && k < |s|
    ensures s[k] < |next| && next[s[k]] == At(s, k + 1)
  {
    assert FwdAt(next, s, k);
  }

  /** The final output of a merge in progress. */
  ghost function Merged(out: seq<nat>, p: seq<nat>, q: seq<nat>, cmp: Comparison): seq<nat> {
    out + Merge(p, q, cmp)
  }

  /** Where the next element comes from: the right run if the left one is empty, the left run if the right
      one is empty, and on ties the left run. */
  ghost predicate FromRight(p: seq<nat>, q: seq<nat>, cmp: Comparison) {
    p == [] || (q != [] && cmp(p[0], q[0]) > 0)
  }

  lemma MergedStep(out: seq<nat>, p: seq<nat>, q: seq<nat>, cmp: Comparison)
    requires p != [] || q != []
    ensures if FromRight(p, q, cmp) then Merged(out, p, q, cmp) == Merged(out + [q[0]], p, q[1..], cmp)
            else Merged(out, p, q, cmp) == Merged(out + [p[0]], p[1..], q, cmp)
  {
    if FromRight(p, q, cmp) {
      assert q == [q[0]] + q[1..];
    } else {
      assert p == [p[0]] + p[1..];
      assert q == [] ==> Merge(p, q, cmp) == [p[0]] + Merge(p[1..], q, cmp);
    }
  }

  lemma MergedDone(out: seq<nat>, cmp: Comparison)
    ensures Merged(out, [], [], cmp) == out
  {
  }

  lemma PushEnds(out: seq<nat>, e: nat)
    ensures At(out + [e], 0) == (if Last(out) == NULL then e as int else At(out, 0)) && Last(out + [e]) == e
  {
  }

  // ----- One pass -----

  ghost function SecondRun(runs: seq<seq<nat>>): seq<nat> {
    if |runs| > 1 then runs[1] else []
  }

  ghost function Rest(runs: seq<seq<nat>>): seq<seq<nat>> {
    if |runs| > 1 then runs[2..] else []
  }

  lemma StartMerging(next: seq<int>, prev: seq<int>, s: seq<nat>)
    requires Doubly(next, prev, s)
    ensures Merging(next, prev, [], [], s)
  {
    DoublyClosed(next, prev, s);
  }

  /** The first two runs, to be merged next. */
  lemma TakeRuns(next: seq<int>, prev: seq<int>, out: seq<nat>, runs: seq<seq<nat>>, insize: nat, cmp: Comparison)
    requires Merging(next, prev, out, [], Flatten(runs)) && RunSizes(runs, insize) && At(Flatten(runs), 0) != NULL
    ensures runs != [] && runs[0] != [] && At(Flatten(runs), 0) == runs[0][0] && Closed(next, Flatten(runs))
    ensures Flatten(runs[1..]) == SecondRun(runs) + Flatten(Rest(runs))
    ensures Merging(next, prev, out, runs[0], SecondRun(runs) + Flatten(Rest(runs)))
    ensures |SecondRun(runs)| <= insize && (|SecondRun(runs)| < insize ==> Flatten(Rest(runs)) == [])
    ensures RunSizes(Rest(runs), insize) && |Rest(runs)| < |runs|
    ensures Passed(out, runs, cmp) == Passed(Merged(out, runs[0], SecondRun(runs), cmp), Rest(runs), cmp)
    ensures |MergePass(runs, cmp)| == 1 + |MergePass(Rest(runs), cmp)|
  {
    var p, s := runs[0], Flatten(runs[1..]);
    assert Flatten(runs) == p + s;
    ClosedSplit(next, p, s);
    ApartSplit(out, p, s);
    SecondSizes(runs, insize);
    PassUnfold(runs, cmp);
    assert Passed(out, runs, cmp) == out + Merge(p, SecondRun(runs), cmp) + Flatten(MergePass(Rest(runs), cmp));
  }

  /** The final output of a pass in progress. */
  ghost function Passed(out: seq<nat>, runs: seq<seq<nat>>, cmp: Comparison): seq<nat> {
    out + Flatten(MergePass(runs, cmp))
  }

  lemma NothingPassed(runs: seq<seq<nat>>, cmp: Comparison)
    ensures Passed([], runs, cmp) == Flatten(MergePass(runs, cmp))
  {
  }

  lemma SecondSizes(runs: seq<seq<nat>>, insize: nat)
    requires runs != [] && RunSizes(runs, insize)
    ensures runs[0] != []
    ensures Flatten(runs[1..]) == SecondRun(runs) + Flatten(Rest(runs))
    ensures |SecondRun(runs)| <= insize && (|SecondRun(runs)| < insize ==> Flatten(Rest(runs)) == [])
    ensures RunSizes(Rest(runs), insize)
  {
    if |runs| > 1 {
      assert runs[1..][0] == runs[1] && runs[1..][1..] == runs[2..];
    }
  }

  lemma PassUnfold(runs: seq<seq<nat>>, cmp: Comparison)
    requires runs != []
    ensures Flatten(MergePass(runs, cmp)) == Merge(runs[0], SecondRun(runs), cmp) + Flatten(MergePass(Rest(runs), cmp))
    ensures |MergePass(runs, cmp)| == 1 + |MergePass(Rest(runs), cmp)|
  {
    var pass := MergePass(runs, cmp);
    assert pass[1..] == MergePass(Rest(runs), cmp) && pass[0] == Merge(runs[0], SecondRun(runs), cmp);
  }

  lemma ApartSplit(out: seq<nat>, p: seq<nat>, s: seq<nat>)
    requires Apart(out, [], p + s)
    ensures Apart(out, p, s)
  {
    forall i, j | 0 <= i < j < |p| ensures p[i] != p[j] { assert (p + s)[i] != (p + s)[j]; }
    forall i, j | 0 <= i < j < |s| ensures s[i] != s[j] { assert (p + s)[|p| + i] != (p + s)[|p| + j]; }
    forall i, j | 0 <= i < |p| && 0 <= j < |s| ensures p[i] != s[j] { assert (p + s)[i] != (p + s)[|p| + j]; }
  }

  lemma NonemptyRuns(runs: seq<seq<nat>>, insize: nat)
    requires runs != [] && RunSizes(runs, insize)
    ensures At(Flatten(runs), 0) != NULL
  {
    assert runs[0] != [];
  }

  lemma NothingLeft(next: seq<int>, prev: seq<int>, out: seq<nat>, runs: seq<seq<nat>>, insize: nat, cmp: Comparison)
    requires Merging(next, prev, out, [], Flatten(runs)) && RunSizes(runs, insize) && At(Flatten(runs), 0) == NULL
    ensures runs == [] && Passed(out, runs, cmp) == out && |MergePass(runs, cmp)| == 0
    ensures Last(out) == NULL || 0 <= Last(out) < |next|
    ensures Doubly(Assign(next, Last(out), NULL), prev, out)
  {
    if runs != [] {
      NonemptyRuns(runs, insize);
    }
    OutDone(next, prev, out);
  }
}
