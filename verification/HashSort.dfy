/** Bottom-up mergesort on sequences of elements: runs, merges, and passes over all runs. */
module HashSort {
  import opened HashLinks
  import opened HashSpec

  type Comparison = (nat, nat) -> int

  function Merge(p: seq<nat>, q: seq<nat>, cmp: Comparison): (r: seq<nat>)
    ensures |r| == |p| + |q|
  {
    if p == [] then q
    else if q == [] then p
    else if cmp(p[0], q[0]) <= 0 then [p[0]] + Merge(p[1..], q, cmp)
    else [q[0]] + Merge(p, q[1..], cmp)
  }

  function Flatten(runs: seq<seq<nat>>): seq<nat> {
    if runs == [] then [] else runs[0] + Flatten(runs[1..])
  }

  /** One pass merges neighbouring runs. */
  function MergePass(runs: seq<seq<nat>>, cmp: Comparison): seq<seq<nat>> {
    if |runs| <= 1 then runs else [Merge(runs[0], runs[1], cmp)] + MergePass(runs[2..], cmp)
  }

  /** Passes until at most one run is left. */
  function SortRuns(runs: seq<seq<nat>>, cmp: Comparison): seq<nat>
    decreases |runs|
  {
    if |runs| <= 1 then Flatten(runs)
    else
      PassShorter(runs, cmp);
      SortRuns(MergePass(runs, cmp), cmp)
  }

  lemma PassShorter(runs: seq<seq<nat>>, cmp: Comparison)
    ensures |MergePass(runs, cmp)| == (|runs| + 1) / 2
    decreases |runs|
  {
    if |runs| > 1 { PassShorter(runs[2..], cmp); }
  }

  function MergeSort(s: seq<nat>, cmp: Comparison): seq<nat> {
    SortRuns(Singles(s), cmp)
  }

  /** All runs have length `n`, except that the last one may be shorter. */
  ghost predicate RunSizes(runs: seq<seq<nat>>, n: nat) {
    runs != [] ==> (if |runs| == 1 then 0 < |runs[0]| <= n else |runs[0]| == n > 0) && RunSizes(runs[1..], n)
  }

  function Singles(s: seq<nat>): seq<seq<nat>> {
    if s == [] then [] else [[s[0]]] + Singles(s[1..])
  }

  // ----- What sorting means -----

  ghost predicate TotalPreorder(cmp: Comparison, s: seq<nat>) {
    && (forall x, y :: x in s && y in s ==> cmp(x, y) <= 0 || cmp(y, x) <= 0)
    && (forall x, y, z :: x in s && y in s && z in s && cmp(x, y) <= 0 && cmp(y, z) <= 0 ==> cmp(x, z) <= 0)
  }

  ghost predicate Earlier(orig: seq<nat>, x: nat, y: nat) {
    exists i, j :: 0 <= i < j < |orig| && orig[i] == x && orig[j] == y
  }

  /** `x` must come before `y`: it is not greater, and if they are equal it was first originally. */
  ghost predicate Before(cmp: Comparison, orig: seq<nat>, x: nat, y: nat) {
    cmp(x, y) <= 0 && (cmp(y, x) <= 0 ==> Earlier(orig, x, y))
  }

  ghost predicate StableSorted(cmp: Comparison, orig: seq<nat>, s: seq<nat>) {
    forall i, j :: 0 <= i < j < |s| ==> Before(cmp, orig, s[i], s[j])
  }

  ghost predicate AllEarlier(orig: seq<nat>, s: seq<nat>, t: seq<nat>) {
    forall x, y :: x in s && y in t ==> Earlier(orig, x, y)
  }

  /** Sorted runs in their original order. */
  ghost predicate SortedRuns(cmp: Comparison, orig: seq<nat>, runs: seq<seq<nat>>) {
    runs != [] ==>
      StableSorted(cmp, orig, runs[0]) && AllEarlier(orig, runs[0], Flatten(runs[1..])) && SortedRuns(cmp, orig, runs[1..])
  }

  // ----- Merging -----

  lemma {:induction false} MergeElements(p: seq<nat>, q: seq<nat>, cmp: Comparison)
    ensures multiset(Merge(p, q, cmp)) == multiset(p) + multiset(q)
  {
    if p != [] && q != [] {
      assert p == [p[0]] + p[1..] && q == [q[0]] + q[1..];
      if cmp(p[0], q[0]) <= 0 { MergeElements(p[1..], q, cmp); } else { MergeElements(p, q[1..], cmp); }
    } else {
      assert p + q == Merge(p, q, cmp);
    }
  }

  lemma MergeMembers(p: seq<nat>, q: seq<nat>, cmp: Comparison)
    ensures forall x :: x in Merge(p, q, cmp) <==> x in p || x in q
  {
    MergeElements(p, q, cmp);
    forall x ensures x in Merge(p, q, cmp) <==> x in p || x in q {
      assert x in Merge(p, q, cmp) <==> x in multiset(Merge(p, q, cmp));
    }
  }

  lemma SortedPush(cmp: Comparison, orig: seq<nat>, x: nat, s: seq<nat>)
    requires StableSorted(cmp, orig, s) && forall y :: y in s ==> Before(cmp, orig, x, y)
    ensures StableSorted(cmp, orig, [x] + s)
  {
    hide Before;
  }

  lemma SortedRest(cmp: Comparison, orig: seq<nat>, s: seq<nat>)
    requires StableSorted(cmp, orig, s) && s != []
    ensures StableSorted(cmp, orig, s[1..]) && forall y :: y in s[1..] ==> Before(cmp, orig, s[0], y)
  {
    hide Before;
  }

  lemma {:induction false} MergeSorted(cmp: Comparison, orig: seq<nat>, p: seq<nat>, q: seq<nat>)
    requires StableSorted(cmp, orig, p) && StableSorted(cmp, orig, q) && AllEarlier(orig, p, q)
    requires TotalPreorder(cmp, orig) && (forall x :: x in p + q ==> x in orig)
    ensures StableSorted(cmp, orig, Merge(p, q, cmp))
  {
    hide StableSorted, Earlier;
    if p != [] && q != [] {
      var x, y := p[0], q[0];
      assert x in p + q && y in p + q;
      SortedRest(cmp, orig, p);
      SortedRest(cmp, orig, q);
      if cmp(x, y) <= 0 {
        MergeSorted(cmp, orig, p[1..], q);
        MergeMembers(p[1..], q, cmp);
        forall z | z in Merge(p[1..], q, cmp) ensures Before(cmp, orig, x, z) {
          if z !in p[1..] { FirstBefore(cmp, orig, q, z); assert z in p + q; }
        }
        SortedPush(cmp, orig, x, Merge(p[1..], q, cmp));
      } else {
        MergeSorted(cmp, orig, p, q[1..]);
        MergeMembers(p, q[1..], cmp);
        forall z | z in Merge(p, q[1..], cmp) ensures Before(cmp, orig, y, z) {
          if z !in q[1..] { FirstBefore(cmp, orig, p, z); assert z in p + q; }
        }
        SortedPush(cmp, orig, y, Merge(p, q[1..], cmp));
      }
    }
  }

  lemma FirstBefore(cmp: Comparison, orig: seq<nat>, s: seq<nat>, z: nat)
    requires StableSorted(cmp, orig, s) && z in s && TotalPreorder(cmp, orig) && z in orig
    ensures cmp(s[0], z) <= 0
  {
    var k :| 0 <= k < |s| && s[k] == z;
    if k > 0 { assert Before(cmp, orig, s[0], s[k]); }
  }

  // ----- Passes -----

  lemma {:induction false} PassElements(runs: seq<seq<nat>>, cmp: Comparison)
    ensures multiset(Flatten(MergePass(runs, cmp))) == multiset(Flatten(runs))
    decreases |runs|
  {
    if |runs| > 1 {
      var rest := runs[2..];
      PassElements(rest, cmp);
      MergeElements(runs[0], runs[1], cmp);
      TwoRuns(runs);
      var pass := MergePass(runs, cmp);
      assert pass[1..] == MergePass(rest, cmp);
      assert Flatten(pass) == Merge(runs[0], runs[1], cmp) + Flatten(MergePass(rest, cmp));
    }
  }

  lemma TwoRuns(runs: seq<seq<nat>>)
    requires |runs| > 1
    ensures Flatten(runs) == runs[0] + runs[1] + Flatten(runs[2..])
  {
    assert runs[1..][1..] == runs[2..];
  }

  lemma PassMembers(runs: seq<seq<nat>>, cmp: Comparison)
    ensures forall x :: x in Flatten(MergePass(runs, cmp)) <==> x in Flatten(runs)
  {
    PassElements(runs, cmp);
    forall x ensures x in Flatten(MergePass(runs, cmp)) <==> x in Flatten(runs) {
      assert x in Flatten(runs) <==> x in multiset(Flatten(runs));
    }
  }

  lemma {:induction false} PassSorted(cmp: Comparison, orig: seq<nat>, runs: seq<seq<nat>>)
    requires SortedRuns(cmp, orig, runs) && TotalPreorder(cmp, orig) && (forall x :: x in Flatten(runs) ==> x in orig)
    ensures SortedRuns(cmp, orig, MergePass(runs, cmp))
    decreases |runs|
  {
    hide StableSorted, Earlier, TotalPreorder, Merge;
    if |runs| > 1 {
      var p, q, rest := runs[0], runs[1], runs[2..];
      TwoRuns(runs);
      assert runs[1..][1..] == rest && runs[1..][0] == q;
      assert Flatten(runs[1..]) == q + Flatten(rest);
      PassSorted(cmp, orig, rest);
      MergeSorted(cmp, orig, p, q);
      MergeMembers(p, q, cmp);
      PassMembers(rest, cmp);
      var pass := MergePass(runs, cmp);
      assert pass[0] == Merge(p, q, cmp) && pass[1..] == MergePass(rest, cmp);
    }
  }

  lemma {:induction false} PassSizes(runs: seq<seq<nat>>, n: nat, cmp: Comparison)
    requires RunSizes(runs, n)
    ensures RunSizes(MergePass(runs, cmp), 2 * n)
    ensures |runs| <= 2 * |MergePass(runs, cmp)| <= |runs| + 1
    decreases |runs|
  {
    if |runs| > 1 {
      var rest := runs[2..];
      assert runs[1..][1..] == rest && runs[1..][0] == runs[1];
      PassSizes(rest, n, cmp);
      var pass := MergePass(runs, cmp);
      assert pass[1..] == MergePass(rest, cmp);
    }
  }

  // ----- Before the first pass -----

  lemma {:induction false} SinglesProps(cmp: Comparison, orig: seq<nat>, k: nat)
    requires NoRepeats(orig) && k <= |orig|
    ensures Flatten(Singles(orig[k..])) == orig[k..] && RunSizes(Singles(orig[k..]), 1)
    ensures |Singles(orig[k..])| == |orig| - k
    ensures SortedRuns(cmp, orig, Singles(orig[k..]))
    decreases |orig| - k
  {
    if k < |orig| {
      var s := orig[k..];
      assert s[1..] == orig[k + 1..];
      SinglesProps(cmp, orig, k + 1);
      var runs := Singles(s);
      assert runs[1..] == Singles(s[1..]) && runs[0] == [orig[k]];
      forall x, y | x in runs[0] && y in s[1..] ensures Earlier(orig, x, y) {
        var j := IndexIn(s[1..], y);
        assert orig[k] == x && orig[k + 1 + j] == y;
      }
    }
  }

  /** What holds of the runs during sorting: no element is lost, and if the comparison is a total preorder,
      every run is sorted. */
  ghost predicate SortingRuns(cmp: Comparison, orig: seq<nat>, runs: seq<seq<nat>>) {
    && multiset(Flatten(runs)) == multiset(orig)
    && (TotalPreorder(cmp, orig) ==> SortedRuns(cmp, orig, runs))
  }

  lemma SinglesStart(cmp: Comparison, orig: seq<nat>)
    requires NoRepeats(orig)
    ensures SortingRuns(cmp, orig, Singles(orig)) && Flatten(Singles(orig)) == orig && RunSizes(Singles(orig), 1)
    ensures orig != [] ==> Singles(orig) != []
  {
    SinglesProps(cmp, orig, 0);
    assert orig[0..] == orig;
  }

  lemma SortingPass(cmp: Comparison, orig: seq<nat>, runs: seq<seq<nat>>)
    requires SortingRuns(cmp, orig, runs)
    ensures SortingRuns(cmp, orig, MergePass(runs, cmp))
  {
    PassElements(runs, cmp);
    if TotalPreorder(cmp, orig) {
      forall x | x in Flatten(runs) ensures x in orig {
        assert x in multiset(Flatten(runs));
      }
      PassSorted(cmp, orig, runs);
    }
  }

  /** The passes lose no element, and for a total preorder they end in the stable sort. */
  lemma {:induction false} SortRunsProps(cmp: Comparison, orig: seq<nat>, runs: seq<seq<nat>>)
    requires SortingRuns(cmp, orig, runs)
    ensures multiset(SortRuns(runs, cmp)) == multiset(orig)
    ensures TotalPreorder(cmp, orig) ==> StableSorted(cmp, orig, SortRuns(runs, cmp))
    decreases |runs|
  {
    if |runs| > 1 {
      SortingPass(cmp, orig, runs);
      PassShorter(runs, cmp);
      SortRunsProps(cmp, orig, MergePass(runs, cmp));
    } else if |runs| == 1 {
      assert Flatten(runs) == runs[0];
    }
  }

  ghost predicate IsStableSort(cmp: Comparison, s: seq<nat>, t: seq<nat>) {
    multiset(t) == multiset(s) && (TotalPreorder(cmp, s) ==> StableSorted(cmp, s, t))
  }

  /** The sort is a permutation, and for a total preorder it is the stable one. */
  lemma MergeSortProps(cmp: Comparison, s: seq<nat>)
    requires NoRepeats(s)
    ensures IsStableSort(cmp, s, MergeSort(s, cmp)) && NoRepeats(MergeSort(s, cmp))
  {
    SinglesStart(cmp, s);
    SortRunsProps(cmp, s, Singles(s));
    PermutedNoRepeats(s, MergeSort(s, cmp));
  }

  /** Sorting by a number: smaller numbers first, and equal ones in their old order. */
  lemma SortedByNumber(cmp: Comparison, number: nat -> int, s: seq<nat>)
    requires NoRepeats(s) && forall x, y :: cmp(x, y) <= 0 <==> number(x) <= number(y)
    ensures multiset(MergeSort(s, cmp)) == multiset(s)
    ensures forall i, j :: 0 <= i < j < |MergeSort(s, cmp)| ==>
              var x, y := MergeSort(s, cmp)[i], MergeSort(s, cmp)[j];
              number(x) < number(y) || (number(x) == number(y) && Earlier(s, x, y))
  {
    hide MergeSort, Earlier;
    MergeSortProps(cmp, s);
    var t := MergeSort(s, cmp);
    assert TotalPreorder(cmp, s);
    forall i, j | 0 <= i < j < |t|
      ensures number(t[i]) < number(t[j]) || (number(t[i]) == number(t[j]) && Earlier(s, t[i], t[j]))
    {
      assert Before(cmp, s, t[i], t[j]);
    }
  }

  lemma PermutedNoRepeats(s: seq<nat>, t: seq<nat>)
    requires NoRepeats(s) && multiset(t) == multiset(s)
    ensures NoRepeats(t)
  {
    forall i, j | 0 <= i < j < |t| ensures t[i] != t[j] {
      OccursOnce(s, t[i]);
      assert t == t[..j] + [t[j]] + t[j + 1..] && t[i] in t[..j] && t[..j][i] == t[i];
      assert multiset(t) == multiset(t[..j]) + multiset{t[j]} + multiset(t[j + 1..]);
    }
  }

  lemma {:induction false} OccursOnce(s: seq<nat>, x: nat)
    requires NoRepeats(s)
    ensures multiset(s)[x] <= 1
  {
    if s != [] {
      FirstAndRest(s);
      OccursOnce(s[1..], x);
      assert s[0] !in s[1..];
    }
  }

  /** A pass brings the runs nearer to the sort. */
  lemma SortRunsStep(runs: seq<seq<nat>>, cmp: Comparison)
    requires runs != []
    ensures SortRuns(MergePass(runs, cmp), cmp) == SortRuns(runs, cmp)
    ensures |runs| == 1 ==> SortRuns(runs, cmp) == Flatten(runs)
  {
    PassShorter(runs, cmp);
  }

  /** A stable sort of a sequence is unique. */
  lemma {:induction false} StableSortUnique(cmp: Comparison, orig: seq<nat>, s: seq<nat>, t: seq<nat>)
    requires NoRepeats(orig) && StableSorted(cmp, orig, s) && StableSorted(cmp, orig, t) && multiset(s) == multiset(t)
    ensures s == t
    decreases |s|
  {
    hide StableSorted;
    assert |s| == |multiset(s)| == |multiset(t)| == |t|;
    if s != [] {
      SameFirst(cmp, orig, s, t);
      TailElements(s, t);
      SortedRest(cmp, orig, s);
      SortedRest(cmp, orig, t);
      StableSortUnique(cmp, orig, s[1..], t[1..]);
    }
  }

  lemma SameFirst(cmp: Comparison, orig: seq<nat>, s: seq<nat>, t: seq<nat>)
    requires NoRepeats(orig) && StableSorted(cmp, orig, s) && StableSorted(cmp, orig, t) && multiset(s) == multiset(t)
    requires s != [] && t != []
    ensures s[0] == t[0]
  {
    hide StableSorted, Earlier, NoRepeats;
    assert s[0] in multiset(t) && t[0] in multiset(s);
    if s[0] != t[0] {
      FirstBeforeAll(cmp, orig, s, t[0]);
      FirstBeforeAll(cmp, orig, t, s[0]);
      NotBothEarlier(orig, s[0], t[0]);
    }
  }

  lemma TailElements(s: seq<nat>, t: seq<nat>)
    requires multiset(s) == multiset(t) && s != [] && t != [] && s[0] == t[0]
    ensures s == [s[0]] + s[1..] && t == [t[0]] + t[1..] && multiset(s[1..]) == multiset(t[1..])
  {
    FirstAndRest(s);
    FirstAndRest(t);
    assert multiset(s[1..]) == multiset(s) - multiset{s[0]} && multiset(t[1..]) == multiset(t) - multiset{t[0]};
  }

  lemma FirstAndRest(s: seq<nat>)
    requires s != []
    ensures s == [s[0]] + s[1..] && multiset(s) == multiset{s[0]} + multiset(s[1..])
  {
    assert s == [s[0]] + s[1..];
  }

  lemma FirstBeforeAll(cmp: Comparison, orig: seq<nat>, s: seq<nat>, z: nat)
    requires StableSorted(cmp, orig, s) && z in s && z != s[0]
    ensures Before(cmp, orig, s[0], z)
  {
    var k := IndexIn(s, z);
    assert Before(cmp, orig, s[0], s[k]);
  }

  lemma NotBothEarlier(orig: seq<nat>, x: nat, y: nat)
    requires NoRepeats(orig)
    ensures !(Earlier(orig, x, y) && Earlier(orig, y, x))
  {
  }
}
