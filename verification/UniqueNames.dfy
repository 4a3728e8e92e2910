/** `makeNamesUnique`: rename the later occurrences of a name in an attribute list. */
module UniqueNames {
  import opened Names

  predicate NoDup<T(==)>(s: seq<T>) {
    forall i, j :: 0 <= i < j < |s| ==> s[i] != s[j]
  }

  function Occurrences(name: string, names: seq<string>): nat {
    if names == [] then 0
    else Occurrences(name, names[..|names| - 1]) + if names[|names| - 1] == name then 1 else 0
  }

  lemma {:induction false} OccurrencesZero(name: string, names: seq<string>)
    ensures Occurrences(name, names) == 0 <==> name !in names
  {
    if names != [] {
      OccurrencesZero(name, names[..|names| - 1]);
      assert names == names[..|names| - 1] + [names[|names| - 1]];
    }
  }

  lemma {:induction false} FirstOf(names: seq<string>, x: string) returns (i: nat)
    requires x in names
    ensures i < |names| && names[i] == x && x !in names[..i]
  {
    var front := names[..|names| - 1];
    assert names == front + [names[|names| - 1]];
    if x in front {
      i := FirstOf(front, x);
      assert names[..i] == front[..i];
    } else {
      i := |names| - 1;
    }
  }

  /** The taken names that the suffixes from `count` on may still run into. */
  ghost function Remaining(base: string, count: nat, taken: set<string>): set<string> {
    set s | s in taken && forall j: nat :: j < count ==> s != base + Dec(j)
  }

  lemma SuffixesDiffer(base: string, m: nat, n: nat)
    ensures base + Dec(m) == base + Dec(n) ==> m == n
  {
    if base + Dec(m) == base + Dec(n) {
      assert Dec(m) == (base + Dec(m))[|base|..];
      assert Dec(n) == (base + Dec(n))[|base|..];
      DecInjective(m, n);
    }
  }

  lemma RemainingShrinks(base: string, count: nat, taken: set<string>)
    requires base + Dec(count) in taken
    ensures Remaining(base, count + 1, taken) < Remaining(base, count, taken)
  {
    forall j: nat | j < count ensures base + Dec(count) != base + Dec(j) {
      SuffixesDiffer(base, count, j);
    }
    assert base + Dec(count) in Remaining(base, count, taken);
    assert base + Dec(count) !in Remaining(base, count + 1, taken);
  }

  /** The least suffix from `count` on that gives a name outside `taken`. */
  function NextFree(base: string, count: nat, taken: set<string>): (free: nat)
    ensures count <= free && base + Dec(free) !in taken
    decreases Remaining(base, count, taken)
  {
    if base + Dec(count) in taken then
      RemainingShrinks(base, count, taken);
      NextFree(base, count + 1, taken)
    else count
  }

  /** First skip the names in `allNames`, then, from there, those in the list itself; the names
      skipped to by the second search are not looked up in `allNames` again. */
  function FreshName(base: string, count: nat, allNames: set<string>, current: seq<string>): (name: string)
    requires count > 0
    ensures InFamily(name, base) && name !in current && |name| > |base|
  {
    var afterAll := NextFree(base, count, allNames);
    var free := NextFree(base, afterAll, set s | s in current);
    FamilyExtends(base, base, free);
    base + Dec(free)
  }

  /** The list after its first `n` cells have been visited. */
  function UniqueUpTo(names: seq<string>, allNames: set<string>, n: nat): (r: seq<string>)
    requires n <= |names|
    ensures |r| == |names| && r[n..] == names[n..]
  {
    if n == 0 then names
    else
      var current := UniqueUpTo(names, allNames, n - 1);
      assert current[n - 1] == current[n - 1..][0];
      var count := Occurrences(names[n - 1], names[..n - 1]);
      if count == 0 then current
      else current[n - 1 := FreshName(names[n - 1], count, allNames, current)]
  }

  lemma UniqueUpToStep(names: seq<string>, allNames: set<string>, n: nat)
    requires 0 < n <= |names|
    ensures var prev, count := UniqueUpTo(names, allNames, n - 1), Occurrences(names[n - 1], names[..n - 1]);
      && |prev| == |names|
      && UniqueUpTo(names, allNames, n)
         == if count == 0 then prev else prev[n - 1 := FreshName(names[n - 1], count, allNames, prev)]
  {
    hide FreshName;
  }

  function MakeUnique(names: seq<string>, allNames: set<string>): (r: seq<string>)
    ensures |r| == |names|
  {
    UniqueUpTo(names, allNames, |names|)
  }

  /** Everything `UniqueUpToProps` says about the first `n` cells. */
  ghost predicate UniqueSoFar(names: seq<string>, r: seq<string>, n: nat)
    requires n <= |names| == |r|
  {
    && NoDup(r[..n])
    && (forall i :: 0 <= i < n ==> InFamily(r[i], names[i]))
    && (forall i :: 0 <= i < n && names[i] !in names[..i] ==> r[i] == names[i])
    && (forall i, k :: 0 <= i < n <= k < |names| && names[i] in names[..i] ==> r[i] != names[k])
    && (forall k :: n <= k < |names| ==> r[k] == names[k])
  }

  lemma UniqueStep(names: seq<string>, prev: seq<string>, n: nat, name: string)
    requires n < |names| == |prev| && UniqueSoFar(names, prev, n)
    requires InFamily(name, names[n])
    requires names[n] !in names[..n] ==> name == names[n]
    requires names[n] in names[..n] ==> name !in prev
    ensures UniqueSoFar(names, prev[n := name], n + 1)
  {
    var r := prev[n := name];
    forall i, j | 0 <= i < j < n + 1 ensures r[i] != r[j] {
      if j < n {
        assert prev[..n][i] != prev[..n][j];
      } else if names[n] !in names[..n] {
        assert names[..n][i] != names[n];
      } else {
        assert prev[i] in prev;
      }
    }
    forall i, k | 0 <= i < n + 1 <= k < |names| && names[i] in names[..i] ensures r[i] != names[k] {
      if i == n {
        assert prev[k] in prev && prev[k] == names[k];
      }
    }
  }

  lemma {:induction false} UniqueUpToProps(names: seq<string>, allNames: set<string>, n: nat)
    requires n <= |names|
    ensures UniqueSoFar(names, UniqueUpTo(names, allNames, n), n)
  {
    hide FreshName, UniqueSoFar, Occurrences, IsNumeral, Dec;
    if n == 0 {
      NothingVisited(names);
    } else {
      UniqueUpToProps(names, allNames, n - 1);
      OccurrencesZero(names[n - 1], names[..n - 1]);
      var prev := UniqueUpTo(names, allNames, n - 1);
      var r := UniqueUpTo(names, allNames, n);
      assert prev[n - 1] == names[n - 1] by { assert prev[n - 1..][0] == names[n - 1..][0]; }
      assert r == prev[n - 1 := r[n - 1]];
      UniqueStep(names, prev, n - 1, r[n - 1]);
    }
  }

  lemma NothingVisited(names: seq<string>)
    ensures UniqueSoFar(names, names, 0)
  {
  }

  /** What callers rely on: all names differ, the first occurrence of a name keeps it, and every
      name stays in the family of the name it replaces. */
  lemma MakeUniqueProps(names: seq<string>, allNames: set<string>)
    ensures var r := MakeUnique(names, allNames);
      && NoDup(r)
      && (forall i :: 0 <= i < |r| ==> InFamily(r[i], names[i]))
      && (forall i :: 0 <= i < |r| && names[i] !in names[..i] ==> r[i] == names[i])
  {
    UniqueUpToProps(names, allNames, |names|);
    assert MakeUnique(names, allNames)[..|names|] == MakeUnique(names, allNames);
  }

  /** One of the two searches for an unused suffix. */
  method FindFree(base: string, start: nat, taken: set<string>) returns (count: nat)
    ensures count == NextFree(base, start, taken)
  {
    count := start;
    while base + Dec(count) in taken
      invariant NextFree(base, start, taken) == NextFree(base, count, taken)
      decreases Remaining(base, count, taken)
    {
      RemainingShrinks(base, count, taken);
      count := count + 1;
    }
  }

  method MakeNamesUnique(names: seq<string>, allNames: set<string>) returns (result: seq<string>)
    ensures result == MakeUnique(names, allNames)
  {
    result := names;
    var nCount: map<string, nat> := map[];
    for i := 0 to |names|
      invariant result == UniqueUpTo(names, allNames, i)
      invariant forall s :: Occurrences(s, names[..i]) == if s in nCount then nCount[s] else 0
    {
      assert result[i] == result[i..][0] == names[i];
      assert names[..i + 1][..i] == names[..i];
      var oldName := result[i];
      var count := if oldName in nCount then nCount[oldName] else 0;
      nCount := nCount[oldName := count + 1];
      if count != 0 {
        count := FindFree(oldName, count, allNames);
        count := FindFree(oldName, count, set s | s in result);
        result := result[i := oldName + Dec(count)];
      }
    }
  }
}
