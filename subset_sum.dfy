/** `subset_sum` of the RomFS allocator: a depth-first search, from the last number
    towards the first, for at most `limit` numbers (plus one exact closing number) that add
    up to a target (gnwmanager/romfs.py:187-206). */
module SubsetSum {
  import opened Common

  /** `sum(xs)`. */
  function Sum(xs: seq<int>): int
  {
    if xs == [] then 0 else xs[0] + Sum(xs[1..])
  }

  lemma {:induction false} SumAppend(xs: seq<int>, n: int)
    ensures Sum(xs + [n]) == Sum(xs) + n
  {
    if xs != [] {
      assert (xs + [n])[1..] == xs[1..] + [n];
      SumAppend(xs[1..], n);
    }
  }

  /** The sum of the numbers picked by `idx`. */
  function SumAt(numbers: seq<int>, idx: seq<nat>): int
    requires forall k :: 0 <= k < |idx| ==> idx[k] < |numbers|
  {
    if idx == [] then 0 else numbers[idx[0]] + SumAt(numbers, idx[1..])
  }

  /** Each index is smaller than the one before it, so no index repeats. */
  predicate Descending(idx: seq<nat>)
  {
    forall j, k :: 0 <= j < k < |idx| ==> idx[j] > idx[k]
  }

  /** What a successful search returns: the indices it was given, then a descending run of
      new indices below `bound` whose numbers make up what the partial sum still lacks. */
  predicate Solves(numbers: seq<int>, bound: nat, target: int, partial: seq<int>,
                   partialIndices: seq<nat>, r: seq<nat>)
    requires bound <= |numbers|
  {
    |partialIndices| < |r| && r[..|partialIndices|] == partialIndices
    && Descending(r[|partialIndices|..])
    && (forall k :: |partialIndices| <= k < |r| ==> r[k] < bound)
    && SumAt(numbers, r[|partialIndices|..]) == target - Sum(partial)
  }

  /** `subset_sum(numbers, target, limit, partial, partial_indices)`: a solution adds at
      most `limit - len(partial)` numbers by recursion and one more that closes it. */
  function Search(numbers: seq<int>, target: int, limit: int, partial: seq<int>,
                  partialIndices: seq<nat>): (r: Result<seq<nat>>)
    ensures r.Ok? ==> Solves(numbers, |numbers|, target, partial, partialIndices, r.value)
    ensures r.Ok? ==> |r.value| <= |partialIndices| + Max(limit - |partial|, 0) + 1
    ensures r.Err? ==> r.error == SubsetSumOptimizationError
    decreases |numbers|, 1
  {
    Scan(numbers, target, limit, partial, partialIndices, |numbers|)
  }

  /** The `for i in range(len(numbers) - 1, -1, -1)` loop of the search, at `i = k - 1`:
      a number below the remaining difference is tried recursively on the numbers before
      it (while the partial solution is shorter than `limit`); a number equal to it closes
      the solution; a failed recursion moves on to the next `i`. */
  function Scan(numbers: seq<int>, target: int, limit: int, partial: seq<int>,
                partialIndices: seq<nat>, k: nat): (r: Result<seq<nat>>)
    requires k <= |numbers|
    ensures r.Ok? ==> Solves(numbers, k, target, partial, partialIndices, r.value)
    ensures r.Ok? ==> |r.value| <= |partialIndices| + Max(limit - |partial|, 0) + 1
    ensures r.Err? ==> r.error == SubsetSumOptimizationError
    decreases |numbers|, 0, k
  {
    if k == 0 then Err(SubsetSumOptimizationError)
    else
      var i := k - 1;
      var n := numbers[i];
      var diff := target - Sum(partial);
      if n < diff && |partial| < limit then
        var sub := Search(numbers[..i], target, limit, partial + [n], partialIndices + [i]);
        if sub.Ok? then
          ExtendSolution(numbers, i, target, partial, partialIndices, sub.value);
          sub
        else Scan(numbers, target, limit, partial, partialIndices, i)
      else if n == diff then
        assert (partialIndices + [i])[..|partialIndices|] == partialIndices;
        assert (partialIndices + [i])[|partialIndices|..] == [i];
        Ok(partialIndices + [i])
      else Scan(numbers, target, limit, partial, partialIndices, i)
  }

  /** A solution over `numbers[..i]` that extends `partial + [numbers[i]]` is a solution over
      `numbers` that extends `partial`. */
  lemma ExtendSolution(numbers: seq<int>, i: nat, target: int, partial: seq<int>,
                       partialIndices: seq<nat>, r: seq<nat>)
    requires i < |numbers|
    requires Solves(numbers[..i], i, target, partial + [numbers[i]], partialIndices + [i], r)
    ensures Solves(numbers, i + 1, target, partial, partialIndices, r)
  {
    var p := |partialIndices|;
    var tail := r[p + 1..];
    assert r[..p + 1] == partialIndices + [i];
    assert r[..p] == partialIndices by { assert r[..p] == r[..p + 1][..p]; }
    assert r[p] == i by { assert r[p] == r[..p + 1][p]; }
    assert r[p..] == [i] + tail;
    SumAtPrefix(numbers, i, tail);
    SumAppend(partial, numbers[i]);
    assert r[p..][1..] == tail;
  }

  /** Picking from a prefix picks the same numbers as picking from the whole. */
  lemma {:induction false} SumAtPrefix(numbers: seq<int>, i: nat, idx: seq<nat>)
    requires i <= |numbers| && forall k :: 0 <= k < |idx| ==> idx[k] < i
    ensures SumAt(numbers[..i], idx) == SumAt(numbers, idx)
  {
    if idx != [] {
      SumAtPrefix(numbers, i, idx[1..]);
    }
  }

  /** The search from scratch: distinct indices, all in range, whose numbers add up to
      the target; the `len(partial) < limit` guard admits up to `limit` numbers taken
      while recursing plus the one that closes the sum. */
  lemma SearchSound(numbers: seq<int>, target: int, limit: int)
    ensures var r := Search(numbers, target, limit, [], []);
            r.Ok? ==> 0 < |r.value| <= Max(limit, 0) + 1 && Descending(r.value)
                      && (forall k :: 0 <= k < |r.value| ==> r.value[k] < |numbers|)
                      && SumAt(numbers, r.value) == target
  {
    var r := Search(numbers, target, limit, [], []);
    if r.Ok? {
      assert r.value[0..] == r.value;
    }
  }

  // ---- The search on the numbers of the package's own test ----

  const N1: seq<int> := [12]
  const N3: seq<int> := [12, 1, 61]
  const N4: seq<int> := [12, 1, 61, 5]
  const N5: seq<int> := [12, 1, 61, 5, 7]
  const N6: seq<int> := [12, 1, 61, 5, 7, 2]

  /** Starting from 7, the search takes 5, fails to close with 1 and closes with 12. */
  lemma ExampleFrom7()
    ensures Search(N4, 24, 3, [7], [4]) == Ok([4, 3, 0])
  {
    assert N4[..3] == N3 && N3[..1] == N1 && N1[..0] == [];
    assert [7] + [5] == [7, 5] && [4] + [3] == [4, 3];
    assert [7, 5] + [1] == [7, 5, 1] && [4, 3] + [1] == [4, 3, 1];
    assert [4, 3] + [0] == [4, 3, 0];
    assert Sum([7, 5, 1]) == 13 && Sum([7, 5]) == 12 && Sum([7]) == 7;
    assert Scan(N1, 24, 3, [7, 5, 1], [4, 3, 1], 1).Err?;
    assert Scan(N3, 24, 3, [7, 5], [4, 3], 1) == Ok([4, 3, 0]);
    assert Scan(N3, 24, 3, [7, 5], [4, 3], 3) == Ok([4, 3, 0]);
  }

  /** Starting from 2 and 7, every branch fails. */
  lemma ExampleFrom2And7()
    ensures Search(N4, 24, 3, [2, 7], [5, 4]).Err?
  {
    assert N4[..3] == N3 && N4[..1] == N1 && N4[..0] == [] && N3[..1] == N1;
    assert [2, 7] + [5] == [2, 7, 5] && [5, 4] + [3] == [5, 4, 3];
    assert [2, 7] + [1] == [2, 7, 1] && [5, 4] + [1] == [5, 4, 1];
    assert [2, 7] + [12] == [2, 7, 12] && [5, 4] + [0] == [5, 4, 0];
    assert Sum([2, 7, 5]) == 14 && Sum([2, 7, 1]) == 10 && Sum([2, 7]) == 9;
    assert Scan(N3, 24, 3, [2, 7, 5], [5, 4, 3], 3).Err?;
    assert Scan(N1, 24, 3, [2, 7, 1], [5, 4, 1], 1).Err?;
    assert Scan([], 24, 3, [2, 7, 12], [5, 4, 0], 0).Err?;
    assert Scan(N4, 24, 3, [2, 7], [5, 4], 2).Err?;
    assert Scan(N4, 24, 3, [2, 7], [5, 4], 4).Err?;
  }

  /** Starting from 2 and 5, every branch fails. */
  lemma ExampleFrom2And5()
    ensures Search(N3, 24, 3, [2, 5], [5, 3]).Err?
  {
    assert N3[..1] == N1 && N3[..0] == [] && N1[..0] == [];
    assert [2, 5] + [1] == [2, 5, 1] && [5, 3] + [1] == [5, 3, 1];
    assert [2, 5] + [12] == [2, 5, 12] && [5, 3] + [0] == [5, 3, 0];
    assert Sum([2, 5, 1]) == 8 && Sum([2, 5]) == 7;
    assert Scan(N1, 24, 3, [2, 5, 1], [5, 3, 1], 1).Err?;
    assert Scan([], 24, 3, [2, 5, 12], [5, 3, 0], 0).Err?;
    assert Scan(N3, 24, 3, [2, 5], [5, 3], 3).Err?;
  }

  /** Starting from 2, every branch fails. */
  lemma ExampleFrom2()
    ensures Search(N5, 24, 3, [2], [5]).Err?
  {
    ExampleFrom2And7();
    ExampleFrom2And5();
    assert N5[..4] == N4 && N5[..3] == N3 && N5[..1] == N1 && N5[..0] == [] && N1[..0] == [];
    assert [2] + [7] == [2, 7] && [5] + [4] == [5, 4] && [2] + [5] == [2, 5] && [5] + [3] == [5, 3];
    assert [2] + [1] == [2, 1] && [5] + [1] == [5, 1] && [2] + [12] == [2, 12] && [5] + [0] == [5, 0];
    assert [2, 1] + [12] == [2, 1, 12] && [5, 1] + [0] == [5, 1, 0];
    assert Sum([2, 1]) == 3 && Sum([2]) == 2;
    assert Scan([], 24, 3, [2, 1, 12], [5, 1, 0], 0).Err?;
    assert Scan(N1, 24, 3, [2, 1], [5, 1], 1).Err?;
    assert Scan([], 24, 3, [2, 12], [5, 0], 0).Err?;
    assert Scan(N5, 24, 3, [2], [5], 3).Err?;
    assert Scan(N5, 24, 3, [2], [5], 5).Err?;
  }

  /** The package's test case: numbers (12, 1, 61, 5, 7, 2), target 24, limit 3. The search
      finds 7 + 5 + 12, whose sum is the target. */
  lemma TestSubsetSumExample()
    ensures Search(N6, 24, 3, [], []) == Ok([4, 3, 0])
    ensures SumAt(N6, [4, 3, 0]) == 24
  {
    ExampleFrom7();
    ExampleFrom2();
    assert N6[..5] == N5 && N6[..4] == N4;
    assert [] + [2] == [2] && [] + [5] == [5] && [] + [7] == [7] && [] + [4] == [4];
    assert Sum([]) == 0;
    assert Scan(N6, 24, 3, [], [], 5) == Ok([4, 3, 0]);
  }
}
