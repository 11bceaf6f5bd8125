/** The RomFS table: a header and a list of entries, each a contiguous run of the
    partition. The allocator walks the free gaps between entries in offset order, places a
    new file in the smallest gap that holds it, removes entries, and defragments by packing
    entries towards the start, filling gaps with later entries whose sizes add up to the
    gap (gnwmanager/romfs.py:209-355). */
module RomFs {
  import opened Common
  import opened RomFsCodec
  import opened SubsetSum

  /** The name and hash of a free-space record. */
  const FREE: Bytes := []
  const EMPTY_HASH: Bytes := [0, 0, 0, 0]

  function FreeEntry(offset: int, size: int): Entry { Entry(FREE, offset, size, EMPTY_HASH) }

  function EndOf(e: Entry): int { e.offset + e.size }

  /** `sum(x.size for x in es)`. */
  function SumSizes(es: seq<Entry>): int
  {
    if es == [] then 0 else es[0].size + SumSizes(es[1..])
  }

  lemma {:induction false} SumSizesConcat(a: seq<Entry>, b: seq<Entry>)
    ensures SumSizes(a + b) == SumSizes(a) + SumSizes(b)
  {
    if a == [] {
      assert a + b == b;
    } else {
      assert (a + b)[1..] == a[1..] + b;
      SumSizesConcat(a[1..], b);
    }
  }

  // ---- `entries.sort(key=lambda x: x.offset)` ----

  predicate SortedByOffset(s: seq<Entry>)
  {
    forall j, k :: 0 <= j < k < |s| ==> s[j].offset <= s[k].offset
  }

  /** Puts `x` after every element whose offset is not larger, so equal offsets keep
      their order. */
  function Insert(s: seq<Entry>, x: Entry): (r: seq<Entry>)
    ensures |r| == |s| + 1 && multiset(r) == multiset(s) + multiset{x}
  {
    if s == [] then [x]
    else if x.offset < s[0].offset then [x] + s
    else
      assert s == [s[0]] + s[1..];
      [s[0]] + Insert(s[1..], x)
  }

  /** Inserting keeps every offset at or above a common lower bound. */
  lemma {:induction false} InsertAbove(s: seq<Entry>, x: Entry, lo: int)
    requires lo <= x.offset && forall k :: 0 <= k < |s| ==> lo <= s[k].offset
    ensures forall k :: 0 <= k < |s| + 1 ==> lo <= Insert(s, x)[k].offset
  {
    if s != [] && x.offset >= s[0].offset {
      InsertAbove(s[1..], x, lo);
    }
  }

  /** Inserting into a sorted table keeps it sorted. */
  lemma {:induction false} InsertSorted(s: seq<Entry>, x: Entry)
    requires SortedByOffset(s)
    ensures SortedByOffset(Insert(s, x))
  {
    if s != [] && x.offset >= s[0].offset {
      InsertSorted(s[1..], x);
      InsertAbove(s[1..], x, s[0].offset);
    }
  }

  /** Python's stable sort by offset, as an insertion sort. */
  function SortByOffset(s: seq<Entry>): (r: seq<Entry>)
    ensures |r| == |s| && multiset(r) == multiset(s) && SortedByOffset(r)
  {
    if s == [] then []
    else
      var init := SortByOffset(s[..|s| - 1]);
      assert s == s[..|s| - 1] + [s[|s| - 1]];
      InsertSorted(init, s[|s| - 1]);
      Insert(init, s[|s| - 1])
  }

  /** An element no earlier than all others goes at the end. */
  lemma {:induction false} InsertLast(s: seq<Entry>, x: Entry)
    requires forall k :: 0 <= k < |s| ==> s[k].offset <= x.offset
    ensures Insert(s, x) == s + [x]
  {
    if s != [] {
      InsertLast(s[1..], x);
      assert [s[0]] + (s[1..] + [x]) == s + [x];
    }
  }

  /** Sorting a sorted table changes nothing, so the repeated sorts of the allocator
      agree. */
  lemma {:induction false} SortSorted(s: seq<Entry>)
    requires SortedByOffset(s)
    ensures SortByOffset(s) == s
  {
    if s != [] {
      var init := s[..|s| - 1];
      SortSorted(init);
      InsertLast(init, s[|s| - 1]);
      assert init + [s[|s| - 1]] == s;
    }
  }

  /** Sorting a table with one more entry inserts that entry into the sorted table. */
  lemma SortAppend(s: seq<Entry>, x: Entry)
    ensures SortByOffset(s + [x]) == Insert(SortByOffset(s), x)
  {
    assert (s + [x])[..|s|] == s;
  }

  // ---- Free space ----

  /** A table in offset order whose entries lie one after another, each starting no
      earlier than where the previous one ended (or `from`), and ending by `partSize`. */
  predicate Fits(es: seq<Entry>, from: int, partSize: int)
  {
    if es == [] then from <= partSize
    else from <= es[0].offset && es[0].size >= 0 && Fits(es[1..], EndOf(es[0]), partSize)
  }

  /** `_walk_free(min_size)` on a table already in offset order: the gap before each entry,
      measured from the end of the previous one, then the gap up to the partition size;
      only gaps strictly larger than `minSize` are reported. */
  function FreeGaps(es: seq<Entry>, from: int, partSize: int, minSize: int): (r: seq<Entry>)
    ensures forall k :: 0 <= k < |r| ==> r[k].size > minSize && r[k].name == FREE && r[k].hash == EMPTY_HASH
  {
    if es == [] then
      if partSize - from > minSize then [FreeEntry(from, partSize - from)] else []
    else
      var diff := es[0].offset - from;
      (if diff > minSize then [FreeEntry(from, diff)] else [])
        + FreeGaps(es[1..], EndOf(es[0]), partSize, minSize)
  }

  /** The gaps above a larger threshold are exactly the gaps above a smaller one that also
      exceed the larger. */
  lemma {:induction false} FreeGapsFilter(es: seq<Entry>, from: int, partSize: int, lo: int, hi: int, g: Entry)
    requires lo <= hi
    ensures g in FreeGaps(es, from, partSize, hi) <==> g in FreeGaps(es, from, partSize, lo) && g.size > hi
    decreases |es|
  {
    if es != [] {
      FreeGapsFilter(es[1..], EndOf(es[0]), partSize, lo, hi, g);
    }
  }

  /** Every gap of a fitting table lies between `from` and the partition end. */
  lemma {:induction false} GapsInside(es: seq<Entry>, from: int, partSize: int, minSize: int)
    requires Fits(es, from, partSize)
    ensures forall g :: g in FreeGaps(es, from, partSize, minSize) ==> from <= g.offset && EndOf(g) <= partSize
    decreases |es|
  {
    if es != [] {
      GapsInside(es[1..], EndOf(es[0]), partSize, minSize);
      FitsEnd(es[1..], EndOf(es[0]), partSize);
    }
  }

  /** A fitting table ends by the partition end. */
  lemma {:induction false} FitsEnd(es: seq<Entry>, from: int, partSize: int)
    requires Fits(es, from, partSize)
    ensures from <= partSize
    decreases |es|
  {
    if es != [] {
      FitsEnd(es[1..], EndOf(es[0]), partSize);
    }
  }

  /** A fitting table is in offset order. */
  lemma {:induction false} FitsSorted(es: seq<Entry>, from: int, partSize: int)
    requires Fits(es, from, partSize)
    ensures SortedByOffset(es) && forall k :: 0 <= k < |es| ==> from <= es[k].offset
    decreases |es|
  {
    if es != [] {
      FitsSorted(es[1..], EndOf(es[0]), partSize);
      assert forall k :: 1 <= k < |es| ==> es[k] == es[1..][k - 1];
    }
  }

  /** A table that fits from some point also fits from any earlier point. */
  lemma FitsEarlier(es: seq<Entry>, a: int, b: int, partSize: int)
    requires a <= b && Fits(es, b, partSize)
    ensures Fits(es, a, partSize)
  {
  }

  /** Free space and used space of a fitting table add up to the partition: `free` is the
      partition size minus the sizes of all entries. */
  lemma {:induction false} FreeSpace(es: seq<Entry>, from: int, partSize: int)
    requires Fits(es, from, partSize)
    ensures SumSizes(FreeGaps(es, from, partSize, 0)) + SumSizes(es) == partSize - from
    decreases |es|
  {
    if es != [] {
      var diff := es[0].offset - from;
      var first := if diff > 0 then [FreeEntry(from, diff)] else [];
      FreeSpace(es[1..], EndOf(es[0]), partSize);
      SumSizesConcat(first, FreeGaps(es[1..], EndOf(es[0]), partSize, 0));
    }
  }

  // ---- Best fit and adding ----

  /** The loop of `_best_fit`: the first gap of smallest size, or none. */
  function MinGap(gaps: seq<Entry>): (r: Option<Entry>)
    ensures r.None? <==> gaps == []
    ensures r.Some? ==> r.value in gaps && forall j :: 0 <= j < |gaps| ==> r.value.size <= gaps[j].size
  {
    if gaps == [] then None
    else
      var best := MinGap(gaps[..|gaps| - 1]);
      var g := gaps[|gaps| - 1];
      assert gaps == gaps[..|gaps| - 1] + [g];
      if best.None? || g.size < best.value.size then Some(g) else best
  }

  /** `_best_fit(size)` as written: it walks the gaps strictly larger than `size`, so a gap
      of exactly `size` is never chosen (and its `entry.size == size` exit is never
      taken). */
  function BestFitAsWritten(es: seq<Entry>, partSize: int, size: int): Result<Entry>
  {
    var best := MinGap(FreeGaps(es, 0, partSize, size));
    if best.None? then Err(InsufficientSpaceError) else Ok(best.value)
  }

  /** `_best_fit(size)` as documented, "the smallest FREE entry that is >= size": the walk
      threshold is one below `size` (and never below zero, where the walk itself
      starts). */
  function BestFitOf(es: seq<Entry>, partSize: int, size: int): Result<Entry>
  {
    var best := MinGap(FreeGaps(es, 0, partSize, Max(size - 1, 0)));
    if best.None? then Err(InsufficientSpaceError) else Ok(best.value)
  }

  /** The chosen gap is a free gap that holds `size` bytes and no smaller such gap exists;
      the search fails exactly when no free gap holds `size` bytes. */
  lemma BestFitChoosesSmallest(es: seq<Entry>, partSize: int, size: int)
    requires size >= 0
    ensures var r := BestFitOf(es, partSize, size);
            var gaps := FreeGaps(es, 0, partSize, 0);
            (r.Ok? ==> r.value in gaps && r.value.size >= size
                       && forall g :: g in gaps && g.size >= size ==> r.value.size <= g.size)
            && (r.Err? <==> forall g :: g in gaps ==> g.size < size)
  {
    var m := Max(size - 1, 0);
    forall g {
      FreeGapsFilter(es, 0, partSize, 0, m, g);
    }
  }

  /** The written best fit misses a gap of exactly the requested size: on an empty table a
      file as large as the partition is refused, while the documented best fit takes the
      whole partition. */
  lemma BestFitAsWrittenMissesExactGap(partSize: int)
    requires partSize > 0
    ensures FreeGaps([], 0, partSize, 0) == [FreeEntry(0, partSize)]
    ensures BestFitAsWritten([], partSize, partSize) == Err(InsufficientSpaceError)
    ensures AddEntryAsWritten([], partSize, [65], partSize, PyBytes(EMPTY_HASH)).result == Err(FragmentationError)
    ensures BestFitOf([], partSize, partSize) == Ok(FreeEntry(0, partSize))
    ensures AddEntryTo([], partSize, [65], partSize, PyBytes(EMPTY_HASH)).result == Ok(FreeEntry(0, partSize))
  {
    var gap := FreeEntry(0, partSize);
    assert MinGap([gap]) == Some(gap);
    assert [gap][1..] == [];
    assert SumSizes([gap]) == partSize;
    assert FreeGaps([], 0, partSize, partSize) == [];
  }

  /** A call that changes the table: its result and the table afterwards. */
  datatype Update<T> = Update(result: Result<T>, entries: seq<Entry>)

  /** `add_entry` on the sorted table, given the outcome of the best fit: refused when
      `size` exceeds the free space, a fragmentation error when no gap fits, the hash
      validator's error, or the new entry appended at the chosen gap's offset. */
  function AddEntryWith(es: seq<Entry>, partSize: int, name: Bytes, size: int, hash: PyValue,
                        fit: Result<Entry>): Update<Entry>
  {
    if size > SumSizes(FreeGaps(es, 0, partSize, 0)) then Update(Err(InsufficientSpaceError), es)
    else if fit.Err? then Update(Err(FragmentationError), es)
    else
      var made := NewEntry(name, fit.value.offset, size, hash);
      if made.Err? then Update(Err(made.error), es)
      else Update(Ok(fit.value), es + [made.value])
  }

  function AddEntryTo(es: seq<Entry>, partSize: int, name: Bytes, size: int, hash: PyValue): Update<Entry>
  {
    AddEntryWith(es, partSize, name, size, hash, BestFitOf(es, partSize, size))
  }

  function AddEntryAsWritten(es: seq<Entry>, partSize: int, name: Bytes, size: int, hash: PyValue): Update<Entry>
  {
    AddEntryWith(es, partSize, name, size, hash, BestFitAsWritten(es, partSize, size))
  }

  /** An entry placed at the start of a gap, no larger than the gap, keeps a fitting table
      fitting once sorted in. */
  lemma {:induction false} InsertIntoGap(es: seq<Entry>, from: int, partSize: int, m: int, g: Entry, n: Entry)
    requires m >= 0 && Fits(es, from, partSize)
    requires g in FreeGaps(es, from, partSize, m)
    requires n.offset == g.offset && 0 <= n.size <= g.size
    ensures Fits(Insert(es, n), from, partSize)
    decreases |es|
  {
    if es != [] {
      var diff := es[0].offset - from;
      var first := if diff > m then [FreeEntry(from, diff)] else [];
      var rest := FreeGaps(es[1..], EndOf(es[0]), partSize, m);
      assert g in first + rest;
      if g in first {
        assert n.offset == from < es[0].offset;
        assert Insert(es, n) == [n] + es;
        assert Insert(es, n)[1..] == es;
        FitsEarlier(es, EndOf(n), es[0].offset, partSize);
      } else {
        GapsInside(es[1..], EndOf(es[0]), partSize, m);
        InsertIntoGap(es[1..], EndOf(es[0]), partSize, m, g, n);
        assert Insert(es, n)[1..] == Insert(es[1..], n);
      }
    } else {
      assert Insert(es, n) == [n];
      assert Insert(es, n)[1..] == [];
    }
  }

  lemma {:induction false} SumSizesInsert(es: seq<Entry>, n: Entry)
    ensures SumSizes(Insert(es, n)) == SumSizes(es) + n.size
  {
    if es != [] && n.offset >= es[0].offset {
      SumSizesInsert(es[1..], n);
      assert Insert(es, n)[1..] == Insert(es[1..], n);
    } else if es != [] {
      assert Insert(es, n)[1..] == es;
    }
  }

  /** Adding to a fitting table keeps it fitting and takes exactly `size` bytes of free
      space. */
  lemma AddEntryKeepsFit(es: seq<Entry>, partSize: int, name: Bytes, size: int, hash: PyValue)
    requires Fits(es, 0, partSize) && size >= 0
    requires AddEntryTo(es, partSize, name, size, hash).result.Ok?
    ensures var after := SortByOffset(AddEntryTo(es, partSize, name, size, hash).entries);
            Fits(after, 0, partSize)
            && SumSizes(FreeGaps(after, 0, partSize, 0)) == SumSizes(FreeGaps(es, 0, partSize, 0)) - size
  {
    var g := BestFitOf(es, partSize, size).value;
    var n := NewEntry(name, g.offset, size, hash).value;
    FitsSorted(es, 0, partSize);
    SortSorted(es);
    SortAppend(es, n);
    BestFitChoosesSmallest(es, partSize, size);
    FreeGapsFilter(es, 0, partSize, 0, Max(size - 1, 0), g);
    InsertIntoGap(es, 0, partSize, Max(size - 1, 0), g, n);
    FreeSpace(es, 0, partSize);
    FreeSpace(Insert(es, n), 0, partSize);
    SumSizesInsert(es, n);
  }

  // ---- Removing ----

  /** What `remove` is given: a name or an entry. */
  datatype Key = ByName(name: Bytes) | ByEntry(entry: Entry)

  predicate Matches(e: Entry, key: Key)
  {
    match key
    case ByName(name) => e.name == name
    case ByEntry(x) => e == x
  }

  /** The index of the first matching entry, or the length when none matches. */
  function FindIndex(es: seq<Entry>, key: Key): (i: nat)
    ensures i <= |es| && (i < |es| ==> Matches(es[i], key))
    ensures forall k :: 0 <= k < i ==> !Matches(es[k], key)
  {
    if es == [] then 0
    else if Matches(es[0], key) then 0
    else 1 + FindIndex(es[1..], key)
  }

  /** `remove` on the sorted table: the first match goes, or `FileNotFoundError`. */
  function RemoveFrom(es: seq<Entry>, key: Key): Update<Entry>
  {
    var i := FindIndex(es, key);
    if i == |es| then Update(Err(FileNotFoundError), es) else Update(Ok(es[i]), es[..i] + es[i + 1..])
  }

  /** Exactly one matching entry leaves the table, and only a table with no match refuses. */
  lemma RemoveTakesOne(es: seq<Entry>, key: Key)
    ensures var u := RemoveFrom(es, key);
            (u.result.Ok? ==> Matches(u.result.value, key)
                              && multiset(u.entries) + multiset{u.result.value} == multiset(es))
            && (u.result.Err? <==> forall e :: e in es ==> !Matches(e, key))
            && (u.result.Err? ==> u.result.error == FileNotFoundError && u.entries == es)
  {
    var i := FindIndex(es, key);
    if i < |es| {
      assert es == es[..i] + [es[i]] + es[i + 1..];
    }
  }

  /** Removing an entry from a fitting table leaves it fitting. */
  lemma {:induction false} RemoveKeepsFit(es: seq<Entry>, from: int, partSize: int, i: nat)
    requires Fits(es, from, partSize) && i < |es|
    ensures Fits(es[..i] + es[i + 1..], from, partSize)
    decreases |es|
  {
    if i == 0 {
      assert es[..0] + es[1..] == es[1..];
      FitsEarlier(es[1..], from, EndOf(es[0]), partSize);
    } else {
      RemoveKeepsFit(es[1..], EndOf(es[0]), partSize, i - 1);
      var rest := es[..i] + es[i + 1..];
      assert es[i + 1..] == es[1..][i..];
      assert es[..i] == [es[0]] + es[1..][..i - 1];
      assert rest == [es[0]] + (es[1..][..i - 1] + es[1..][i..]);
      assert rest[1..] == es[1..][..i - 1] + es[1..][i..];
    }
  }

  // ---- Defragmenting ----

  datatype MoveCommand = MoveCommand(src: int, dst: int, size: int)

  /** The defragmenter's state: entries still to place (the deque), the next free offset,
      the commands so far and the entries placed so far. */
  datatype Defrag = Defrag(queue: seq<Entry>, offset: int, moves: seq<MoveCommand>, placed: seq<Entry>)

  function Sizes(es: seq<Entry>): (r: seq<int>)
    ensures |r| == |es| && forall k :: 0 <= k < |es| ==> r[k] == es[k].size
  {
    seq(|es|, k requires 0 <= k < |es| => es[k].size)
  }

  /** The gap-filling loop: each chosen entry (highest index first) is moved to the
      current offset and taken out of the queue. The written code does not keep the moved
      entries (`keep` false); keeping them is the intended behaviour. */
  function FillGap(s: Defrag, indices: seq<nat>, keep: bool): (r: Defrag)
    requires Descending(indices) && forall k :: 0 <= k < |indices| ==> indices[k] < |s.queue|
    ensures |r.queue| == |s.queue| - |indices|
    ensures |r.placed| == |s.placed| + (if keep then |indices| else 0)
    decreases |indices|
  {
    if indices == [] then s
    else
      var i := indices[0];
      var e := s.queue[i];
      var placed := if keep then s.placed + [e.(offset := s.offset)] else s.placed;
      FillGap(Defrag(s.queue[..i] + s.queue[i + 1..], s.offset + e.size,
                     s.moves + [MoveCommand(e.offset, s.offset, e.size)], placed),
              indices[1..], keep)
  }

  /** One turn of the `defrag` loop: take the first queued entry; if it does not start at
      the current offset, try to fill the gap with queued entries whose sizes add up to it;
      then place the entry at the current offset, with a move command when it moves. */
  function DefragStep(s: Defrag, limit: int, keep: bool): (r: Defrag)
    requires s.queue != []
    ensures |r.queue| < |s.queue|
    ensures keep ==> |r.placed| + |r.queue| == |s.placed| + |s.queue|
    ensures !keep ==> |r.placed| == |s.placed| + 1
  {
    var e := s.queue[0];
    var rest := Defrag(s.queue[1..], s.offset, s.moves, s.placed);
    var free := e.offset - s.offset;
    var filled :=
      if free != 0 then
        var found := Search(Sizes(rest.queue), free, limit, [], []);
        SearchSound(Sizes(rest.queue), free, limit);
        // The indices are already in descending order, so `indices.sort(reverse=True)`
        // leaves them as they are.
        if found.Ok? then FillGap(rest, found.value, keep) else rest
      else rest;
    var moved := e.(offset := filled.offset);
    var moves := if e.offset != moved.offset then filled.moves + [MoveCommand(e.offset, moved.offset, e.size)]
                 else filled.moves;
    Defrag(filled.queue, filled.offset + e.size, moves, filled.placed + [moved])
  }

  /** The whole loop, until the queue is empty. */
  function DefragFrom(s: Defrag, limit: int, keep: bool): (r: Defrag)
    ensures r.queue == []
    decreases |s.queue|
  {
    if s.queue == [] then s else DefragFrom(DefragStep(s, limit, keep), limit, keep)
  }

  /** `defrag(limit)` as written: entries moved into a gap are left out of the new table. */
  function DefragAsWritten(es: seq<Entry>, limit: int): Defrag
  {
    DefragFrom(Defrag(es, 0, [], []), limit, false)
  }

  /** `defrag(limit)` as intended: every entry is kept, at its new offset. */
  function DefragTable(es: seq<Entry>, limit: int): Defrag
  {
    DefragFrom(Defrag(es, 0, [], []), limit, true)
  }

  /** Entries laid end to end from `start` up to `end`. */
  predicate Packed(ps: seq<Entry>, start: int, end: int)
  {
    if ps == [] then start == end else ps[0].offset == start && Packed(ps[1..], EndOf(ps[0]), end)
  }

  lemma {:induction false} PackedAppend(ps: seq<Entry>, start: int, end: int, x: Entry)
    requires Packed(ps, start, end) && x.offset == end
    ensures Packed(ps + [x], start, EndOf(x))
    decreases |ps|
  {
    if ps != [] {
      assert (ps + [x])[1..] == ps[1..] + [x];
      PackedAppend(ps[1..], EndOf(ps[0]), end, x);
    } else {
      assert (ps + [x])[1..] == [];
    }
  }

  lemma {:induction false} FillGapPacked(s: Defrag, indices: seq<nat>)
    requires Descending(indices) && forall k :: 0 <= k < |indices| ==> indices[k] < |s.queue|
    requires Packed(s.placed, 0, s.offset)
    ensures Packed(FillGap(s, indices, true).placed, 0, FillGap(s, indices, true).offset)
    decreases |indices|
  {
    if indices != [] {
      var e := s.queue[indices[0]];
      PackedAppend(s.placed, 0, s.offset, e.(offset := s.offset));
      FillGapPacked(Defrag(s.queue[..indices[0]] + s.queue[indices[0] + 1..], s.offset + e.size,
                           s.moves + [MoveCommand(e.offset, s.offset, e.size)],
                           s.placed + [e.(offset := s.offset)]), indices[1..]);
    }
  }

  lemma DefragStepPacked(s: Defrag, limit: int)
    requires s.queue != [] && Packed(s.placed, 0, s.offset)
    ensures Packed(DefragStep(s, limit, true).placed, 0, DefragStep(s, limit, true).offset)
  {
    var e := s.queue[0];
    var rest := Defrag(s.queue[1..], s.offset, s.moves, s.placed);
    var free := e.offset - s.offset;
    if free != 0 {
      var found := Search(Sizes(rest.queue), free, limit, [], []);
      SearchSound(Sizes(rest.queue), free, limit);
      if found.Ok? {
        FillGapPacked(rest, found.value);
        var filled := FillGap(rest, found.value, true);
        PackedAppend(filled.placed, 0, filled.offset, e.(offset := filled.offset));
        return;
      }
    }
    PackedAppend(s.placed, 0, s.offset, e.(offset := s.offset));
  }

  /** An entry with its offset cleared: what a move must leave unchanged. */
  function Unplaced(e: Entry): Entry { e.(offset := 0) }

  /** The entries of a table, ignoring where they sit. */
  function Strip(es: seq<Entry>): (r: seq<Entry>)
    ensures |r| == |es|
  {
    seq(|es|, k requires 0 <= k < |es| => Unplaced(es[k]))
  }

  /** Everything the defragmenter holds, placed or still queued, up to offsets. */
  function Held(s: Defrag): multiset<Entry>
  {
    multiset(Strip(s.placed)) + multiset(Strip(s.queue))
  }

  lemma StripConcat(a: seq<Entry>, b: seq<Entry>)
    ensures Strip(a + b) == Strip(a) + Strip(b)
  {
  }

  /** Taking entry i out of the queue takes exactly its stripped copy out of the multiset. */
  lemma StripRemove(q: seq<Entry>, i: nat)
    requires i < |q|
    ensures multiset(Strip(q)) == multiset(Strip(q[..i] + q[i + 1..])) + multiset{Unplaced(q[i])}
  {
    assert q == q[..i] + [q[i]] + q[i + 1..];
    StripConcat(q[..i] + [q[i]], q[i + 1..]);
    StripConcat(q[..i], [q[i]]);
    StripConcat(q[..i], q[i + 1..]);
  }

  /** Moving queued entry i to the end of the table, at any offset, keeps what is held. */
  lemma MoveOne(placed: seq<Entry>, q: seq<Entry>, i: nat, at: int)
    requires i < |q|
    ensures multiset(Strip(placed + [q[i].(offset := at)])) + multiset(Strip(q[..i] + q[i + 1..]))
            == multiset(Strip(placed)) + multiset(Strip(q))
  {
    StripConcat(placed, [q[i].(offset := at)]);
    assert Strip([q[i].(offset := at)]) == [Unplaced(q[i])];
    StripRemove(q, i);
  }

  /** The intended gap filling moves entries from the queue to the table and changes
      nothing about them but their offsets. */
  lemma {:induction false} FillGapKeepsEntries(s: Defrag, indices: seq<nat>)
    requires Descending(indices) && forall k :: 0 <= k < |indices| ==> indices[k] < |s.queue|
    ensures Held(FillGap(s, indices, true)) == Held(s)
    decreases |indices|
  {
    if indices != [] {
      var i := indices[0];
      var e := s.queue[i];
      MoveOne(s.placed, s.queue, i, s.offset);
      FillGapKeepsEntries(Defrag(s.queue[..i] + s.queue[i + 1..], s.offset + e.size,
                                 s.moves + [MoveCommand(e.offset, s.offset, e.size)],
                                 s.placed + [e.(offset := s.offset)]), indices[1..]);
    }
  }

  /** Placing the popped head entry after a fill that kept what it held keeps it too. */
  lemma PlaceHead(s: Defrag, filled: Defrag, at: int)
    requires s.queue != []
    requires Held(filled) == multiset(Strip(s.placed)) + multiset(Strip(s.queue[1..]))
    ensures multiset(Strip(filled.placed + [s.queue[0].(offset := at)])) + multiset(Strip(filled.queue))
            == Held(s)
  {
    var q := s.queue;
    var u := multiset{Unplaced(q[0])};
    assert q == [q[0]] + q[1..];
    StripConcat([q[0]], q[1..]);
    StripConcat(filled.placed, [q[0].(offset := at)]);
    assert Strip([q[0]]) == [Unplaced(q[0])] == Strip([q[0].(offset := at)]);
    var fp, fq := multiset(Strip(filled.placed)), multiset(Strip(filled.queue));
    var sp, sq := multiset(Strip(s.placed)), multiset(Strip(q[1..]));
    assert multiset(Strip(q)) == u + sq;
    assert multiset(Strip(filled.placed + [q[0].(offset := at)])) == fp + u;
    assert fp + fq == sp + sq;
    assert fp + u + fq == (fp + fq) + u;
  }

  /** An intended turn places entries without losing, adding or altering any. */
  lemma DefragStepKeepsEntries(s: Defrag, limit: int)
    requires s.queue != []
    ensures Held(DefragStep(s, limit, true)) == Held(s)
  {
    var e := s.queue[0];
    var rest := Defrag(s.queue[1..], s.offset, s.moves, s.placed);
    var free := e.offset - s.offset;
    if free != 0 {
      var found := Search(Sizes(rest.queue), free, limit, [], []);
      SearchSound(Sizes(rest.queue), free, limit);
      if found.Ok? {
        FillGapKeepsEntries(rest, found.value);
        var filled := FillGap(rest, found.value, true);
        PlaceHead(s, filled, filled.offset);
        return;
      }
    }
    PlaceHead(s, rest, s.offset);
  }

  lemma {:induction false} DefragFromKeeps(s: Defrag, limit: int)
    requires Packed(s.placed, 0, s.offset)
    ensures var r := DefragFrom(s, limit, true);
            && |r.placed| == |s.placed| + |s.queue| && Packed(r.placed, 0, r.offset)
            && multiset(Strip(r.placed)) == Held(s)
    decreases |s.queue|
  {
    if s.queue != [] {
      DefragStepPacked(s, limit);
      DefragStepKeepsEntries(s, limit);
      DefragFromKeeps(DefragStep(s, limit, true), limit);
    }
  }

  /** The intended defragmentation keeps every entry (name, size and hash unchanged, only
      the offset new) and packs the table: the first entry starts at 0 and each next one
      where the previous ends. */
  lemma DefragKeepsAll(es: seq<Entry>, limit: int)
    ensures |DefragTable(es, limit).placed| == |es|
    ensures multiset(Strip(DefragTable(es, limit).placed)) == multiset(Strip(es))
    ensures Packed(DefragTable(es, limit).placed, 0, DefragTable(es, limit).offset)
  {
    var none: seq<Entry> := [];
    assert Strip(none) == [];
    DefragFromKeeps(Defrag(es, 0, [], []), limit);
  }

  /** The written defragmentation loses entries: with files at 0, 20 and 50 (ten bytes
      each), the last one is moved into the gap at 10 and then dropped from the table,
      while the intended one keeps it there. */
  lemma DefragAsWrittenDropsEntry()
    ensures var es := [Entry([65], 0, 10, EMPTY_HASH), Entry([66], 20, 10, EMPTY_HASH),
                       Entry([67], 50, 10, EMPTY_HASH)];
            var r := DefragAsWritten(es, 8);
            r.moves == [MoveCommand(50, 10, 10)]
            && r.placed == [Entry([65], 0, 10, EMPTY_HASH), Entry([66], 20, 10, EMPTY_HASH)]
            && |r.placed| < |es|
  {
    var a, b, c := Entry([65], 0, 10, EMPTY_HASH), Entry([66], 20, 10, EMPTY_HASH), Entry([67], 50, 10, EMPTY_HASH);
    var s0 := Defrag([a, b, c], 0, [], []);
    var s1 := DefragStep(s0, 8, false);
    assert [a, b, c][1..] == [b, c];
    assert s1 == Defrag([b, c], 10, [], [a]);
    assert [b, c][1..] == [c] && Sizes([c]) == [10];
    assert Search([10], 10, 8, [], []) == Ok([0]) by {
      assert Scan([10], 10, 8, [], [], 1) == Ok([] + [0]);
      assert [] + [0] == [0];
    }
    var filled := FillGap(Defrag([c], 10, [], [a]), [0], false);
    assert [c][..0] + [c][1..] == [];
    assert filled == Defrag([], 20, [MoveCommand(50, 10, 10)], [a]);
    var s2 := DefragStep(s1, 8, false);
    assert s2 == Defrag([], 30, [MoveCommand(50, 10, 10)], [a, b]);
    assert DefragFrom(s2, 8, false) == s2;
    assert DefragFrom(s1, 8, false) == DefragFrom(s2, 8, false);
    assert DefragFrom(s0, 8, false) == DefragFrom(s1, 8, false);
  }

  // ---- The table object ----

  /** A RomFS table whose methods sort, shrink and extend its entry list in place. */
  class RomFS {
    var header: Header
    var entries: seq<Entry>

    constructor (header: Header, entries: seq<Entry>)
      ensures this.header == header && this.entries == entries
    {
      this.header := header;
      this.entries := entries;
    }

    /** `_walk_free(min_size)`: sorts the entries, then yields the gaps. */
    method WalkFree(minSize: int) returns (gaps: seq<Entry>)
      modifies this
      ensures header == old(header) && entries == SortByOffset(old(entries))
      ensures gaps == FreeGaps(entries, 0, header.size, minSize)
    {
      entries := SortByOffset(entries);
      gaps := WalkGaps(entries, header.size, minSize);
    }

    /** `free`: the total size of the gaps. */
    method Free() returns (n: int)
      modifies this
      ensures header == old(header) && entries == SortByOffset(old(entries))
      ensures n == SumSizes(FreeGaps(entries, 0, header.size, 0))
    {
      var gaps := WalkFree(0);
      n := SumSizes(gaps);
    }

    /** `_best_fit(size)` with the documented `>= size`. */
    method BestFit(size: int) returns (r: Result<Entry>)
      modifies this
      ensures header == old(header) && entries == SortByOffset(old(entries))
      ensures r == BestFitOf(entries, header.size, size)
    {
      var gaps := WalkFree(Max(size - 1, 0));
      var best := SmallestGap(gaps, size);
      r := if best.None? then Err(InsufficientSpaceError) else Ok(best.value);
    }

    /** `add_entry(name, size, hash)`, with the documented best fit. */
    method AddEntry(name: Bytes, size: int, hash: PyValue) returns (r: Result<Entry>)
      modifies this
      ensures header == old(header)
      ensures var u := AddEntryTo(SortByOffset(old(entries)), header.size, name, size, hash);
              r == u.result && entries == u.entries
    {
      var free := Free();
      if size > free {
        return Err(InsufficientSpaceError);
      }
      var sorted := entries;
      var fit := BestFit(size);
      SortSorted(sorted);
      if fit.Err? {
        return Err(FragmentationError);
      }
      var made := NewEntry(name, fit.value.offset, size, hash);
      if made.Err? {
        return Err(made.error);
      }
      entries := entries + [made.value];
      r := Ok(fit.value);
    }

    /** `remove(obj)`: sorts, then deletes the first entry matching the name or equal to
        the entry. */
    method Remove(key: Key) returns (r: Result<Entry>)
      modifies this
      ensures header == old(header)
      ensures var u := RemoveFrom(SortByOffset(old(entries)), key);
              r == u.result && entries == u.entries
    {
      entries := SortByOffset(entries);
      var index := FindFirst(entries, key);
      if index == |entries| {
        return Err(FileNotFoundError);
      }
      r := Ok(entries[index]);
      entries := entries[..index] + entries[index + 1..];
    }

    /** `defrag(limit)`, keeping the entries it moves into gaps. */
    method DefragEntries(limit: int) returns (moves: seq<MoveCommand>)
      modifies this
      ensures header == old(header)
      ensures var d := DefragTable(SortByOffset(old(entries)), limit);
              moves == d.moves && entries == d.placed
    {
      entries := SortByOffset(entries);
      var s := Defrag(entries, 0, [], []);
      ghost var goal := DefragFrom(s, limit, true);
      while s.queue != []
        invariant header == old(header)
        invariant DefragFrom(s, limit, true) == goal
        decreases |s.queue|
      {
        s := Turn(s, limit);
      }
      moves := s.moves;
      entries := s.placed;
    }
  }

  /** A running minimum no larger than any gap is the minimum of all gaps. */
  lemma ExactFitStays(gaps: seq<Entry>, k: nat)
    requires k < |gaps| && MinGap(gaps[..k + 1]) == Some(gaps[k])
    requires forall j :: 0 <= j < |gaps| ==> gaps[j].size >= gaps[k].size
    ensures MinGap(gaps) == Some(gaps[k])
  {
    var tail := gaps[k + 1..];
    forall j | 0 <= j < |tail| ensures tail[j].size >= gaps[k].size {
      assert tail[j] == gaps[k + 1 + j];
    }
    MinGapStays(gaps[..k + 1], tail, gaps[k]);
    assert gaps[..k + 1] + tail == gaps;
  }

  /** A gap smaller than the running minimum replaces it. */
  lemma MinGapReplaced(prefix: seq<Entry>, g: Entry)
    requires MinGap(prefix).None? || g.size < MinGap(prefix).value.size
    ensures MinGap(prefix + [g]) == Some(g)
  {
    assert (prefix + [g])[..|prefix|] == prefix;
  }

  /** Once the running minimum is no larger than every later gap, it stays. */
  lemma {:induction false} MinGapStays(prefix: seq<Entry>, tail: seq<Entry>, best: Entry)
    requires MinGap(prefix) == Some(best)
    requires forall j :: 0 <= j < |tail| ==> tail[j].size >= best.size
    ensures MinGap(prefix + tail) == Some(best)
    decreases |tail|
  {
    if tail == [] {
      assert prefix + tail == prefix;
    } else {
      var n := |tail| - 1;
      MinGapStays(prefix, tail[..n], best);
      MinGapKeeps(prefix + tail[..n], tail[n], best);
      assert (prefix + tail[..n]) + [tail[n]] == prefix + tail;
    }
  }

  /** A gap no smaller than the running minimum does not replace it. */
  lemma MinGapKeeps(prefix: seq<Entry>, g: Entry, best: Entry)
    requires MinGap(prefix) == Some(best) && g.size >= best.size
    ensures MinGap(prefix + [g]) == Some(best)
  {
    assert (prefix + [g])[..|prefix|] == prefix;
  }

  /** The search loop of `remove`: `list.index` for an entry, the `for ... else` loop for
      a name. */
  method FindFirst(es: seq<Entry>, key: Key) returns (index: nat)
    ensures index == FindIndex(es, key)
  {
    index := 0;
    while index < |es| && !Matches(es[index], key)
      invariant 0 <= index <= |es|
      invariant FindIndex(es, key) == index + FindIndex(es[index..], key)
    {
      assert es[index..][1..] == es[index + 1..];
      index := index + 1;
    }
    if index == |es| {
      assert es[index..] == [];
    }
  }

  /** The loop of `_walk_free` over a table in offset order. */
  method WalkGaps(es: seq<Entry>, partSize: int, minSize: int) returns (gaps: seq<Entry>)
    ensures gaps == FreeGaps(es, 0, partSize, minSize)
  {
    var offset := 0;
    gaps := [];
    for k := 0 to |es|
      invariant gaps + FreeGaps(es[k..], offset, partSize, minSize) == FreeGaps(es, 0, partSize, minSize)
    {
      var entry := es[k];
      var diff := entry.offset - offset;
      WalkStep(gaps, es, k, offset, partSize, minSize);
      gaps := gaps + if diff > minSize then [FreeEntry(offset, diff)] else [];
      offset := entry.offset + entry.size;
    }
    assert es[|es|..] == [];
    var diff := partSize - offset;
    if diff > minSize {
      gaps := gaps + [FreeEntry(offset, diff)];
    }
  }

  /** One turn of `_walk_free`'s loop: the gap before entry `k`, if large enough, joins
      the gaps found so far, and the walk goes on from the entry's end. */
  lemma WalkStep(gaps: seq<Entry>, es: seq<Entry>, k: nat, from: int, partSize: int, minSize: int)
    requires k < |es|
    ensures gaps + FreeGaps(es[k..], from, partSize, minSize)
            == (gaps + if es[k].offset - from > minSize then [FreeEntry(from, es[k].offset - from)] else [])
               + FreeGaps(es[k + 1..], EndOf(es[k]), partSize, minSize)
  {
    assert es[k..][1..] == es[k + 1..];
  }

  /** The loop of `_best_fit` over gaps of at least `size` bytes: the first smallest gap,
      leaving early on an exact fit. */
  method SmallestGap(gaps: seq<Entry>, size: int) returns (best: Option<Entry>)
    requires forall j :: 0 <= j < |gaps| ==> gaps[j].size >= size
    ensures best == MinGap(gaps)
  {
    best := None;
    var k := 0;
    while k < |gaps|
      invariant 0 <= k <= |gaps|
      invariant best == MinGap(gaps[..k])
    {
      var entry := gaps[k];
      assert gaps[..k] + [entry] == gaps[..k + 1];
      if best.None? || entry.size < best.value.size {
        MinGapReplaced(gaps[..k], entry);
        best := Some(entry);
        if entry.size == size {
          ExactFitStays(gaps, k);
          return;
        }
      } else {
        MinGapKeeps(gaps[..k], entry, best.value);
      }
      k := k + 1;
    }
    assert gaps[..k] == gaps;
  }

  /** The gap-filling loop of `defrag`, keeping the moved entries. */
  method FillGapLoop(s: Defrag, indices: seq<nat>) returns (r: Defrag)
    requires Descending(indices) && forall k :: 0 <= k < |indices| ==> indices[k] < |s.queue|
    ensures r == FillGap(s, indices, true)
  {
    r := s;
    for j := 0 to |indices|
      invariant |r.queue| == |s.queue| - j
      invariant forall k :: j <= k < |indices| ==> indices[k] < |r.queue|
      invariant FillGap(r, indices[j..], true) == FillGap(s, indices, true)
    {
      var index := indices[j];
      assert indices[j..][1..] == indices[j + 1..];
      var e := r.queue[index];
      r := Defrag(r.queue[..index] + r.queue[index + 1..], r.offset + e.size,
                  r.moves + [MoveCommand(e.offset, r.offset, e.size)], r.placed + [e.(offset := r.offset)]);
    }
    assert indices[|indices|..] == [];
  }

  /** One turn of the `defrag` loop. */
  method Turn(s: Defrag, limit: int) returns (r: Defrag)
    requires s.queue != []
    ensures r == DefragStep(s, limit, true)
  {
    var entry := s.queue[0];
    var filled := Defrag(s.queue[1..], s.offset, s.moves, s.placed);
    var freeSize := entry.offset - s.offset;
    if freeSize != 0 {
      var found := Search(Sizes(filled.queue), freeSize, limit, [], []);
      SearchSound(Sizes(filled.queue), freeSize, limit);
      if found.Ok? {
        filled := FillGapLoop(filled, found.value);
      }
    }
    var moved := entry.(offset := filled.offset);
    var moves := filled.moves;
    if entry.offset != moved.offset {
      moves := moves + [MoveCommand(entry.offset, moved.offset, entry.size)];
    }
    r := Defrag(filled.queue, filled.offset + entry.size, moves, filled.placed + [moved]);
  }
}
