/**
 * The whole script: check the lengths, locate the heap in the memory map,
 * check that process memory can be opened, then patch every match in one
 * snapshot of the heap. The maps file is given as its lines, process memory
 * as an array of bytes indexed by address, and the `os.access` test of line
 * 44 as a boolean.
 */
module ReadWriteHeap {
  import opened Wrappers
  import opened Matching
  import opened HeapLocator
  import opened HeapPatcher

  /**
   * How a run ends: stopped with exit status 1 before any write, or run to
   * the end, with or without a match (exit status 0 either way).
   */
  datatype Outcome =
    | Aborted(error: Error)
    | Finished(heap: Region, addresses: seq<nat>, found: bool)

  /** Line 20: the replacement may not be longer than the search string. */
  predicate ReplaceFits(search: seq<bv8>, replace: seq<bv8>) {
    |replace| <= |search|
  }

  /** The snapshot of the heap that line 54 reads. */
  function HeapSnapshot(m: seq<bv8>, heap: Region): seq<bv8> {
    ReadAt(m, heap.start, heap.end)
  }

  /** The offsets, within the snapshot, that the script visits. */
  function MatchOffsets(m: seq<bv8>, heap: Region, search: seq<bv8>): seq<nat> {
    Occurrences(HeapSnapshot(m, heap), search, 0)
  }

  /**
   * Process memory after a run, and the outcome, given what locating the
   * heap yields (`HeapLocate` of the map lines). A run stops early, writing
   * nothing, exactly when the replacement is too long, the heap is not
   * located, or memory cannot be opened; the length check comes first, so
   * a long replacement is refused whatever the maps and memory hold.
   */
  function RunSpec(located: Result<Region, Error>, memAccessible: bool, m: seq<bv8>, search: seq<bv8>, replace: seq<bv8>): (r: (seq<bv8>, Outcome))
    ensures |r.0| == |m|
    ensures r.1.Aborted? <==> !ReplaceFits(search, replace) || located.Failure? || !memAccessible
    ensures r.1.Aborted? ==> r.0 == m
    ensures !ReplaceFits(search, replace) ==> r.1 == Aborted(ReplaceTooLong)
    ensures ReplaceFits(search, replace) && located.Failure? ==> r.1 == Aborted(located.error)
  {
    if !ReplaceFits(search, replace) then (m, Aborted(ReplaceTooLong))
    else
      match located
      case Failure(e) => (m, Aborted(e))
      case Success(heap) =>
        if !memAccessible then (m, Aborted(MemNotAccessible))
        else
          var offsets := MatchOffsets(m, heap, search);
          (PatchAll(m, heap.start, offsets, Padded(search, replace)),
           Finished(heap, Addresses(heap.start, offsets), offsets != []))
  }

  /** The script, lines 19-78, with I/O and printing left out. */
  method Run(maps: seq<string>, memAccessible: bool, mem: array<bv8>, search: seq<bv8>, replace: seq<bv8>)
    returns (outcome: Outcome)
    modifies mem
    ensures (mem[..], outcome) == RunSpec(HeapLocate(maps), memAccessible, old(mem[..]), search, replace)
  {
    if |replace| > |search| {
      return Aborted(ReplaceTooLong);
    }
    var located := LocateHeap(maps);
    if located.Failure? {
      return Aborted(located.error);
    }
    var heap := located.value;
    if !memAccessible {
      return Aborted(MemNotAccessible);
    }
    var addresses, found := PatchHeap(mem, heap.start, heap.end, search, replace);
    OccurrencesNonEmptyIff(HeapSnapshot(old(mem[..]), heap), search);
    return Finished(heap, addresses, found);
  }

  /**
   * `found` is set exactly when the search string occurs in the snapshot;
   * no match is an ordinary end of the run.
   */
  lemma FoundIffOccurs(heap: Region, m: seq<bv8>, search: seq<bv8>, replace: seq<bv8>)
    requires ReplaceFits(search, replace)
    ensures RunSpec(Success(heap), true, m, search, replace).1 ==
        Finished(heap, RunSpec(Success(heap), true, m, search, replace).1.addresses,
                 exists i: nat :: IsMatchAt(HeapSnapshot(m, heap), search, i))
  {
    OccurrencesNonEmptyIff(HeapSnapshot(m, heap), search);
  }

  /**
   * The reported addresses are `heap_start` plus every offset where the
   * search string occurs in the snapshot, overlapping ones included, each
   * once and in increasing order.
   */
  lemma ReportsEveryMatch(heap: Region, m: seq<bv8>, search: seq<bv8>, replace: seq<bv8>)
    requires ReplaceFits(search, replace)
    ensures var addresses := RunSpec(Success(heap), true, m, search, replace).1.addresses;
      StrictlyIncreasing(addresses) &&
      forall a :: a in addresses <==> heap.start <= a && IsMatchAt(HeapSnapshot(m, heap), search, a - heap.start)
  {
    var offsets := MatchOffsets(m, heap, search);
    var addresses := Addresses(heap.start, offsets);
    OccurrencesComplete(HeapSnapshot(m, heap), search, 0);
    OccurrencesIncreasing(HeapSnapshot(m, heap), search, 0);
    forall a ensures a in addresses <==> heap.start <= a && IsMatchAt(HeapSnapshot(m, heap), search, a - heap.start) {
      if a in addresses {
        var k :| 0 <= k < |addresses| && addresses[k] == a;
        assert offsets[k] in offsets;
      }
      if heap.start <= a && IsMatchAt(HeapSnapshot(m, heap), search, a - heap.start) {
        var o: nat := a - heap.start;
        assert o in offsets;
        var k :| 0 <= k < |offsets| && offsets[k] == o;
        assert addresses[k] == a;
      }
    }
  }

  /**
   * Every match span lies inside the snapshot, so inside the heap region
   * and inside memory, and a byte outside every match span keeps its value.
   */
  lemma WritesStayInMatchSpans(heap: Region, m: seq<bv8>, search: seq<bv8>, replace: seq<bv8>, a: nat)
    requires ReplaceFits(search, replace) && a < |m|
    ensures var offsets := MatchOffsets(m, heap, search);
      (forall o :: o in offsets ==> o + |search| <= |HeapSnapshot(m, heap)|) &&
      ((forall o :: o in offsets ==> !Covers(heap.start, o, |search|, a)) ==>
        RunSpec(Success(heap), true, m, search, replace).0[a] == m[a])
  {
    var offsets := MatchOffsets(m, heap, search);
    OccurrencesComplete(HeapSnapshot(m, heap), search, 0);
    if forall o :: o in offsets ==> !Covers(heap.start, o, |search|, a) {
      assert forall k :: 0 <= k < |offsets| ==> offsets[k] in offsets;
      PatchAllOutside(m, heap.start, offsets, Padded(search, replace), a);
    }
  }

  /** Bytes outside the snapshot of the heap are never written. */
  lemma OutsideHeapUnchanged(heap: Region, m: seq<bv8>, search: seq<bv8>, replace: seq<bv8>, a: nat)
    requires ReplaceFits(search, replace) && a < |m|
    requires a < heap.start || heap.start + |HeapSnapshot(m, heap)| <= a
    ensures RunSpec(Success(heap), true, m, search, replace).0[a] == m[a]
  {
    var offsets := MatchOffsets(m, heap, search);
    WritesStayInMatchSpans(heap, m, search, replace, a);
    OccurrencesComplete(HeapSnapshot(m, heap), search, 0);
  }

  /**
   * A match that no later match overlaps ends up holding the replacement
   * followed by `len(search) - len(replace)` zero bytes; in particular the
   * last match always does. (With an empty search string there is nothing
   * to write.)
   */
  lemma UnoverlappedMatchPatched(heap: Region, m: seq<bv8>, search: seq<bv8>, replace: seq<bv8>, j: nat)
    requires ReplaceFits(search, replace) && |search| > 0
    requires var offsets := MatchOffsets(m, heap, search);
      j < |offsets| && (j + 1 < |offsets| ==> offsets[j] + |search| <= offsets[j + 1])
    ensures var at := heap.start + MatchOffsets(m, heap, search)[j];
      var m' := RunSpec(Success(heap), true, m, search, replace).0;
      at + |search| <= |m| &&
      m'[at..at + |replace|] == replace &&
      forall i :: at + |replace| <= i < at + |search| ==> m'[i] == 0
  {
    var data := HeapSnapshot(m, heap);
    var offsets := MatchOffsets(m, heap, search);
    OccurrencesComplete(data, search, 0);
    OccurrencesIncreasing(data, search, 0);
    assert offsets[j] in offsets;
    SnapshotMatchInMemory(m, heap.start, heap.end, search, offsets[j]);
    PaddedAtLastCover(m, heap.start, offsets, search, replace, j);
  }

  /** Rebasing: writing at absolute addresses is writing at offsets from a base. */
  lemma {:induction false} PatchAllAtAddresses(m: seq<bv8>, base: nat, offsets: seq<nat>, d: seq<bv8>)
    ensures PatchAll(m, 0, Addresses(base, offsets), d) == PatchAll(m, base, offsets, d)
    decreases |offsets|
  {
    if offsets != [] {
      var init, last := offsets[..|offsets| - 1], offsets[|offsets| - 1];
      assert offsets == init + [last];
      AddressesSnoc(base, init, last);
      PatchAllSnoc(m, 0, Addresses(base, init), base + last, d);
      PatchAllSnoc(m, base, init, last, d);
      PatchAllAtAddresses(m, base, init, d);
    }
  }

  /**
   * Writing the search string back at every reported address restores the
   * memory as it was before the run.
   */
  lemma RestoreReportedMatches(heap: Region, m: seq<bv8>, search: seq<bv8>, replace: seq<bv8>)
    requires ReplaceFits(search, replace)
    ensures var (m', outcome) := RunSpec(Success(heap), true, m, search, replace);
      PatchAll(m', 0, outcome.addresses, search) == m
  {
    var data := HeapSnapshot(m, heap);
    var offsets := MatchOffsets(m, heap, search);
    var d := Padded(search, replace);
    var m' := PatchAll(m, heap.start, offsets, d);
    PatchAllAtAddresses(m', heap.start, offsets, search);
    if |search| > 0 {
      OccurrencesComplete(data, search, 0);
      forall o | o in offsets ensures IsMatchAt(m, search, heap.start + o) {
        SnapshotMatchInMemory(m, heap.start, heap.end, search, o);
      }
      PatchRestore(m, heap.start, offsets, d, search);
    } else {
      PatchAllEmpty(m, heap.start, offsets);
      PatchAllEmpty(m', heap.start, offsets);
    }
  }

  /** Zero-length writes change nothing. */
  lemma {:induction false} PatchAllEmpty(m: seq<bv8>, base: nat, offsets: seq<nat>)
    ensures PatchAll(m, base, offsets, []) == m
    decreases |offsets|
  {
    if offsets != [] {
      PatchAllEmpty(m, base, offsets[..|offsets| - 1]);
    }
  }
}
