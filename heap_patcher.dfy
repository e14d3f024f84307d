/**
 * Patching the heap (lines 48-73 of the script): one snapshot of the region
 * is read, every occurrence of the search bytes in that snapshot is found,
 * overlapping ones included, and at each the replacement, padded with zero
 * bytes to the length of the search bytes, is written into live memory.
 *
 * Process memory is an `array<bv8>` indexed by absolute address, standing
 * for `/proc/<pid>/mem` read and written as a flat file.
 */
module HeapPatcher {
  import opened Matching

  /**
   * `mem.seek(start); mem.read(end - start)` on a flat file: the bytes from
   * `start` on, at most `end - start` of them, fewer at the end of the file,
   * and all the rest of the file when the size is negative.
   */
  function ReadAt(m: seq<bv8>, start: nat, end: nat): (r: seq<bv8>)
    ensures r == [] || start + |r| <= |m|
    ensures forall i :: 0 <= i < |r| ==> start + i < |m| && r[i] == m[start + i]
    ensures start <= end <= |m| ==> r == m[start..end]
    ensures end < start && start <= |m| ==> r == m[start..]
  {
    var from := if start <= |m| then start else |m|;
    if end < start then m[from..]
    else m[from..if end <= |m| then end else |m|]
  }

  function Zeros(n: nat): (z: seq<bv8>)
    ensures |z| == n && forall i :: 0 <= i < n ==> z[i] == 0
  {
    seq(n, _ => 0)
  }

  /**
   * Line 67: the bytes written at a match, `replace` followed by zero
   * bytes, exactly as many bytes as `search` has.
   */
  function Padded(search: seq<bv8>, replace: seq<bv8>): (d: seq<bv8>)
    requires |replace| <= |search|
    ensures |d| == |search|
    ensures d[..|replace|] == replace
    ensures forall i :: |replace| <= i < |d| ==> d[i] == 0
  {
    replace + Zeros(|search| - |replace|)
  }

  /** Memory after writing `d` at `addr`; bytes that would land past the end are dropped. */
  function WriteAt(m: seq<bv8>, addr: nat, d: seq<bv8>): (r: seq<bv8>)
    ensures |r| == |m|
  {
    seq(|m|, a requires 0 <= a < |m| => if addr <= a < addr + |d| then d[a - addr] else m[a])
  }

  /** Memory after writing `d` at `base + o` for each `o` of `offsets`, in order. */
  function PatchAll(m: seq<bv8>, base: nat, offsets: seq<nat>, d: seq<bv8>): (r: seq<bv8>)
    ensures |r| == |m|
    decreases |offsets|
  {
    if offsets == [] then m
    else
      var last := |offsets| - 1;
      WriteAt(PatchAll(m, base, offsets[..last], d), base + offsets[last], d)
  }

  /** The addresses reported for the match offsets, `heap_start + idx` (line 63). */
  function Addresses(base: nat, offsets: seq<nat>): (r: seq<nat>)
    ensures |r| == |offsets|
    ensures forall i :: 0 <= i < |r| ==> r[i] == base + offsets[i]
  {
    seq(|offsets|, i requires 0 <= i < |offsets| => base + offsets[i])
  }

  /** The write at offset `o` covers address `a`. */
  predicate Covers(base: nat, o: nat, n: nat, a: nat) {
    base + o <= a < base + o + n
  }

  /** The index of the last offset whose write covers `a`, or -1 if none does. */
  function LastCover(base: nat, offsets: seq<nat>, n: nat, a: nat): (j: int)
    ensures -1 <= j < |offsets|
    ensures j >= 0 ==> Covers(base, offsets[j], n, a)
    ensures forall k :: j < k < |offsets| ==> !Covers(base, offsets[k], n, a)
    decreases |offsets|
  {
    if offsets == [] then -1
    else if Covers(base, offsets[|offsets| - 1], n, a) then |offsets| - 1
    else LastCover(base, offsets[..|offsets| - 1], n, a)
  }

  /** A byte that no write covers keeps its value. */
  lemma {:induction false} PatchAllOutside(m: seq<bv8>, base: nat, offsets: seq<nat>, d: seq<bv8>, a: nat)
    requires a < |m|
    requires forall k :: 0 <= k < |offsets| ==> !Covers(base, offsets[k], |d|, a)
    ensures PatchAll(m, base, offsets, d)[a] == m[a]
    decreases |offsets|
  {
    if offsets != [] {
      PatchAllOutside(m, base, offsets[..|offsets| - 1], d, a);
    }
  }

  /**
   * A byte that some write covers holds what the LAST write covering it put
   * there: a later overlapping write overwrites the tail of an earlier one.
   */
  lemma {:induction false} PatchAllLastWriter(m: seq<bv8>, base: nat, offsets: seq<nat>, d: seq<bv8>, a: nat, j: nat)
    requires a < |m| && j < |offsets| && Covers(base, offsets[j], |d|, a)
    requires forall k :: j < k < |offsets| ==> !Covers(base, offsets[k], |d|, a)
    ensures PatchAll(m, base, offsets, d)[a] == d[a - base - offsets[j]]
    decreases |offsets|
  {
    if j < |offsets| - 1 {
      PatchAllLastWriter(m, base, offsets[..|offsets| - 1], d, a, j);
    }
  }

  /**
   * A write that no later write overlaps survives whole: the replacement and
   * its zero padding stand at that offset after the run.
   */
  lemma PatchAllUnoverlapped(m: seq<bv8>, base: nat, offsets: seq<nat>, d: seq<bv8>, j: nat)
    requires j < |offsets| && base + offsets[j] + |d| <= |m|
    requires forall k :: j < k < |offsets| ==> offsets[j] + |d| <= offsets[k]
    ensures PatchAll(m, base, offsets, d)[base + offsets[j]..base + offsets[j] + |d|] == d
  {
    var r := PatchAll(m, base, offsets, d);
    var at := base + offsets[j];
    forall i | 0 <= i < |d| ensures r[at..at + |d|][i] == d[i] {
      assert forall k :: j < k < |offsets| ==> !Covers(base, offsets[k], |d|, at + i);
      PatchAllLastWriter(m, base, offsets, d, at + i, j);
    }
  }

  /**
   * The same for the padded replacement of a match in increasing order of
   * offsets: if the next match starts at or after its end, the replacement
   * and then zero bytes stand there.
   */
  lemma PaddedAtLastCover(m: seq<bv8>, base: nat, offsets: seq<nat>, search: seq<bv8>, replace: seq<bv8>, j: nat)
    requires |replace| <= |search|
    requires StrictlyIncreasing(offsets)
    requires j < |offsets| && base + offsets[j] + |search| <= |m|
    requires j + 1 < |offsets| ==> offsets[j] + |search| <= offsets[j + 1]
    ensures var at := base + offsets[j];
      var r := PatchAll(m, base, offsets, Padded(search, replace));
      r[at..at + |replace|] == replace &&
      forall i :: at + |replace| <= i < at + |search| ==> r[i] == 0
  {
    var d := Padded(search, replace);
    var at := base + offsets[j];
    assert forall k :: j < k < |offsets| ==> offsets[j] + |d| <= offsets[k] by {
      forall k | j < k < |offsets| ensures offsets[j] + |d| <= offsets[k] {
        assert offsets[j + 1] <= offsets[k];
      }
    }
    PatchAllUnoverlapped(m, base, offsets, d, j);
    var r := PatchAll(m, base, offsets, d);
    assert r[at..at + |replace|] == r[at..at + |d|][..|replace|];
    forall i | at + |replace| <= i < at + |search| ensures r[i] == 0 {
      assert r[i] == r[at..at + |d|][i - at];
    }
  }

  /**
   * Writing the search bytes back at every match offset restores the
   * memory the matches were found in.
   */
  lemma PatchRestore(m: seq<bv8>, base: nat, offsets: seq<nat>, d: seq<bv8>, search: seq<bv8>)
    requires |d| == |search|
    requires forall o :: o in offsets ==> IsMatchAt(m, search, base + o)
    ensures PatchAll(PatchAll(m, base, offsets, d), base, offsets, search) == m
  {
    var patched := PatchAll(m, base, offsets, d);
    var restored := PatchAll(patched, base, offsets, search);
    forall a | 0 <= a < |m| ensures restored[a] == m[a] {
      var j := LastCover(base, offsets, |d|, a);
      if j < 0 {
        PatchAllOutside(m, base, offsets, d, a);
        PatchAllOutside(patched, base, offsets, search, a);
      } else {
        PatchAllLastWriter(patched, base, offsets, search, a, j);
        assert offsets[j] in offsets;
        var t := a - base - offsets[j];
        assert m[base + offsets[j]..base + offsets[j] + |search|][t] == m[a];
      }
    }
  }

  /** A match in the snapshot is a match in the memory the snapshot was read from. */
  lemma SnapshotMatchInMemory(m: seq<bv8>, start: nat, end: nat, search: seq<bv8>, o: nat)
    requires |search| > 0 && IsMatchAt(ReadAt(m, start, end), search, o)
    ensures IsMatchAt(m, search, start + o)
    ensures end >= start ==> o + |search| <= end - start
  {
    var data := ReadAt(m, start, end);
    var n := |search|;
    forall i | 0 <= i < n ensures m[start + o..start + o + n][i] == search[i] {
      assert data[o..o + n][i] == data[o + i];
    }
  }

  /** Writing at one more offset is one more `WriteAt`. */
  lemma PatchAllSnoc(m: seq<bv8>, base: nat, offsets: seq<nat>, o: nat, d: seq<bv8>)
    ensures PatchAll(m, base, offsets + [o], d) == WriteAt(PatchAll(m, base, offsets, d), base + o, d)
  {
    assert (offsets + [o])[..|offsets|] == offsets;
  }

  lemma AddressesSnoc(base: nat, offsets: seq<nat>, o: nat)
    ensures Addresses(base, offsets + [o]) == Addresses(base, offsets) + [base + o]
  {
  }

  /**
   * One round of the patch loop that finds a hit at `offset`: the hit is the
   * next offset still to visit, its span lies in the snapshot, and moving it
   * from the offsets to visit to those done keeps the bookkeeping.
   */
  lemma FoundStep(data: seq<bv8>, search: seq<bv8>, pos: nat, offset: nat, base: nat, done: seq<nat>, next: seq<nat>)
    requires Find(data, search, pos) == offset
    requires next == Occurrences(data, search, offset + 1)
    ensures Occurrences(data, search, pos) == [offset] + next
    ensures offset + |search| <= |data|
    ensures done + Occurrences(data, search, pos) == (done + [offset]) + next
    ensures Addresses(base, done + [offset]) == Addresses(base, done) + [base + offset]
  {
    FindIsFirstOccurrence(data, search, pos);
    AddressesSnoc(base, done, offset);
    ConcatAssoc(done, [offset], next);
  }

  lemma ConcatAssoc(a: seq<nat>, b: seq<nat>, c: seq<nat>)
    ensures a + (b + c) == (a + b) + c
  {
  }

  /**
   * Why the snapshot matters: in memory `aaa`, replacing `aa` by `b` visits
   * offsets 0 and 1 of the snapshot and leaves `bb\0`, the second write
   * overwriting the padding of the first; a search of live memory after the
   * first write would no longer have found offset 1.
   */
  lemma OverlapExample()
    ensures var m: seq<bv8> := [0x61, 0x61, 0x61];
      var search: seq<bv8> := [0x61, 0x61];
      var replace: seq<bv8> := [0x62];
      Occurrences(m, search, 0) == [0, 1] &&
      PatchAll(m, 0, [0, 1], Padded(search, replace)) == [0x62, 0x62, 0] &&
      !IsMatchAt(WriteAt(m, 0, Padded(search, replace)), search, 1)
  {
    var m: seq<bv8> := [0x61, 0x61, 0x61];
    var search: seq<bv8> := [0x61, 0x61];
    var d := Padded(search, [0x62]);
    assert d == [0x62, 0];
    assert IsMatchAt(m, search, 0) && IsMatchAt(m, search, 1);
    var first := WriteAt(m, 0, d);
    assert first == [0x62, 0, 0x61];
    var offsets: seq<nat> := [0, 1];
    assert offsets[..1] == [0];
    assert first[1..3] != search by {
      assert first[1..3][0] == 0;
    }
  }

  /**
   * Line 69 `mem.write(new_data)` at `addr`: `d` lands byte by byte; the
   * caller guarantees it lies inside memory.
   */
  method WriteBytes(mem: array<bv8>, addr: nat, d: seq<bv8>)
    requires d == [] || addr + |d| <= mem.Length
    modifies mem
    ensures mem[..] == WriteAt(old(mem[..]), addr, d)
  {
    for i := 0 to |d|
      invariant forall a :: 0 <= a < mem.Length ==>
        mem[a] == if addr <= a < addr + i then d[a - addr] else old(mem[a])
    {
      mem[addr + i] := d[i];
    }
  }

  /**
   * Lines 48-73: snapshot the region, then find and patch every occurrence
   * of `search` in the snapshot. Returns the reported addresses, in the
   * order they were reported, and the `found` flag.
   */
  method PatchHeap(mem: array<bv8>, heapStart: nat, heapEnd: nat, search: seq<bv8>, replace: seq<bv8>)
    returns (addresses: seq<nat>, found: bool)
    requires |replace| <= |search|
    modifies mem
    ensures var offsets := Occurrences(ReadAt(old(mem[..]), heapStart, heapEnd), search, 0);
      addresses == Addresses(heapStart, offsets) &&
      mem[..] == PatchAll(old(mem[..]), heapStart, offsets, Padded(search, replace))
    ensures found <==> exists i: nat :: IsMatchAt(ReadAt(old(mem[..]), heapStart, heapEnd), search, i)
  {
    var heapData := ReadAt(mem[..], heapStart, heapEnd);
    addresses, found := PatchMatches(mem, heapStart, heapData, search, replace);
    OccurrencesNonEmptyIff(heapData, search);
  }

  /**
   * The `while True` loop of lines 57-73 over the snapshot `heapData`, which
   * was read from memory at `heapStart`: each search resumes one byte after
   * the previous hit, and every hit is patched in live memory at once.
   */
  method PatchMatches(mem: array<bv8>, heapStart: nat, heapData: seq<bv8>, search: seq<bv8>, replace: seq<bv8>)
    returns (addresses: seq<nat>, found: bool)
    requires |replace| <= |search|
    requires heapData == [] || heapStart + |heapData| <= mem.Length
    modifies mem
    ensures var offsets := Occurrences(heapData, search, 0);
      addresses == Addresses(heapStart, offsets) &&
      mem[..] == PatchAll(old(mem[..]), heapStart, offsets, Padded(search, replace)) &&
      found == (offsets != [])
  {
    ghost var m0 := mem[..];
    ghost var all := Occurrences(heapData, search, 0);
    ghost var done: seq<nat> := [];
    ghost var todo := all;
    addresses, found := [], false;
    var pos: nat := 0;
    while true
      invariant pos <= |heapData| + 1
      invariant todo == Occurrences(heapData, search, pos)
      invariant all == done + todo
      invariant addresses == Addresses(heapStart, done)
      invariant found == (done != [])
      invariant mem[..] == PatchAll(m0, heapStart, done, Padded(search, replace))
      decreases |heapData| + 1 - pos
    {
      var idx := Find(heapData, search, pos);
      if idx == -1 {
        FindIsFirstOccurrence(heapData, search, pos);
        break;
      }
      var offset: nat := idx;
      ghost var next := Occurrences(heapData, search, offset + 1);
      FoundStep(heapData, search, pos, offset, heapStart, done, next);
      var address := heapStart + offset;
      addresses := addresses + [address];
      var newData := Padded(search, replace);
      WriteBytes(mem, address, newData);
      PatchAllSnoc(m0, heapStart, done, offset, newData);
      found := true;
      pos := offset + 1;
      done, todo := done + [offset], next;
    }
    assert todo == [] && done + [] == done;
  }
}
