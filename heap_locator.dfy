/**
 * Finding the heap: the script scans the lines of `/proc/<pid>/maps` in file
 * order, stops at the first one containing `[heap]`, and reads that line's
 * address range. A start address of 0 counts as "no heap", because the
 * script tests `if not heap_start`.
 */
module HeapLocator {
  import opened Wrappers
  import opened Matching
  import opened MapsParsing

  const HeapTag: string := "[heap]"

  /** The heap region as the script finds it; nothing relates `end` to `start`. */
  datatype Region = Region(start: nat, end: nat)

  /** `'[heap]' in line`: the tag occurs anywhere in the line. */
  predicate HasHeapTag(line: string): (b: bool)
    ensures b <==> exists i: nat :: IsMatchAt(line, HeapTag, i)
  {
    ContainsIff(line, HeapTag);
    Contains(line, HeapTag)
  }

  /** The index of the first line, at or after `from`, that contains `[heap]`. */
  function FirstTagged(maps: seq<string>, from: nat): (r: Option<nat>)
    requires from <= |maps|
    ensures r.None? <==> forall k :: from <= k < |maps| ==> !HasHeapTag(maps[k])
    ensures r.Some? ==>
      from <= r.value < |maps| && HasHeapTag(maps[r.value]) &&
      forall k :: from <= k < r.value ==> !HasHeapTag(maps[k])
    decreases |maps| - from
  {
    if from == |maps| then None
    else if HasHeapTag(maps[from]) then Some(from)
    else FirstTagged(maps, from + 1)
  }

  /**
   * What lines 29-40 compute: the range of the first `[heap]` line, the
   * parse error Python raises on that line, or `HeapNotFound` when there is
   * no such line or its start is 0.
   */
  function HeapLocate(maps: seq<string>): (r: Result<Region, Error>)
    ensures r.Success? ==> r.value.start > 0
    ensures (forall k :: 0 <= k < |maps| ==> !HasHeapTag(maps[k])) ==> r == Failure(HeapNotFound)
    ensures r.Success? ==> exists k :: 0 <= k < |maps| && HasHeapTag(maps[k])
    ensures r.Success? ==>
      FirstTagged(maps, 0).Some? &&
      ParseAddressRange(maps[FirstTagged(maps, 0).value]) == Success((r.value.start, r.value.end))
  {
    match FirstTagged(maps, 0)
    case None => Failure(HeapNotFound)
    case Some(k) =>
      match ParseAddressRange(maps[k])
      case Failure(e) => Failure(e)
      case Success(range) =>
        if range.0 == 0 then Failure(HeapNotFound) else Success(Region(range.0, range.1))
  }

  /**
   * The `for line in f … break` loop of lines 29-36 followed by the check
   * of line 38.
   */
  method LocateHeap(maps: seq<string>) returns (r: Result<Region, Error>)
    ensures r == HeapLocate(maps)
  {
    var heapStart: Option<nat> := None;
    var heapEnd: nat := 0;
    var i := 0;
    while i < |maps|
      invariant 0 <= i <= |maps|
      invariant heapStart.None?
      invariant forall k :: 0 <= k < i ==> !HasHeapTag(maps[k])
      invariant FirstTagged(maps, 0) == FirstTagged(maps, i)
    {
      if HasHeapTag(maps[i]) {
        assert FirstTagged(maps, 0) == Some(i);
        var range := ParseAddressRange(maps[i]);
        if range.Failure? {
          return Failure(range.error);
        }
        heapStart, heapEnd := Some(range.value.0), range.value.1;
        break;
      }
      i := i + 1;
    }
    assert heapStart.None? ==> FirstTagged(maps, 0) == None;
    if heapStart.None? || heapStart.value == 0 {
      return Failure(HeapNotFound);
    }
    return Success(Region(heapStart.value, heapEnd));
  }

  /**
   * The located region is determined by the first `[heap]` line alone: the
   * lines before it do not contain the tag, and whatever follows it is never
   * read.
   */
  lemma {:induction false} HeapLocateUsesFirstTaggedLine(maps: seq<string>, k: nat, after: seq<string>)
    requires k < |maps| && HasHeapTag(maps[k])
    requires forall j :: 0 <= j < k ==> !HasHeapTag(maps[j])
    ensures HeapLocate(maps) == HeapLocate(maps[..k + 1])
    ensures HeapLocate(maps) == HeapLocate(maps[..k + 1] + after)
  {
    var before, line := maps[..k], maps[k];
    assert forall j :: 0 <= j < k ==> !HasHeapTag(before[j]);
    assert maps == before + [line] + maps[k + 1..];
    assert maps[..k + 1] == before + [line] + [];
    FirstTaggedAfterUntagged(before, line, maps[k + 1..]);
    FirstTaggedAfterUntagged(before, line, []);
    FirstTaggedAfterUntagged(before, line, after);
    assert (before + [line] + after)[k] == line;
    assert (before + [line] + [])[k] == line;
  }

  /** A line that ends in a tagged remainder is itself tagged. */
  lemma HasHeapTagSuffix(prefix: string, rest: string)
    requires HasHeapTag(rest)
    ensures HasHeapTag(prefix + rest)
  {
    ContainsIff(rest, HeapTag);
    var i: nat :| IsMatchAt(rest, HeapTag, i);
    var line := prefix + rest;
    assert line[|prefix| + i..|prefix| + i + |HeapTag|] == rest[i..i + |HeapTag|];
    assert IsMatchAt(line, HeapTag, |prefix| + i);
    ContainsIff(line, HeapTag);
  }

  /** A tagged line preceded only by untagged lines is the first tagged line. */
  lemma FirstTaggedAfterUntagged(before: seq<string>, line: string, after: seq<string>)
    requires forall j :: 0 <= j < |before| ==> !HasHeapTag(before[j])
    requires HasHeapTag(line)
    ensures FirstTagged(before + [line] + after, 0) == Some(|before|)
  {
    var maps := before + [line] + after;
    assert forall j :: 0 <= j < |before| ==> maps[j] == before[j];
    assert maps[|before|] == line;
  }

  /**
   * A `[heap]` line that starts with two hexadecimal numerals joined by a
   * dash, leading zeros allowed, and preceded only by lines without the tag,
   * yields the numerals' values, unless the start is 0.
   */
  lemma HeapLocateOfMapLine(before: seq<string>, a: string, b: string, rest: string, after: seq<string>)
    requires forall j :: 0 <= j < |before| ==> !HasHeapTag(before[j])
    requires IsHexNumeral(a) && IsHexNumeral(b)
    requires rest != [] && IsSpace(rest[0]) && HasHeapTag(rest)
    ensures HeapLocate(before + [a + "-" + b + rest] + after) ==
      if GroupsValue(a) == 0 then Failure(HeapNotFound) else Success(Region(GroupsValue(a), GroupsValue(b)))
  {
    var line := a + "-" + b + rest;
    HasHeapTagSuffix(a + "-" + b, rest);
    FirstTaggedAfterUntagged(before, line, after);
    assert (before + [line] + after)[|before|] == line;
    ParseAddressRangeOfMapLine(a, b, rest);
  }

  /**
   * The `[heap]` line as the kernel writes it, `%08lx-%08lx` and then the
   * other columns, gives its addresses as the heap, or `HeapNotFound` when
   * the start is 0.
   */
  lemma HeapLocateOfKernelLine(before: seq<string>, start: nat, end: nat, rest: string, after: seq<string>)
    requires forall j :: 0 <= j < |before| ==> !HasHeapTag(before[j])
    requires rest != [] && IsSpace(rest[0]) && HasHeapTag(rest)
    ensures HeapLocate(before + [FormatAddress(start) + "-" + FormatAddress(end) + rest] + after) ==
      if start == 0 then Failure(HeapNotFound) else Success(Region(start, end))
  {
    HeapLocateOfMapLine(before, FormatAddress(start), FormatAddress(end), rest, after);
    ParseHexFormatAddress(start);
    ParseHexFormatAddress(end);
  }
}
