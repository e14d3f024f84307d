# read_write_heap — a verified model

`read_write_heap.py` is a small Linux tool. It finds a byte string in the heap of a running process and overwrites it in place. It takes a pid, a search string and a replacement, and runs these steps:

1. It refuses a replacement longer than the search string.
2. It scans `/proc/<pid>/maps` for the first line that contains `[heap]`. It parses that line's `start-end` field as two hexadecimal addresses. A start address of 0 counts as "no heap".
3. It checks that `/proc/<pid>/mem` may be read and written.
4. It reads the heap once, as a snapshot.
5. It finds every occurrence of the search string in that snapshot, overlapping ones included. At each one, live memory receives the replacement followed by zero bytes, `len(search)` bytes in all.

The model keeps the script's structure.

- `Wrappers` (`wrappers.dfy`) holds `Option`, `Result` and the reasons a run stops early.
- `Matching` (`matching.dfy`) models `bytes.find` and `in`. `Occurrences` lists the offsets the patch loop visits, and lemmas prove that list complete, strictly increasing and tied to `find`.
- `MapsParsing` (`maps_parsing.dfy`) models `str.split()`, `str.split('-')` and `int(x, 16)`. It also defines `FormatAddress`, the zero-padded `%08lx` form in which the kernel writes map addresses. The `int(x, 16)` model accepts an optional `+`, an optional `0x`/`0X` prefix and `_` between digits. An unparsable field gives `MalformedHeapLine`, where Python would raise.
- `HeapLocator` (`heap_locator.dfy`) has two parts:
  - `HeapLocate` says what lines 29-40 compute.
  - `LocateHeap` is the scan loop itself, with its `break`, and is proved equal to `HeapLocate`.
- `HeapPatcher` (`heap_patcher.dfy`) models the snapshot read and the patch loop.
  - Process memory is an `array<bv8>` indexed by address.
  - `PatchMatches` is the `while True` loop. It writes into the array and is proved against `PatchAll`, the writes applied in order.
  - Lemmas describe what `PatchAll` leaves in memory.
- `ReadWriteHeap` (`read_write_heap.dfy`) covers the whole run.
  - `Run` is the script with I/O and printing removed, proved equal to `RunSpec`.
  - Lemmas on `RunSpec` state what a run promises.

Some points follow the code rather than the script's comments or the usual reading of it:

- Any line that contains `[heap]` anywhere counts as the heap line, not only a line whose last column is `[heap]`.
- A start address of 0 counts as "not found" (`if not heap_start`).
- An empty search string is not refused. `find(b'', pos)` succeeds for every `pos` up to the snapshot's length, so the run reports a match at each of those offsets and writes nothing. The model keeps this case. Only `SnapshotMatchInMemory` and `UnoverlappedMatchPatched` exclude it.
- `mem.read(n)` is modelled like a read of a flat file. It may return fewer bytes at the end of memory, and a negative size reads to the end. Every write is proved to stay inside what was read.

## Model

| member | source | states |
|---|---|---|
| Matching.Find | linux_security/0x04_buffer_overflow/read_write_heap.py:59 | `find(search, pos)`: the first offset at or after `pos` where the pattern occurs, and -1 exactly when there is none at or after `pos` |
| Matching.ContainsIff | linux_security/0x04_buffer_overflow/read_write_heap.py:31 | `sub in s` holds exactly when the pattern occurs at some offset of `s` |
| Matching.OccurrencesComplete | linux_security/0x04_buffer_overflow/read_write_heap.py:57-73 | an offset is visited by the loop from `pos` on exactly when it is at least `pos` and the search string occurs there, overlapping occurrences included |
| Matching.OccurrencesIncreasing | linux_security/0x04_buffer_overflow/read_write_heap.py:59-73 | the visited offsets are strictly increasing, so each is visited once, in order |
| Matching.FindIsFirstOccurrence | linux_security/0x04_buffer_overflow/read_write_heap.py:59-73 | `find` returns -1 exactly when nothing is left to visit; otherwise it returns the next visited offset, and the rest are those visited from `idx + 1` |
| Matching.OccurrencesNonEmptyIff | linux_security/0x04_buffer_overflow/read_write_heap.py:72-75 | the loop visits some offset exactly when the search string occurs somewhere in the snapshot |
| Matching.OverlappingExample | linux_security/0x04_buffer_overflow/read_write_heap.py:73 | with `pos = idx + 1`, `aa` is found in `aaa` at both 0 and 1 |
| MapsParsing.FirstField | linux_security/0x04_buffer_overflow/read_write_heap.py:32 | `line.split()[0]` contains no whitespace, and it is empty exactly when the line is all whitespace (where Python raises) |
| MapsParsing.FirstFieldOfLeadingToken | linux_security/0x04_buffer_overflow/read_write_heap.py:32 | a non-blank token followed by whitespace is the first field of the line |
| MapsParsing.Split | linux_security/0x04_buffer_overflow/read_write_heap.py:33-34 | `s.split('-')` has at least one part, no part holds a dash, joining the parts with dashes gives back `s`, and there are two or more parts exactly when `s` holds a dash |
| MapsParsing.SplitJoin | linux_security/0x04_buffer_overflow/read_write_heap.py:33-34 | splitting dash-free parts joined with dashes gives back those parts |
| MapsParsing.ParseHex | linux_security/0x04_buffer_overflow/read_write_heap.py:33-34 | `int(x, 16)` of a non-empty string of hexadecimal digits, leading zeros included, is the digits' value; an empty string is refused |
| MapsParsing.GroupsValueToHex | linux_security/0x04_buffer_overflow/read_write_heap.py:33-34 | the digits of a hexadecimal numeral evaluate back to the number written |
| MapsParsing.ParseHexToHex | linux_security/0x04_buffer_overflow/read_write_heap.py:33-34 | `int(x, 16)` of the lower-case hexadecimal numeral of `n` is `n` |
| MapsParsing.GroupsValueLeadingZeros | linux_security/0x04_buffer_overflow/read_write_heap.py:33-34 | leading zeros do not change the value of a numeral |
| MapsParsing.ParseHexFormatAddress | linux_security/0x04_buffer_overflow/read_write_heap.py:33-34 | `int(x, 16)` reads back every address as the kernel writes it, zero-padded to eight digits |
| MapsParsing.ParseHexWithPrefix | linux_security/0x04_buffer_overflow/read_write_heap.py:33-34 | `int(x, 16)` also accepts the `0x` prefix |
| MapsParsing.ParseHexWithSign | linux_security/0x04_buffer_overflow/read_write_heap.py:33-34 | `int(x, 16)` also accepts a leading `+` |
| MapsParsing.RangeFieldHasNoSpace | linux_security/0x04_buffer_overflow/read_write_heap.py:32 | two hexadecimal numerals joined by a dash hold no whitespace, so they form one field |
| MapsParsing.SplitFirstParts | linux_security/0x04_buffer_overflow/read_write_heap.py:33-34 | part 0 of `s.split('-')` is the text before the first dash, and part 1 is the text between it and the next dash (or the end) |
| MapsParsing.SplitRangeField | linux_security/0x04_buffer_overflow/read_write_heap.py:33-34 | the field `a-b` of two hexadecimal numerals splits on its dash into exactly the two numerals |
| MapsParsing.ParseAddressRange | linux_security/0x04_buffer_overflow/read_write_heap.py:32-34 | a parsed range has its start read as hexadecimal from the text before the first dash of `line.split()[0]`, and its end from the text between that dash and the next one (or the end of the field); every failure is `MalformedHeapLine` |
| MapsParsing.ParseAddressRangeOfMapLine | linux_security/0x04_buffer_overflow/read_write_heap.py:32-34 | a line that starts with two hexadecimal numerals joined by a dash and then whitespace, leading zeros allowed, yields the two numerals' values |
| MapsParsing.ParseAddressRangeOfKernelLine | linux_security/0x04_buffer_overflow/read_write_heap.py:32-34 | a line as the kernel writes it, `%08lx-%08lx` and then the other columns, yields exactly the addresses written, low zero-padded ones included |
| HeapLocator.HasHeapTag | linux_security/0x04_buffer_overflow/read_write_heap.py:31 | `'[heap]' in line` holds exactly when the tag occurs at some offset of the line |
| HeapLocator.FirstTagged | linux_security/0x04_buffer_overflow/read_write_heap.py:30-36 | the first line, in file order, that contains `[heap]`, or none exactly when no line does |
| HeapLocator.HeapLocate | linux_security/0x04_buffer_overflow/read_write_heap.py:29-40 | a located heap is the address range parsed from the first line containing `[heap]`, and its start is above 0; without such a line the result is `HeapNotFound` |
| HeapLocator.LocateHeap | linux_security/0x04_buffer_overflow/read_write_heap.py:29-40 | the scan loop with its `break`, followed by the `if not heap_start` test, computes `HeapLocate` |
| HeapLocator.HeapLocateUsesFirstTaggedLine | linux_security/0x04_buffer_overflow/read_write_heap.py:30-36 | only the lines up to the first `[heap]` line matter; whatever follows it is never read |
| HeapLocator.FirstTaggedAfterUntagged | linux_security/0x04_buffer_overflow/read_write_heap.py:30-36 | a `[heap]` line preceded only by lines without the tag is the line the scan stops at |
| HeapLocator.HasHeapTagSuffix | linux_security/0x04_buffer_overflow/read_write_heap.py:31 | a line whose tail contains `[heap]` contains it |
| HeapLocator.HeapLocateOfMapLine | linux_security/0x04_buffer_overflow/read_write_heap.py:29-40 | when the first `[heap]` line starts with two hexadecimal numerals joined by a dash, leading zeros allowed, the heap is their values, or `HeapNotFound` when the start is 0 |
| HeapLocator.HeapLocateOfKernelLine | linux_security/0x04_buffer_overflow/read_write_heap.py:29-40 | when the first `[heap]` line is as the kernel writes it (`%08lx-%08lx ...`), the heap is the addresses written, or `HeapNotFound` when the start is 0 |
| HeapPatcher.ReadAt | linux_security/0x04_buffer_overflow/read_write_heap.py:51-54 | the snapshot holds the bytes of memory from `heap_start` on; it is the whole range `[start, end)` when that range lies in memory, and it reads to the end when the size is negative |
| HeapPatcher.Padded | linux_security/0x04_buffer_overflow/read_write_heap.py:67 | the data written is exactly `len(search)` bytes: the replacement followed by zero bytes |
| HeapPatcher.PatchAllOutside | linux_security/0x04_buffer_overflow/read_write_heap.py:63-69 | a byte that no write covers keeps its value |
| HeapPatcher.PatchAllLastWriter | linux_security/0x04_buffer_overflow/read_write_heap.py:63-73 | a byte that some write covers holds what the last write covering it put there |
| HeapPatcher.PatchAllUnoverlapped | linux_security/0x04_buffer_overflow/read_write_heap.py:63-69 | a write that no later write overlaps survives intact |
| HeapPatcher.PaddedAtLastCover | linux_security/0x04_buffer_overflow/read_write_heap.py:66-69 | a match span that no later match overlaps holds the replacement followed by zeros |
| HeapPatcher.PatchRestore | linux_security/0x04_buffer_overflow/read_write_heap.py:63-69 | writing the search string back at every patched offset restores the memory, because each one held the search string |
| HeapPatcher.SnapshotMatchInMemory | linux_security/0x04_buffer_overflow/read_write_heap.py:54-63 | a match in the snapshot at offset `o` is a match in memory at `heap_start + o`, and it lies inside the requested range |
| HeapPatcher.OverlapExample | linux_security/0x04_buffer_overflow/read_write_heap.py:54-73 | because matching reads the snapshot, replacing `aa` by `b` in `aaa` patches offsets 0 and 1 and leaves `bb\0`; a search of live memory after the first write would miss offset 1 |
| HeapPatcher.WriteBytes | linux_security/0x04_buffer_overflow/read_write_heap.py:68-69 | `seek` then `write` replaces exactly the bytes at `address` and nothing else |
| HeapPatcher.PatchHeap | linux_security/0x04_buffer_overflow/read_write_heap.py:48-73 | the returned addresses are `heap_start` plus the offsets visited in the snapshot, memory is the padded replacement written at each of them in order, and `found` holds exactly when the snapshot contains the search string |
| HeapPatcher.FoundStep | linux_security/0x04_buffer_overflow/read_write_heap.py:59-73 | a hit returned by `find` is the next offset still to visit, its span of `len(search)` bytes lies inside the snapshot, and recording it keeps the reported addresses in step with the visited offsets |
| HeapPatcher.PatchMatches | linux_security/0x04_buffer_overflow/read_write_heap.py:57-73 | the `while True` loop finds offsets in the snapshot, not in live memory, and writes at each in increasing order |
| ReadWriteHeap.RunSpec | linux_security/0x04_buffer_overflow/read_write_heap.py:19-46 | a run stops early, leaving memory as it was, exactly when the replacement is too long, the heap is not located, or memory cannot be opened; the length check comes before anything else |
| ReadWriteHeap.Run | linux_security/0x04_buffer_overflow/read_write_heap.py:19-78 | the whole script computes `RunSpec` of the located heap, for memory and outcome both |
| ReadWriteHeap.FoundIffOccurs | linux_security/0x04_buffer_overflow/read_write_heap.py:48-78 | `found` is true exactly when the snapshot contains the search string; finding nothing is an ordinary end of the run |
| ReadWriteHeap.ReportsEveryMatch | linux_security/0x04_buffer_overflow/read_write_heap.py:57-73 | the addresses patched are strictly increasing and are exactly `heap_start` plus each offset where the search string occurs in the snapshot |
| ReadWriteHeap.WritesStayInMatchSpans | linux_security/0x04_buffer_overflow/read_write_heap.py:54-69 | every match span lies inside the snapshot, and a byte outside every match span is unchanged |
| ReadWriteHeap.OutsideHeapUnchanged | linux_security/0x04_buffer_overflow/read_write_heap.py:51-69 | no byte outside the heap snapshot is written |
| ReadWriteHeap.UnoverlappedMatchPatched | linux_security/0x04_buffer_overflow/read_write_heap.py:63-69 | a match that no later match overlaps, the last one in particular, ends up holding the replacement followed by `len(search) - len(replace)` zero bytes |
| ReadWriteHeap.PatchAllAtAddresses | linux_security/0x04_buffer_overflow/read_write_heap.py:63 | writing at the addresses `heap_start + idx` is writing at the offsets `idx` from `heap_start` |
| ReadWriteHeap.RestoreReportedMatches | linux_security/0x04_buffer_overflow/read_write_heap.py:63-69 | writing the search string back at every patched address restores memory as it was before the run |

## Left out

- Files under `/proc`, `os.access`, `seek` and the real `read`/`write` calls (lines 25, 29, 43-51). The maps file is its list of lines, process memory is a byte array indexed by address, and the `os.access` result is a boolean parameter.
- A read or write at an address the target has not mapped. The kernel fails such an access with an I/O error; the model treats memory as one flat file.
- The target process runs at the same time as the tool and may change its memory between the snapshot and the writes. Concurrency is not modelled.
- Command-line handling (lines 7-17): argument count, `int(sys.argv[1])`, and the `UnicodeEncodeError` of `.encode('ascii')`. `search` and `replace` are byte sequences given as parameters.
- All `print` output and the exit statuses. The `Aborted`/`Finished` outcome stands for exit status 1 or 0.
- The exceptions Python raises while parsing the `[heap]` line (`IndexError`, `ValueError`) become the single error `MalformedHeapLine`.
- `int(x, 16)` details that cannot arise on a part split on `-` from a whitespace-free field: a `-` sign and surrounding whitespace.
- Non-ASCII decimal digits (such as Arabic-Indic digits), which `int(x, 16)` accepts, are refused with `MalformedHeapLine`; the kernel never writes them.
- UnoverlappedMatchPatched: requires a non-empty search string. An empty one writes nothing, and its match may lie past the end of memory.
