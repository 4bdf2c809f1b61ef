# v2k changed-area patching, modelled in Dafny

This project models two scripts of the v2k disk-migration tool.

`lib/v2k/patch_apply.py` copies the changed areas of a source disk image into
a target image. It takes a list of `{offset, length}` areas and coalesces them:
it sorts them by offset and merges every area that starts no more than `gap`
bytes after the end of the current region. It then copies each merged region
in chunks of at most `chunk` bytes. Before every read and every write it seeks
explicitly, and a short read aborts the copy.

`lib/v2k/vmware_changed_areas.py` produces those areas from a vSphere virtual
machine. It works in these steps:

- It parses a `scsi<bus>:<unit>` disk identifier.
- It maps every SCSI controller's key to its bus number.
- It picks the first virtual disk on that bus with that unit number.
- It finds a snapshot by name with a depth-first search that pops from a stack.
- It turns the changed extents the hypervisor reports into `{offset, length}` records.

Modules:

- `Areas` (`areas.dfy`): the `Area(offset, length)` record and the predicates
  on lists of areas: sorted by offset, separated by more than `gap`, and
  covering a byte.
- `Coalescing` (`coalescing.dfy`): the specification of `coalesce` is
  `Coalesced`, a stable sort by offset (`SortByOffset`) followed by a
  recursive sweep (`Sweep`). The lemmas say what the merged regions are. The
  method `Coalesce` is the source's loop, proved equal to `Coalesced`.
- `ImageFiles` (`image_files.dfy`): an image file opened without buffering,
  a class `ImageFile` with its contents and its file position. `Seek`,
  `Read` and `Write` follow regular-file semantics:
  - a read returns fewer bytes than asked only at the end of the file;
  - a write past the end extends the file, and the hole reads as zero bytes.
- `PatchApply` (`patch_apply.dfy`):
  - `CopyRegion` is `copy_region` and `ApplyRegions` is the region loop of
    `main`. Both are specified by the value functions `CopyRange` and `CopyAll`.
  - `ApplyChangedAreas` is `main` after its argument handling: coalesce, then apply.
- `VmwareChangedAreas` (`vmware_changed_areas.dfy`): the lookups of
  `vmware_changed_areas.py` over plain values. The device list and the
  snapshot tree are values. The reply of the changed-area query is a parameter.

A zero-length area is counted in the merge like any other. If one lies beyond
the end of the source, coalescing can stretch a merged region past that end,
and the copy then stops with a short read. `ApplyChangedAreas` states this
precisely: the copy succeeds exactly when every merged region fits the source.
It also succeeds whenever every input area, empty ones included, ends within
the source.

## Model

| member | source | states |
|---|---|---|
| Coalescing.Coalesce | lib/v2k/patch_apply.py:28-44 | the loop returns exactly the reference coalescing `Coalesced(areas, gap)`: sort by offset, then sweep |
| Coalescing.SortByOffsetCorrect | lib/v2k/patch_apply.py:31 | the sort's result is ordered by offset and is a permutation (same multiset) of the input |
| Coalescing.SortByOffsetOfSorted | lib/v2k/patch_apply.py:31 | sorting a list already ordered by offset leaves it unchanged |
| Coalescing.SweepShape | lib/v2k/patch_apply.py:36-43 | on sorted input the sweep emits at least one region and at most one per visited area plus one; the first starts at the accumulator's start and reaches at least its end; the regions are separated by more than `gap` |
| Coalescing.SweepCovers | lib/v2k/patch_apply.py:36-43 | every visited area lies inside some emitted region |
| Coalescing.SweepCoversSorted | lib/v2k/patch_apply.py:33-43 | every area of a sorted, non-empty list, the first included, lies inside a region of its sweep |
| Coalescing.SweepEndpoints | lib/v2k/patch_apply.py:36-43 | every emitted start is the accumulator's start or a visited area's offset; every emitted end is the accumulator's end or a visited area's end |
| Coalescing.SweepOfSeparated | lib/v2k/patch_apply.py:36-43 | a list whose areas are already separated by more than `gap` passes the sweep unchanged |
| Coalescing.CoalescedShape | lib/v2k/patch_apply.py:29-44 | the result is empty exactly when the input is, has at most as many regions as input areas, and its regions are separated by more than `gap` (so strictly increasing and disjoint) |
| Coalescing.CoalescedCovers | lib/v2k/patch_apply.py:31-43 | every input area lies inside one of the merged regions |
| Coalescing.CoalescedEndpoints | lib/v2k/patch_apply.py:33-43 | every merged region starts at some input offset and ends at some input end (nothing is invented) |
| Coalescing.CoalescedIdempotent | lib/v2k/patch_apply.py:28-44 | coalescing an already coalesced list changes nothing |
| ImageFiles.WriteAt | lib/v2k/patch_apply.py:57 | a write of a non-empty buffer leaves the file as long as the larger of its old length and the buffer's end; an empty write keeps the length |
| ImageFiles.WriteAtContents | lib/v2k/patch_apply.py:57 | after a write the written bytes are at their offsets, every other old byte is kept, the hole past the old end reads as zero, and an empty write changes nothing |
| ImageFiles.WriteAtConsecutive | lib/v2k/patch_apply.py:56-57 | two writes, the second at the position where the first ended, have the effect of one write of both buffers |
| ImageFiles.ImageFile.constructor | lib/v2k/patch_apply.py:80 | an opened file has the given contents and position 0 |
| ImageFiles.ImageFile.Seek | lib/v2k/patch_apply.py:52 | seeking sets the position and changes nothing else |
| ImageFiles.ImageFile.Read | lib/v2k/patch_apply.py:53 | a read returns the bytes from the position up to `n` of them or the end of the file (none at or past the end) and advances the position by what it returned |
| ImageFiles.ImageFile.Write | lib/v2k/patch_apply.py:57 | a write puts the whole buffer at the position (extending the file when needed) and advances the position by its length |
| PatchApply.CopyRange | lib/v2k/patch_apply.py:47-59 | copying a non-empty range leaves the target as long as the larger of its old length and the range's end |
| PatchApply.CopyRangeContents | lib/v2k/patch_apply.py:47-59 | after copying a range the target holds the source's bytes on the range and its own bytes everywhere else |
| PatchApply.WriteAtIsCopyRange | lib/v2k/patch_apply.py:56-57 | writing the slice of the source read at `pos` back at `pos` is copying that range |
| PatchApply.CopyRangeStep | lib/v2k/patch_apply.py:51-59 | a copy that has reached `at`, followed by the copy of the next `n` bytes, is the copy up to `at + n` |
| PatchApply.CopyRangeIdempotent | lib/v2k/patch_apply.py:47-59 | copying the same range twice has the effect of copying it once |
| PatchApply.CopyChunk | lib/v2k/patch_apply.py:51-57 | one pass: the read returns the bytes the source has; only a full read is written, at the same offset, and a short read leaves the target untouched |
| PatchApply.CopyRegion | lib/v2k/patch_apply.py:47-59 | success exactly when the source holds the whole region (or it is empty), and then the target is the old target with the range copied; otherwise the error is the first chunk the source cannot fill (its position, the size asked for, the size returned) and the target holds every full chunk before it; an empty region does no I/O |
| PatchApply.ShortReadAtChunk | lib/v2k/patch_apply.py:53-55 | a chunk read that comes back short is the short read described by `IsShortRead`, and the region does not fit the source |
| PatchApply.CopyAllCopies | lib/v2k/patch_apply.py:81-82 | after copying every region, the target equals the source on every byte some region covers and keeps its old bytes elsewhere |
| PatchApply.ApplyRegions | lib/v2k/patch_apply.py:80-82 | the region loop succeeds exactly when every region fits the source, and then the target is the old target with all regions copied in order; otherwise some region k is the first that does not fit, regions before k are copied, and region k is copied up to its short read |
| PatchApply.ApplyChangedAreas | lib/v2k/patch_apply.py:71-82 | coalesce-then-copy succeeds exactly when every merged region fits the source, and always when every input area ends within it; on success the target is the old target with every merged region copied in order (so every byte of every input area, and of the gaps merged between them, equals the source) and bytes outside the merged regions keep their old values; on failure some merged region k is the first that does not fit, the regions before it are copied, and region k is copied up to its short read |
| PatchApply.CoalescedCopyCopies | lib/v2k/patch_apply.py:73-82 | once every merged region is copied, the target equals the source on every byte of every input area (each such byte lies within the source) and keeps its old bytes outside the merged regions |
| PatchApply.MergedRegionsFit | lib/v2k/patch_apply.py:73 | when the source holds every input area, it holds every merged region |
| PatchApply.MergedRegionsCover | lib/v2k/patch_apply.py:73 | every byte of an input area lies in a merged region |
| VmwareChangedAreas.ColonIndex | lib/v2k/vmware_changed_areas.py:85 | the index of the first ':' of a string, or its length when it has none |
| VmwareChangedAreas.MatchSubject | lib/v2k/vmware_changed_areas.py:85 | the text `$` requires to be matched whole is the identifier itself, or the identifier without its final newline when it ends with one |
| VmwareChangedAreas.ParseDiskId | lib/v2k/vmware_changed_areas.py:85-89 | an identifier is accepted exactly when its match subject is `scsi`, digits, `:`, digits and nothing else, and then bus and unit are the decimal values of the two digit strings |
| VmwareChangedAreas.ParseDiskIdOfNumerals | lib/v2k/vmware_changed_areas.py:85-89 | every `scsi<digits>:<digits>` is accepted with the values of its digits (leading zeros allowed) |
| VmwareChangedAreas.ParseDiskIdFirstDisk | lib/v2k/vmware_changed_areas.py:85-89 | `scsi0:0` names bus 0, unit 0 |
| VmwareChangedAreas.ParseDiskIdTwoDigitBus | lib/v2k/vmware_changed_areas.py:85-89 | `scsi12:3` names bus 12, unit 3 |
| VmwareChangedAreas.ParseDiskIdRejectsExamples | lib/v2k/vmware_changed_areas.py:85-87 | `scsi:0`, `sata0:0` and the empty string are rejected |
| VmwareChangedAreas.ParseDiskIdFinalNewline | lib/v2k/vmware_changed_areas.py:85-89 | `scsi0:0` followed by one newline is accepted as bus 0, unit 0 |
| VmwareChangedAreas.ParseDiskIdTwoNewlines | lib/v2k/vmware_changed_areas.py:85-87 | `scsi0:0` followed by two newlines is rejected |
| VmwareChangedAreas.ControllerBusesKeys | lib/v2k/vmware_changed_areas.py:92-95 | the controller map has a key exactly for each SCSI controller's key |
| VmwareChangedAreas.ControllerBusesLast | lib/v2k/vmware_changed_areas.py:92-95 | a key is mapped to the bus of the last controller in device order with that key (bus 0 when it has none) |
| VmwareChangedAreas.FirstDiskAt | lib/v2k/vmware_changed_areas.py:97-101 | the result is the first index from `from` on whose device is a virtual disk on a mapped controller with the requested bus and unit, or none when no device from `from` on is one |
| VmwareChangedAreas.DiskKeyForScsi | lib/v2k/vmware_changed_areas.py:82-102 | the two device loops return exactly `ResolveDisk`: an unsupported identifier fails with `UnsupportedDiskId`, else the first matching disk's key and device, else `DiskNotFound` |
| VmwareChangedAreas.ResolveDiskCorrect | lib/v2k/vmware_changed_areas.py:97-102 | for a parsed identifier, success returns the key and device of a disk at the requested bus and unit with no such disk before it, and failure means no device is such a disk |
| VmwareChangedAreas.ForestSizeAppend | lib/v2k/vmware_changed_areas.py:78 | pushing children onto the stack adds their node count to the stack's |
| VmwareChangedAreas.SearchForestAppend | lib/v2k/vmware_changed_areas.py:73-78 | searching a stack with `b` pushed on top of `a` searches `b` first and falls back to `a` |
| VmwareChangedAreas.SearchForestCorrect | lib/v2k/vmware_changed_areas.py:71-79 | the stack search finds a snapshot exactly when some node of the forest has the requested name, and what it finds is the snapshot of such a node |
| VmwareChangedAreas.SearchTreeCorrect | lib/v2k/vmware_changed_areas.py:71-79 | the same for one tree: its root is checked before its children |
| VmwareChangedAreas.FindSnapshot | lib/v2k/vmware_changed_areas.py:71-79 | the stack loop returns what the declarative search finds, or fails with `SnapshotNotFound` exactly when it finds nothing; a machine without snapshot information has no roots |
| VmwareChangedAreas.QueryChangedAreas | lib/v2k/vmware_changed_areas.py:116-124 | a failed query becomes `QueryFailed` with its message; otherwise there is one record per extent, in the same order, with offset = start and length = length |

## Left out

- `_connect`, `_find_vm` and the vmware script's `main`: credentials, connection and the JSON printed on standard output are outside the model.
- The remote `QueryChangedDiskAreas` call: its reply (the extents, or the message of the exception it raised) is the parameter of `QueryChangedAreas`. Its fixed arguments (`startOffset=0`, `changeId="*"`) belong to that call. No persisted change identifier is used anywhere in the code.
- The argument parsing, `json.loads` of the areas, the `int()` conversions and the `os.path.exists` checks of patch_apply's `main`: `ApplyChangedAreas` receives the areas and two open files.
- The text of error messages: `RuntimeError` and `SystemExit` become values of `CopyError` and `LookupError` that carry the same data.
- Partial reads and writes of an unbuffered file before its end, and I/O errors: files are regular files whose reads return all available bytes up to `n` and whose writes write everything.
- Concurrent changes to the image files while the copy runs.
- PatchApply.CopyRegion: requires distinct source and target objects; the same file opened twice, so that writes are visible to later reads, is not modelled.
- PatchApply.CopyRegion: requires `chunk > 0`; with `--chunk 0` the source's loop never ends, and with a negative chunk the first read of a non-empty region always counts as short (its length never equals the negative size asked for), so the script stops with a short-read error that reports a negative expected size. Neither case is modelled.
- Negative offsets, lengths and gaps: areas and the gap are natural numbers, while the script would accept negative offsets and lengths from its JSON input and a negative `--coalesce-gap` from its command line.
- VmwareChangedAreas.ParseDiskId: `\d` also matches non-ASCII decimal digits, and `int()` converts them; the model accepts only `0`-`9`. Digit groups of any length are accepted, while the interpreter's `int()` refuses decimal strings longer than its configured digit limit (4300 by default in recent Python releases) with an uncaught `ValueError`, so that identifier never reaches the lookup; the limit depends on the interpreter version and its settings, so it is not modelled.
- VmwareChangedAreas.ParseDiskIdOfNumerals: states acceptance for numerals of any length, so it includes digit groups past the interpreter's `int()` digit limit, which the script refuses with a `ValueError` (see the line above).
- VmwareChangedAreas.DiskKeyForScsi: the devices are a datatype. A controller's missing `busNumber` is `None` and counts as bus 0. The `int()` conversions of keys and unit numbers, and their failures on unexpected attribute values, are not modelled.
- The tie order of Python's stable sort is reproduced by a stable insertion sort; the merged regions do not depend on it.
