# HFPage: a verified model of the heap-file slotted page

This project models `HFPage`, the slotted page of a heap-file storage
layer (`src/hfpage.C`). A page has three parts:

- six header fields: `curPage`, `prevPage`, `nextPage`, `slotCnt`,
  `usedPtr` and `freeSpace`;
- a slot directory `slot[]` of `(offset, length)` entries;
- a byte area `data[]` that fills from its high end downward.

Two slot lengths are sentinels. `EMPTY_SLOT` marks a deleted record (a
tombstone). `INVALID_SLOT` marks the entry just past the directory (a
terminator).

The model has three layers:

- `layout.dfy` (module `PageLayout`) holds the constants, the status
  codes `OK`/`DONE`/`FAIL`, slots and record ids.
- `page_model.dfy` (module `PageModel`) describes the whole page as a
  value (`Page`). Each state-changing operation is a function from the
  page before to the page after (`AfterInit`, `AfterInsert`,
  `AfterDelete`), and `Lookup` is what `getRecord` reads. The compaction
  loop of `deleteRecord` is `MoveChunks`, built from `Memmove`.
- `hfpage.dfy` (module `HeapFilePage`) holds the class `HFPage`. It has
  the six header fields, a `slot` array and a `data` array. `Init`,
  `InsertRecord` and `DeleteRecord` update them in place. Each is proved
  to take the page value `Abs()` exactly to what the matching `PageModel`
  function gives. `FirstRecord`, `NextRecord`, `GetRecord` and
  `ReturnRecord` only read the page, and their contracts state their
  results directly.
- `page_properties.dfy` (module `PageProperties`) proves the lemmas about
  those functions.

The model follows the code as written, and the code differs from the
page's documented design in these ways:

- `insertRecord` sets up the slot and the header but never copies the
  record's bytes into `data[]` (`LookupAfterInsert`).
- `deleteRecord` reclaims no space. `usedPtr` and `freeSpace` are left
  alone, and the slot stays behind as a tombstone.
- The "last slot" branch of `deleteRecord` fires only for a slot at or
  past `slotCnt`, never for the last allocated slot (`DeleteTail`). It
  lowers `slotCnt` without adjusting `freeSpace`, which breaks the space
  accounting (`DeleteTailBreaksSpaceInvariant`).
- The compaction loop moves one chunk of the deleted record's length per
  later slot. It does not move each later record by its own length. A
  later record keeps its bytes when they lie inside the moved window
  (`DeleteKeepsMovedRecord`). A later record longer than the deleted one
  can be corrupted (`DeleteCorruptsLongerLaterRecord`).
- Insertion writes a terminator after the last slot, and `nextRecord`
  relies on it. `nextRecord` looks ahead at most two slots and never
  compares against `slotCnt`. After two tombstones in a row it returns
  the second tombstone.
- The status codes are swapped between operations. `deleteRecord`
  returns `DONE` on a tombstone and `FAIL` on a terminator. `getRecord`
  returns `FAIL` on a tombstone and `DONE` on a terminator.
  `returnRecord` accepts a tombstone and returns its length `EMPTY_SLOT`.

The space accounting that `init` sets up and insertion keeps is
`freeSpace == usedPtr - max(1, slotCnt) * sizeof(slot_t)` with
`freeSpace >= 0` (`SpaceInvariant`). Under it, insertion never indexes
outside `slot[]`. Indexing in the source is unchecked, so each operation
states its memory safety as a `requires`: `InsertSafe`, `DeleteSafe` and
`GetSafe`, and the index bounds on `FirstRecord`, `NextRecord` and
`ReturnRecord`.

The C++ reference parameters (`rid`, `recLen`, the record pointer) are in
and out at once. Each becomes an input holding the caller's value before
the call and an output holding it afterwards. This makes "left untouched
on failure" something a contract can state.

## Model

| member | source | states |
|---|---|---|
| `HeapFilePage.HFPage.Init` | src/hfpage.C:14-23 | the page becomes `AfterInit` of the old page: header reset, slot 0 a tombstone, data untouched; afterwards `Empty()` holds and `AvailableSpace()` is the data area less two slot entries |
| `PageProperties.InitResetsPage` | src/hfpage.C:14-23 | after init the space accounting holds, `slotCnt == 0`, both links are `INVALID_PAGE`, `usedPtr == MAX_SPACE - DPFIXED`, `freeSpace == usedPtr - sizeof(slot_t)`, and slots past 0 and all data are unchanged |
| `HeapFilePage.HFPage.GetPrevPage` | src/hfpage.C:43-47 | reads `prevPage`; `SetPrevPage` is proved to make it return the stored number |
| `HeapFilePage.HFPage.GetNextPage` | src/hfpage.C:65-70 | reads `nextPage`; `SetNextPage` is proved to make it return the stored number |
| `HeapFilePage.HFPage.SetPrevPage` | src/hfpage.C:43-55 | afterwards `GetPrevPage()` returns the page number stored, and no other field changes |
| `HeapFilePage.HFPage.SetNextPage` | src/hfpage.C:58-70 | afterwards `GetNextPage()` returns the page number stored, and no other field changes |
| `HeapFilePage.HFPage.InsertRecord` | src/hfpage.C:76-107 | status, rid and new page are exactly `AfterInsert` of the old page; the record buffer is not read |
| `PageProperties.InsertRefusedChangesNothing` | src/hfpage.C:79-80 | when `recLen + sizeof(slot_t) > freeSpace` the result is `DONE`, with the page and the caller's rid unchanged |
| `PageProperties.InsertAccepted` | src/hfpage.C:83-106 | on admission: `OK` with rid `(curPage, old slotCnt)`, `slotCnt` one higher, new slot `(old usedPtr - recLen, recLen)`, a terminator after it, `usedPtr` lowered by `recLen`, `freeSpace` recomputed, earlier and later slots, all data and the other header fields unchanged |
| `PageProperties.InsertKeepsSpaceInvariant` | src/hfpage.C:79-98 | under the space accounting, insertion stays inside `slot[]`, keeps the accounting, and charges `recLen + sizeof(slot_t)` (only `recLen` for the first slot, whose entry init reserved) |
| `PageProperties.LookupAfterInsert` | src/hfpage.C:83-104 | reading back a freshly inserted slot gives `OK`, the inserted length, and the bytes already in `data[old usedPtr - recLen, old usedPtr)`, not the record |
| `HeapFilePage.HFPage.DeleteRecord` | src/hfpage.C:113-155 | status and new page are exactly `AfterDelete` of the old page; deleting a slot below `slotCnt` leaves the page non-empty, even when it held the page's only record |
| `HeapFilePage.HFPage.CompactAfter` | src/hfpage.C:137-152 | the loop raises the offset of each slot in `[sno+1, slotCnt)` by `len` and leaves `data` equal to `MoveChunks` of the old bytes |
| `HeapFilePage.HFPage.MoveBytes` | src/hfpage.C:148 | the data area afterwards is `Memmove` of the data area before: the `n` bytes at `src`, as they were before the call, also sit at `dst`, even when the ranges overlap; every other byte is unchanged |
| `PageModel.Memmove` | src/hfpage.C:148 | the reference definition of `memmove` on the data area: each byte of `[dst, dst+n)` is the old byte at the matching place in `[src, src+n)`, every other byte is the old one; `MoveBytes` is proved against it |
| `PageModel.MoveChunks` | src/hfpage.C:142-152 | the data area after the loop's remaining rounds, each a `Memmove` of `len` bytes up by `len`, starting at `dst` and going down; its length is kept, and `MoveChunksAt` and `MoveChunksIsOneMove` give its closed form |
| `PageModel.WindowStart` | src/hfpage.C:137-150 | the lowest byte the loop reads lies at or below its first destination, at least `len` below it once a move happens |
| `PageProperties.WindowStartIsProduct` | src/hfpage.C:148-150 | the loop's lowest source byte is `off - k*len` for `k` moves |
| `PageProperties.MoveChunksAt` | src/hfpage.C:142-152 | after `k >= 1` moves, the byte at each index in `[off-(k-1)*len, off+len)` is the old byte `len` lower, and every other byte is unchanged |
| `PageProperties.MoveChunksIsOneMove` | src/hfpage.C:142-152 | the `k` rounds of the loop together equal a single memmove of the window `[off - k*len, off)` up by `len` bytes |
| `PageProperties.MoveChunksMovesWindow` | src/hfpage.C:134-152 | with `k = slotCnt - sno - 1`, `data[j+len] == old data[j]` for `j` in `[off - k*len, off)`; bytes at `off + len` and above, and below `off-(k-1)*len`, are untouched |
| `PageProperties.DeleteSentinel` | src/hfpage.C:119-122 | a tombstone gives `DONE` and a terminator gives `FAIL`, both with the page unchanged |
| `PageProperties.DeleteTail` | src/hfpage.C:127-132 | a live slot at or past `slotCnt` becomes a terminator, `slotCnt` drops by one, and `usedPtr`, `freeSpace` and the data stay |
| `PageProperties.DeleteInside` | src/hfpage.C:134-154 | a live slot below `slotCnt` becomes a tombstone with its offset kept; slots in `(sno, slotCnt)` gain `len` in offset; other slots and every header field stay; the data is the loop's result |
| `PageProperties.DeleteInsideKeepsSpaceInvariant` | src/hfpage.C:134-154 | deleting below `slotCnt` keeps the space accounting, since no counter changes |
| `PageProperties.DeleteTailBreaksSpaceInvariant` | src/hfpage.C:127-132 | with two or more slots, the tail branch leaves `freeSpace` one slot entry below what the accounting requires |
| `PageProperties.DeleteTwice` | src/hfpage.C:119-136 | deleting the same live slot below `slotCnt` twice gives `OK`, then `DONE` with no change |
| `PageProperties.DeleteKeepsMovedRecord` | src/hfpage.C:134-152 | a later record whose bytes lie in the moved window reads back identically under its old slot number, provided every byte the loop writes lies above the slot directory |
| `PageProperties.DeleteCorruptsLongerLaterRecord` | src/hfpage.C:134-152 | with slot 0 = `(999, 1)` deleted and slot 1 = `(997, 2)` holding `[1, 2]`, slot 1 afterwards reads `[2, 2]`: a later record longer than the deleted one is not kept |
| `PageProperties.DeleteKeepsEarlierRecord` | src/hfpage.C:134-152 | an earlier record lying at or above `off + len` reads back identically |
| `PageProperties.FreshPageInsertDelete` | src/hfpage.C:14-155 | on a fresh page a 10-byte insert costs 10 bytes of free space; deleting it leaves `slotCnt == 1`, `usedPtr` and `freeSpace` as the insert left them; a second delete gives `DONE` |
| `HeapFilePage.HFPage.FirstRecord` | src/hfpage.C:159-173 | `OK` with the least slot below `slotCnt` that is not a tombstone, or `DONE` with the caller's rid unchanged when every slot below `slotCnt` is a tombstone; the page is not changed |
| `HeapFilePage.HFPage.NextRecord` | src/hfpage.C:178-198 | `DONE` exactly when slot `sno+1` is a terminator, or a tombstone followed by a terminator; otherwise `OK` with slot `sno+1`, or `sno+2` when `sno+1` is a tombstone; on the second `DONE` only the page number of the caller's rid is set |
| `HeapFilePage.HFPage.GetRecord` | src/hfpage.C:202-219 | equals `Lookup`: `FAIL` exactly on a tombstone, `DONE` exactly on a terminator, otherwise `OK` with `recLen` the slot length and the bytes `data[offset, offset+length)`; `recLen` untouched on failure |
| `HeapFilePage.HFPage.ReturnRecord` | src/hfpage.C:226-240 | `DONE` when `sno > slotCnt`, `FAIL` on a terminator, both leaving the outputs untouched; otherwise `OK` with the slot's offset and length, a tombstone included |
| `HeapFilePage.HFPage.AvailableSpace` | src/hfpage.C:244-247 | the result is the largest record length that insertion admits |
| `HeapFilePage.HFPage.Empty` | src/hfpage.C:252-259 | true exactly when `slotCnt == 0`, so a page holding only tombstones is not empty |

## Left out

- `dumpPage` (src/hfpage.C:27-40) only writes to the console.
- The buffer manager, the heap file and the disk layer are only
  `#include`d and are not part of this model.
- `hfpage.h` is not part of this model. The constants take values
  chosen here: `MAX_SPACE` 1024, `DPFIXED` 24, `sizeof(slot_t)` 4,
  `EMPTY_SLOT` -1, `INVALID_SLOT` -2 and `INVALID_PAGE` -1.
  `EMPTY_SLOT` and `INVALID_SLOT` are kept distinct because the code
  tests them separately.
- In memory, the slot directory shares the page bytes with the data
  area. Here `slot` and `data` are separate arrays, and `slot` has room
  for every slot the space accounting admits plus the terminator.
- `HeapFilePage.HFPage.DeleteRecord`: because the arrays are separate,
  the model does not capture the aliasing between the slot directory and
  the low end of `data[]`. The compaction loop writes down to
  `off - (k-1)*len` and nothing keeps that above the directory. In memory
  it then overwrites slot entries, while the model only raises their
  offsets. Likewise, the tail branch's write to `slot[sno]` for
  `sno > slotCnt` lands in record bytes in memory, but the model leaves
  `data` unchanged (`DeleteTail`). `DeleteKeepsMovedRecord` therefore
  requires the loop's writes to stay above the directory.
- The exact header byte layout and the integer widths of the fields are
  not modelled. Integers are unbounded. Under the space accounting every
  counter stays within `0..MAX_SPACE`.
- `HeapFilePage.HFPage.ReturnRecord`: the `char*` into `data[]` is
  returned as an offset, with no pointer or alias.
- `HeapFilePage.HFPage.GetRecord`: the caller's buffer is returned as the
  sequence of copied bytes. On failure the model returns the empty
  sequence, where the source leaves the buffer untouched.
- The C integer promotion in `recLen + sizeof(slot_t) > freeSpace`
  (src/hfpage.C:79) is not modelled. `InsertSafe` requires
  `recLen >= 0` instead.
- The unused locals `pno` have no effect and are dropped.
- The page starts from a frame of arbitrary contents (the `HFPage`
  constructor). `Init` is proved for any previous contents of the arrays.
