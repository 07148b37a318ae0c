/** Constants and value types of a heap-file page (HFPage). The header that
    defines them is not part of this model; the values below are one
    consistent choice, and the proofs depend only on their relations
    (EMPTY_SLOT and INVALID_SLOT are distinct and negative, the data area
    holds more than two slot entries). */
module PageLayout {
  /** Bytes in one page frame. */
  const MAX_SPACE: int := 1024
  /** sizeof(slot_t): one slot-directory entry, an offset and a length. */
  const SLOT_SIZE: int := 4
  /** Bytes of the fixed page header. */
  const DPFIXED: int := 24
  /** Length of the data[] byte area, MAX_SPACE - DPFIXED. */
  const DATA_SIZE: int := MAX_SPACE - DPFIXED
  /** Entries of the modelled slot directory: every slot the space
      accounting can admit, plus the terminator written after the last. */
  const SLOT_CAP: int := DATA_SIZE / SLOT_SIZE + 1

  /** Length of a slot whose record was deleted (a tombstone). */
  const EMPTY_SLOT: int := -1
  /** Length of the slot just past the directory (a terminator). */
  const INVALID_SLOT: int := -2
  /** Page number meaning "no page". */
  const INVALID_PAGE: int := -1

  newtype byte = x: int | 0 <= x < 256

  /** Status codes returned by every page operation. */
  datatype Status = OK | DONE | FAIL

  /** One slot-directory entry: where a record's bytes sit in data[]. */
  datatype Slot = Slot(offset: int, length: int)

  /** Record identifier: page number and slot number. */
  datatype Rid = Rid(pageNo: int, slotNo: int)

  /** A slot holding neither sentinel length. */
  predicate Live(s: Slot)
  {
    s.length != EMPTY_SLOT && s.length != INVALID_SLOT
  }
}
