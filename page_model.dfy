/** The page as a value, and each state-changing page operation as a
    function from the page before to the page after. The class HFPage
    (hfpage.dfy) is proved to follow these functions step for step; the
    lemmas in page_properties.dfy state what they guarantee. */
module PageModel {
  import opened PageLayout

  /** Every field of a page: the six header fields, the slot directory
      and the data area. */
  datatype Page = Page(
    curPage: int, prevPage: int, nextPage: int,
    slotCnt: int, usedPtr: int, freeSpace: int,
    slots: seq<Slot>, data: seq<byte>)

  predicate WellSized(p: Page)
  {
    |p.slots| == SLOT_CAP && |p.data| == DATA_SIZE
  }

  /** Number of slot entries the free-space counter accounts for: init
      already reserves one, so an empty directory still costs one entry. */
  function Reserved(slotCnt: int): int
  {
    if slotCnt < 1 then 1 else slotCnt
  }

  /** The free-space accounting that init establishes and insertion keeps:
      freeSpace == usedPtr - max(1, slotCnt) * sizeof(slot_t), never negative. */
  predicate SpaceInvariant(p: Page)
  {
    WellSized(p) && 0 <= p.slotCnt && p.usedPtr <= DATA_SIZE &&
    p.freeSpace == p.usedPtr - Reserved(p.slotCnt) * SLOT_SIZE &&
    0 <= p.freeSpace
  }

  /** The admission test of insertRecord: a record of recLen bytes and its
      slot entry fit in the free space. */
  predicate Admits(freeSpace: int, recLen: int)
  {
    recLen + SLOT_SIZE <= freeSpace
  }

  // ---------------------------------------------------------------- init

  /** HFPage::init: binds the page number, unlinks the page, empties the
      directory and resets the space counters. data[] is not touched. */
  function AfterInit(p: Page, pageNo: int): Page
    requires |p.slots| > 0
  {
    p.(curPage := pageNo, prevPage := INVALID_PAGE, nextPage := INVALID_PAGE,
       slotCnt := 0,
       slots := p.slots[0 := p.slots[0].(length := EMPTY_SLOT)],
       usedPtr := MAX_SPACE - DPFIXED,
       freeSpace := MAX_SPACE - (DPFIXED + SLOT_SIZE))
  }

  // ---------------------------------------------------------- insertion

  /** What insertRecord needs of its caller: a non-negative length, and
      room in slot[] for the new entry and the terminator after it. */
  predicate InsertSafe(p: Page, recLen: int)
  {
    0 <= recLen &&
    (Admits(p.freeSpace, recLen) ==> 0 <= p.slotCnt && p.slotCnt + 1 < |p.slots|)
  }

  /** Status, the caller's rid afterwards, and the page afterwards. */
  datatype Inserted = Inserted(status: Status, rid: Rid, page: Page)

  /** HFPage::insertRecord: appends a slot for recLen bytes below usedPtr,
      writes the terminator after it and recomputes freeSpace. The record's
      bytes are not copied, so data[] is unchanged. rid0 is the caller's rid
      before the call; it is left as it was when the page is full. */
  function AfterInsert(p: Page, recLen: int, rid0: Rid): Inserted
    requires InsertSafe(p, recLen)
  {
    if !Admits(p.freeSpace, recLen) then Inserted(DONE, rid0, p)
    else
      var n := p.slotCnt + 1;
      var used := p.usedPtr - recLen;
      Inserted(OK, Rid(p.curPage, p.slotCnt),
        p.(slotCnt := n, usedPtr := used, freeSpace := used - n * SLOT_SIZE,
           slots := p.slots[p.slotCnt := Slot(used, recLen)]
                           [n := p.slots[n].(length := INVALID_SLOT)]))
  }

  // ----------------------------------------------------------- deletion

  /** memmove(data + dst, data + src, n): the n bytes at src, as they were
      before the call, now also sit at dst; the ranges may overlap. */
  function Memmove(d: seq<byte>, dst: int, src: int, n: int): seq<byte>
    requires 0 <= n && 0 <= dst && dst + n <= |d| && 0 <= src && src + n <= |d|
  {
    seq(|d|, i requires 0 <= i < |d| => if dst <= i < dst + n then d[src + (i - dst)] else d[i])
  }

  /** dst - k * len, reached by k downward steps of len: the lowest byte
      the compaction loop reads when it makes k moves starting at dst. */
  function WindowStart(dst: int, len: int, k: nat): (r: int)
    ensures 0 <= len ==> r <= dst
    ensures 0 <= len && k >= 1 ==> r + len <= dst
    decreases k
  {
    if k == 0 then dst else WindowStart(dst - len, len, k - 1)
  }

  /** The bounds the compaction loop needs when it makes k moves of len
      bytes, the first into [dst, dst + len), each next one len lower. */
  predicate ChunksFit(size: int, dst: int, len: int, k: nat)
  {
    k >= 1 ==> 0 <= len && 0 <= WindowStart(dst, len, k) && dst + len <= size
  }

  /** The data area after the k remaining rounds of the compaction loop of
      deleteRecord, the next one moving the len bytes below dst up to dst. */
  function MoveChunks(d: seq<byte>, dst: int, len: int, k: nat): (r: seq<byte>)
    requires ChunksFit(|d|, dst, len, k)
    ensures |r| == |d|
    decreases k
  {
    if k == 0 then d
    else MoveChunks(Memmove(d, dst, dst - len, len), dst - len, len, k - 1)
  }

  /** The slot directory with delta added to the offset of every slot in
      [lo, hi). */
  function ShiftOffsets(s: seq<Slot>, lo: int, hi: int, delta: int): seq<Slot>
  {
    seq(|s|, i requires 0 <= i < |s| =>
      if lo <= i < hi then s[i].(offset := s[i].offset + delta) else s[i])
  }

  /** What deleteRecord needs of its caller: sno indexes slot[], and when
      the compaction loop runs, its slot writes and byte moves stay inside
      slot[] and data[]. */
  predicate DeleteSafe(p: Page, sno: int)
  {
    0 <= sno < |p.slots| &&
    (Live(p.slots[sno]) && sno < p.slotCnt ==>
       p.slotCnt <= |p.slots| &&
       ChunksFit(|p.data|, p.slots[sno].offset, p.slots[sno].length, p.slotCnt - sno - 1))
  }

  datatype Deleted = Deleted(status: Status, page: Page)

  /** HFPage::deleteRecord on slot sno. A tombstone gives DONE and a
      terminator gives FAIL, both without change. A slot at or past slotCnt
      becomes a terminator and slotCnt drops by one. Otherwise the slot
      becomes a tombstone, every later slot below slotCnt has its offset
      raised by the deleted length, and the compaction loop moves one
      len-byte chunk per later slot; usedPtr and freeSpace stay as they are. */
  function AfterDelete(p: Page, sno: int): Deleted
    requires DeleteSafe(p, sno)
  {
    var s := p.slots[sno];
    if s.length == EMPTY_SLOT then Deleted(DONE, p)
    else if s.length == INVALID_SLOT then Deleted(FAIL, p)
    else if sno + 1 > p.slotCnt then
      Deleted(OK, p.(slots := p.slots[sno := s.(length := INVALID_SLOT)],
                     slotCnt := p.slotCnt - 1))
    else
      var marked := p.slots[sno := s.(length := EMPTY_SLOT)];
      Deleted(OK, p.(slots := ShiftOffsets(marked, sno + 1, p.slotCnt, s.length),
                     data := MoveChunks(p.data, s.offset, s.length, p.slotCnt - sno - 1)))
  }

  // ---------------------------------------------------------- retrieval

  /** What getRecord needs of its caller: sno indexes slot[], and a live
      slot's bytes lie inside data[]. */
  predicate GetSafe(p: Page, sno: int)
  {
    0 <= sno < |p.slots| &&
    (Live(p.slots[sno]) ==>
       0 <= p.slots[sno].offset && 0 <= p.slots[sno].length &&
       p.slots[sno].offset + p.slots[sno].length <= |p.data|)
  }

  /** Status, the bytes copied out, and the caller's recLen afterwards. */
  datatype Fetched = Fetched(status: Status, rec: seq<byte>, recLen: int)

  /** HFPage::getRecord on slot sno; recLen0 is the caller's recLen before
      the call, left as it was on failure. */
  function Lookup(p: Page, sno: int, recLen0: int): Fetched
    requires GetSafe(p, sno)
  {
    var s := p.slots[sno];
    if s.length == EMPTY_SLOT then Fetched(FAIL, [], recLen0)
    else if s.length == INVALID_SLOT then Fetched(DONE, [], recLen0)
    else Fetched(OK, p.data[s.offset..s.offset + s.length], s.length)
  }
}
