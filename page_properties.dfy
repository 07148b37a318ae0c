/** What init, insertRecord, deleteRecord and getRecord guarantee, stated
    over the page-value functions of PageModel. */
module PageProperties {
  import opened PageLayout
  import opened PageModel

  // ---------------------------------------------------------------- init

  /** init sets up the accounting: no slots, a tombstone in slot 0, both
      links cleared, the data area fully unused, and the free space of an
      empty page (one slot entry already reserved). */
  lemma InitResetsPage(p: Page, pageNo: int)
    requires WellSized(p)
    ensures var q := AfterInit(p, pageNo);
      SpaceInvariant(q) &&
      q.curPage == pageNo && q.prevPage == INVALID_PAGE && q.nextPage == INVALID_PAGE &&
      q.slotCnt == 0 && q.slots[0].length == EMPTY_SLOT &&
      q.usedPtr == DATA_SIZE && q.freeSpace == q.usedPtr - SLOT_SIZE &&
      q.freeSpace - SLOT_SIZE == DATA_SIZE - 2 * SLOT_SIZE &&
      q.slots[1..] == p.slots[1..] && q.data == p.data
  {
  }

  // ---------------------------------------------------------- insertion

  /** A record that does not fit is refused with DONE, and nothing changes,
      not even the caller's rid. */
  lemma InsertRefusedChangesNothing(p: Page, recLen: int, rid0: Rid)
    requires InsertSafe(p, recLen) && !Admits(p.freeSpace, recLen)
    ensures AfterInsert(p, recLen, rid0) == Inserted(DONE, rid0, p)
  {
  }

  /** A record that fits gets the next slot number; its slot points just
      below the old usedPtr, a terminator follows it, and only the slot
      counter, usedPtr and freeSpace change in the header. */
  lemma InsertAccepted(p: Page, recLen: int, rid0: Rid)
    requires InsertSafe(p, recLen) && Admits(p.freeSpace, recLen)
    ensures var r := AfterInsert(p, recLen, rid0); var q := r.page;
      r.status == OK && r.rid == Rid(p.curPage, p.slotCnt) &&
      q.slotCnt == p.slotCnt + 1 &&
      q.slots[p.slotCnt] == Slot(p.usedPtr - recLen, recLen) &&
      q.slots[q.slotCnt].length == INVALID_SLOT &&
      q.usedPtr == p.usedPtr - recLen &&
      q.freeSpace == q.usedPtr - q.slotCnt * SLOT_SIZE &&
      q.slots[..p.slotCnt] == p.slots[..p.slotCnt] &&
      |q.slots| == |p.slots| &&
      (forall i :: q.slotCnt < i < |q.slots| ==> q.slots[i] == p.slots[i]) &&
      q.data == p.data &&
      q.curPage == p.curPage && q.prevPage == p.prevPage && q.nextPage == p.nextPage
  {
  }

  /** Under the free-space accounting, insertRecord never indexes outside
      slot[], keeps the accounting, and charges the record plus one slot
      entry (only the record for the first slot, whose entry init reserved). */
  lemma InsertKeepsSpaceInvariant(p: Page, recLen: int, rid0: Rid)
    requires SpaceInvariant(p) && 0 <= recLen
    ensures InsertSafe(p, recLen)
    ensures var r := AfterInsert(p, recLen, rid0);
      SpaceInvariant(r.page) &&
      (r.status == OK ==>
         r.page.freeSpace == p.freeSpace - recLen - (if p.slotCnt == 0 then 0 else SLOT_SIZE))
  {
  }

  /** Reading back the slot just inserted succeeds with the inserted length,
      but yields whatever bytes the data area already held there:
      insertRecord stores no bytes. */
  lemma LookupAfterInsert(p: Page, recLen: int, rid0: Rid, recLen0: int)
    requires SpaceInvariant(p) && 0 <= recLen && Admits(p.freeSpace, recLen)
    ensures InsertSafe(p, recLen)
    ensures var q := AfterInsert(p, recLen, rid0).page;
      GetSafe(q, p.slotCnt) &&
      Lookup(q, p.slotCnt, recLen0) ==
        Fetched(OK, p.data[p.usedPtr - recLen..p.usedPtr], recLen)
  {
    InsertKeepsSpaceInvariant(p, recLen, rid0);
  }

  // ------------------------------------------------------------ chunks

  /** The window start is the product the loop bounds are written with:
      k moves of len bytes from off read down to off - k * len. */
  lemma {:induction false} WindowStartIsProduct(off: int, len: int, k: nat)
    ensures WindowStart(off, len, k) == off - k * len
    decreases k
  {
    if k > 0 {
      WindowStartIsProduct(off - len, len, k - 1);
      assert (k - 1) * len + len == k * len;
    }
  }

  /** Closed form of the compaction loop, byte by byte: after k >= 1 rounds
      starting at off, with lo == off - k * len, a byte in [lo + len,
      off + len) holds the byte that sat len lower, and any other byte is
      unchanged. */
  lemma {:induction false} MoveChunksAt(d: seq<byte>, off: int, len: int, k: nat, i: int)
    requires k >= 1 && ChunksFit(|d|, off, len, k) && 0 <= i < |d|
    ensures MoveChunks(d, off, len, k)[i] ==
      if WindowStart(off, len, k) + len <= i < off + len then d[i - len] else d[i]
    decreases k
  {
    var moved := Memmove(d, off, off - len, len);
    var r := MoveChunks(d, off, len, k);
    assert r == MoveChunks(moved, off - len, len, k - 1);
    if k > 1 {
      MoveChunksAt(moved, off - len, len, k - 1, i);
      assert WindowStart(off - len, len, k - 1) == WindowStart(off, len, k);
      if WindowStart(off, len, k) + len <= i < off {
        assert r[i] == moved[i - len] == d[i - len];
      } else {
        assert r[i] == moved[i];
      }
    }
  }

  /** The k rounds of the compaction loop, taken together, are one memmove
      of the whole window [lo, off) up by len, with lo == off - k * len. */
  lemma MoveChunksIsOneMove(d: seq<byte>, off: int, len: int, k: nat)
    requires k >= 1 && ChunksFit(|d|, off, len, k)
    ensures var lo := WindowStart(off, len, k);
      MoveChunks(d, off, len, k) == Memmove(d, lo + len, lo, off - lo)
  {
    var r := MoveChunks(d, off, len, k);
    var lo := WindowStart(off, len, k);
    var m := Memmove(d, lo + len, lo, off - lo);
    forall i | 0 <= i < |d|
      ensures r[i] == m[i]
    {
      MoveChunksIsOneMoveAt(d, off, len, k, i);
    }
    assert r == m;
  }

  /** MoveChunksIsOneMove at the single byte i. */
  lemma MoveChunksIsOneMoveAt(d: seq<byte>, off: int, len: int, k: nat, i: int)
    requires k >= 1 && ChunksFit(|d|, off, len, k) && 0 <= i < |d|
    ensures var lo := WindowStart(off, len, k);
      MoveChunks(d, off, len, k)[i] == Memmove(d, lo + len, lo, off - lo)[i]
  {
    MoveChunksAt(d, off, len, k, i);
  }

  /** The byte effect of k >= 1 rounds stated as a shift: every byte of
      [off - k*len, off) reappears len higher, while bytes at off + len and
      above, and below off - (k-1)*len, are untouched. */
  lemma MoveChunksMovesWindow(d: seq<byte>, off: int, len: int, k: nat)
    requires k >= 1 && ChunksFit(|d|, off, len, k)
    ensures WindowStart(off, len, k) == off - k * len
    ensures var r := MoveChunks(d, off, len, k); var lo := WindowStart(off, len, k);
      (forall j :: lo <= j < off ==> r[j + len] == d[j]) &&
      (forall i :: off + len <= i < |d| ==> r[i] == d[i]) &&
      (forall i :: 0 <= i < lo + len ==> r[i] == d[i])
  {
    var r := MoveChunks(d, off, len, k);
    var lo := WindowStart(off, len, k);
    WindowStartIsProduct(off, len, k);
    forall j | lo <= j < off
      ensures r[j + len] == d[j]
    {
      MoveChunksAt(d, off, len, k, j + len);
    }
    forall i | off + len <= i < |d|
      ensures r[i] == d[i]
    {
      MoveChunksAt(d, off, len, k, i);
    }
    forall i | 0 <= i < lo + len
      ensures r[i] == d[i]
    {
      MoveChunksAt(d, off, len, k, i);
    }
  }

  // ----------------------------------------------------------- deletion

  /** Deleting a tombstone gives DONE and deleting a terminator gives FAIL;
      neither changes the page. */
  lemma DeleteSentinel(p: Page, sno: int)
    requires DeleteSafe(p, sno) && !Live(p.slots[sno])
    ensures var r := AfterDelete(p, sno);
      r.page == p &&
      r.status == (if p.slots[sno].length == EMPTY_SLOT then DONE else FAIL)
  {
  }

  /** The tail branch fires for a live-looking slot at or past slotCnt: it
      writes a terminator there and lowers slotCnt, reclaiming no space. */
  lemma DeleteTail(p: Page, sno: int)
    requires DeleteSafe(p, sno) && Live(p.slots[sno]) && sno >= p.slotCnt
    ensures var q := AfterDelete(p, sno).page;
      AfterDelete(p, sno).status == OK &&
      q.slots == p.slots[sno := Slot(p.slots[sno].offset, INVALID_SLOT)] &&
      q.slotCnt == p.slotCnt - 1 &&
      q.usedPtr == p.usedPtr && q.freeSpace == p.freeSpace && q.data == p.data
  {
  }

  /** Deleting a live slot below slotCnt: the slot becomes a tombstone with
      its offset kept, every later slot below slotCnt moves up by the
      deleted length, earlier slots stay, the header stays, and the data
      area is the compaction loop's result. */
  lemma DeleteInside(p: Page, sno: int)
    requires DeleteSafe(p, sno) && Live(p.slots[sno]) && sno < p.slotCnt
    ensures var s := p.slots[sno]; var r := AfterDelete(p, sno); var q := r.page;
      r.status == OK &&
      |q.slots| == |p.slots| &&
      q.slots[sno] == Slot(s.offset, EMPTY_SLOT) &&
      (forall i :: sno < i < p.slotCnt ==>
         q.slots[i] == Slot(p.slots[i].offset + s.length, p.slots[i].length)) &&
      (forall i :: 0 <= i < |p.slots| && (i < sno || p.slotCnt <= i) ==> q.slots[i] == p.slots[i]) &&
      q.slotCnt == p.slotCnt && q.usedPtr == p.usedPtr && q.freeSpace == p.freeSpace &&
      q.curPage == p.curPage && q.prevPage == p.prevPage && q.nextPage == p.nextPage &&
      q.data == MoveChunks(p.data, s.offset, s.length, p.slotCnt - sno - 1)
  {
  }

  /** Deleting leaves a hole: the free-space accounting still holds after
      a delete below slotCnt, since no counter changes. */
  lemma DeleteInsideKeepsSpaceInvariant(p: Page, sno: int)
    requires SpaceInvariant(p) && DeleteSafe(p, sno) && sno < p.slotCnt
    ensures SpaceInvariant(AfterDelete(p, sno).page)
  {
  }

  /** The tail branch breaks the accounting: with two or more slots, lowering
      slotCnt without touching freeSpace leaves it one entry short. */
  lemma DeleteTailBreaksSpaceInvariant(p: Page, sno: int)
    requires SpaceInvariant(p) && 2 <= p.slotCnt
    requires DeleteSafe(p, sno) && Live(p.slots[sno]) && sno >= p.slotCnt
    ensures !SpaceInvariant(AfterDelete(p, sno).page)
    ensures AfterDelete(p, sno).page.freeSpace ==
      AfterDelete(p, sno).page.usedPtr - Reserved(AfterDelete(p, sno).page.slotCnt) * SLOT_SIZE - SLOT_SIZE
  {
  }

  /** Deleting the same live slot twice gives OK and then DONE, and the
      second call changes nothing. */
  lemma DeleteTwice(p: Page, sno: int)
    requires DeleteSafe(p, sno) && Live(p.slots[sno]) && sno < p.slotCnt
    ensures var q := AfterDelete(p, sno).page;
      AfterDelete(p, sno).status == OK &&
      DeleteSafe(q, sno) &&
      AfterDelete(q, sno) == Deleted(DONE, q)
  {
    DeleteInside(p, sno);
  }

  /** A later record whose bytes lie inside the window the compaction loop
      moves, [off - k*len, off), reads back the same under its old slot
      number after the deletion. The last requires keeps every byte the
      loop writes above the slot directory, which in memory shares the
      low end of the data area; below it the loop overwrites slot entries
      that the separate slot array here does not see. */
  lemma DeleteKeepsMovedRecord(p: Page, sno: int, j: int, recLen0: int)
    requires DeleteSafe(p, sno) && Live(p.slots[sno]) && sno < j < p.slotCnt
    requires GetSafe(p, j) && Live(p.slots[j])
    requires var s := p.slots[sno];
      WindowStart(s.offset, s.length, p.slotCnt - sno - 1) <= p.slots[j].offset &&
      p.slots[j].offset + p.slots[j].length <= s.offset &&
      p.slotCnt * SLOT_SIZE <= WindowStart(s.offset, s.length, p.slotCnt - sno - 1) + s.length
    ensures var q := AfterDelete(p, sno).page;
      GetSafe(q, j) && Lookup(q, j, recLen0) == Lookup(p, j, recLen0)
  {
    var s := p.slots[sno];
    var k := p.slotCnt - sno - 1;
    var q := AfterDelete(p, sno).page;
    DeleteInside(p, sno);
    var o, n := p.slots[j].offset, p.slots[j].length;
    assert q.slots[j] == Slot(o + s.length, n);
    forall i | o + s.length <= i < o + s.length + n
      ensures q.data[i] == p.data[i - s.length]
    {
      MoveChunksAt(p.data, s.offset, s.length, k, i);
    }
    assert q.data[o + s.length..o + s.length + n] == p.data[o..o + n];
  }

  /** An earlier record whose bytes lie at or above off + len, where the
      compaction loop writes nothing, reads back the same after the
      deletion. */
  lemma DeleteKeepsEarlierRecord(p: Page, sno: int, j: int, recLen0: int)
    requires DeleteSafe(p, sno) && Live(p.slots[sno]) && 0 <= j < sno < p.slotCnt
    requires GetSafe(p, j) && p.slots[sno].offset + p.slots[sno].length <= p.slots[j].offset
    ensures var q := AfterDelete(p, sno).page;
      GetSafe(q, j) && Lookup(q, j, recLen0) == Lookup(p, j, recLen0)
  {
    var s := p.slots[sno];
    var k := p.slotCnt - sno - 1;
    var q := AfterDelete(p, sno).page;
    DeleteInside(p, sno);
    if k >= 1 && Live(p.slots[j]) {
      var o, n := p.slots[j].offset, p.slots[j].length;
      forall i | o <= i < o + n
        ensures q.data[i] == p.data[i]
      {
        MoveChunksAt(p.data, s.offset, s.length, k, i);
      }
      assert q.data[o..o + n] == p.data[o..o + n];
    }
  }

  /** The compaction loop does not keep a later record that is longer than
      the deleted one: with slot 0 = (999, 1) deleted and slot 1 = (997, 2),
      the single round copies data[998] to data[999], and slot 1, now at
      offset 998, reads [2, 2] where it read [1, 2]. */
  lemma DeleteCorruptsLongerLaterRecord(p: Page, recLen0: int)
    requires |p.data| == DATA_SIZE && 2 <= |p.slots| && p.slotCnt == 2
    requires p.slots[0] == Slot(999, 1) && p.slots[1] == Slot(997, 2)
    requires p.data[997] == 1 && p.data[998] == 2 && p.data[999] == 3
    ensures DeleteSafe(p, 0) && GetSafe(p, 1)
    ensures var q := AfterDelete(p, 0).page;
      GetSafe(q, 1) &&
      Lookup(p, 1, recLen0).rec == [1, 2] &&
      Lookup(q, 1, recLen0).rec == [2, 2]
  {
    assert WindowStart(999, 1, 1) == 998;
    var q := AfterDelete(p, 0).page;
    DeleteInside(p, 0);
    MoveChunksAt(p.data, 999, 1, 1, 998);
    MoveChunksAt(p.data, 999, 1, 1, 999);
    assert q.slots[1] == Slot(998, 2);
    assert q.data[998..1000] == [2, 2];
    assert p.data[997..999] == [1, 2];
  }

  // ----------------------------------------------------------- scenario

  /** A fresh page admits a 10-byte record into slot 0 and charges only its
      10 bytes, because init reserved the first slot entry. Deleting it
      takes the branch for slots below slotCnt: slotCnt stays 1, usedPtr
      and freeSpace stay where the insert left them, so the page is not
      empty afterwards; deleting it again reports DONE. */
  lemma FreshPageInsertDelete(p: Page, pageNo: int, rid0: Rid)
    requires WellSized(p)
    ensures InsertSafe(AfterInit(p, pageNo), 10)
    ensures var q := AfterInit(p, pageNo); var ins := AfterInsert(q, 10, rid0);
      ins.status == OK && ins.rid == Rid(pageNo, 0) &&
      ins.page.freeSpace == q.freeSpace - 10 &&
      DeleteSafe(ins.page, 0) &&
      AfterDelete(ins.page, 0).status == OK &&
      AfterDelete(ins.page, 0).page.slotCnt == 1 &&
      AfterDelete(ins.page, 0).page.usedPtr == DATA_SIZE - 10 &&
      AfterDelete(ins.page, 0).page.freeSpace == ins.page.freeSpace &&
      AfterDelete(AfterDelete(ins.page, 0).page, 0).status == DONE
  {
    var q := AfterInit(p, pageNo);
    var ins := AfterInsert(q, 10, rid0);
    InsertAccepted(q, 10, rid0);
    DeleteTwice(ins.page, 0);
  }
}
