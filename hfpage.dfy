/** The slotted heap-file page, HFPage, as a class whose methods update its
    header fields, its slot directory and its data area in place. Each
    state-changing method is proved to take the page value Abs() to what
    the matching function of PageModel gives; the read-only methods state
    their results directly. */
module HeapFilePage {
  import opened PageLayout
  import opened PageModel

  class HFPage {
    var curPage: int
    var prevPage: int
    var nextPage: int
    var slotCnt: int
    var usedPtr: int
    var freeSpace: int
    /** The slot directory, slot[0 .. SLOT_CAP). */
    const slot: array<Slot>
    /** The record area, data[0 .. MAX_SPACE - DPFIXED). */
    const data: array<byte>

    ghost predicate Valid()
    {
      slot.Length == SLOT_CAP && data.Length == DATA_SIZE
    }

    /** The whole page as a value. */
    ghost function Abs(): (p: Page)
      reads this, slot, data
      ensures Valid() ==> WellSized(p)
    {
      Page(curPage, prevPage, nextPage, slotCnt, usedPtr, freeSpace, slot[..], data[..])
    }

    /** A page frame as the buffer manager hands it over, not yet
        initialised; Init assumes nothing about its contents. */
    constructor ()
      ensures Valid() && fresh(slot) && fresh(data)
    {
      slot := new Slot[SLOT_CAP];
      data := new byte[DATA_SIZE];
      curPage, prevPage, nextPage := 0, 0, 0;
      slotCnt, usedPtr, freeSpace := 0, 0, 0;
    }

    method Init(pageNo: int)
      requires Valid()
      modifies this, slot
      ensures Abs() == AfterInit(old(Abs()), pageNo)
      ensures Empty() && AvailableSpace() == DATA_SIZE - 2 * SLOT_SIZE
    {
      curPage := pageNo;
      prevPage := INVALID_PAGE;
      nextPage := INVALID_PAGE;
      slotCnt := 0;
      slot[0] := slot[0].(length := EMPTY_SLOT);
      usedPtr := MAX_SPACE - DPFIXED;
      freeSpace := MAX_SPACE - (DPFIXED + SLOT_SIZE);
    }

    function GetPrevPage(): int
      reads this
    {
      prevPage
    }

    method SetPrevPage(pageNo: int)
      modifies this`prevPage
      ensures GetPrevPage() == pageNo
    {
      prevPage := pageNo;
    }

    method SetNextPage(pageNo: int)
      modifies this`nextPage
      ensures GetNextPage() == pageNo
    {
      nextPage := pageNo;
    }

    function GetNextPage(): int
      reads this
    {
      nextPage
    }

    /** rec stands for the caller's record buffer, which is not read. rid0
        is the caller's rid before the call. */
    method InsertRecord(rec: seq<byte>, recLen: int, rid0: Rid) returns (status: Status, rid: Rid)
      requires Valid() && InsertSafe(Abs(), recLen)
      modifies this, slot
      ensures Inserted(status, rid, Abs()) == AfterInsert(old(Abs()), recLen, rid0)
    {
      if recLen + SLOT_SIZE > freeSpace {
        return DONE, rid0;
      }
      slotCnt := slotCnt + 1;
      slot[slotCnt - 1] := slot[slotCnt - 1].(length := recLen);
      slot[slotCnt - 1] := slot[slotCnt - 1].(offset := usedPtr - recLen);
      slot[slotCnt] := slot[slotCnt].(length := INVALID_SLOT);
      usedPtr := usedPtr - recLen;
      freeSpace := usedPtr - slotCnt * SLOT_SIZE;
      rid := Rid(curPage, slotCnt - 1);
      status := OK;
    }

    /** memmove(data + dst, data + src, n). */
    method MoveBytes(dst: int, src: int, n: int)
      requires 0 <= n && 0 <= dst && dst + n <= data.Length && 0 <= src && src + n <= data.Length
      modifies data
      ensures data[..] == Memmove(old(data[..]), dst, src, n)
    {
      var chunk := data[src..src + n];
      forall i | dst <= i < dst + n {
        data[i] := chunk[i - dst];
      }
    }

    method DeleteRecord(rid: Rid) returns (status: Status)
      requires Valid() && DeleteSafe(Abs(), rid.slotNo)
      modifies this, slot, data
      ensures Deleted(status, Abs()) == AfterDelete(old(Abs()), rid.slotNo)
      ensures rid.slotNo < old(slotCnt) ==> !Empty()
    {
      var sno := rid.slotNo;
      var nextSno := sno + 1;
      if slot[sno].length == EMPTY_SLOT {
        return DONE;
      }
      if slot[sno].length == INVALID_SLOT {
        return FAIL;
      }
      if nextSno > slotCnt {
        slot[sno] := slot[sno].(length := INVALID_SLOT);
        slotCnt := slotCnt - 1;
        return OK;
      }
      var off := slot[sno].offset;
      var len := slot[sno].length;
      slot[sno] := slot[sno].(length := EMPTY_SLOT);
      CompactAfter(nextSno, off, len);
      status := OK;
    }

    /** The loop of deleteRecord over the slots after the deleted one, at
        nextSno .. slotCnt - 1: each has its offset raised by len, and each
        round moves one len-byte chunk up by len, starting at off. */
    method CompactAfter(nextSno: int, off: int, len: int)
      requires Valid() && 0 <= nextSno <= slotCnt <= slot.Length
      requires ChunksFit(data.Length, off, len, slotCnt - nextSno)
      modifies slot, data
      ensures slot[..] == ShiftOffsets(old(slot[..]), nextSno, slotCnt, len)
      ensures data[..] == MoveChunks(old(data[..]), off, len, slotCnt - nextSno)
    {
      var dest := off;
      for i := nextSno to slotCnt
        invariant ChunksFit(data.Length, dest, len, slotCnt - i)
        invariant slot[..] == ShiftOffsets(old(slot[..]), nextSno, i, len)
        invariant MoveChunks(data[..], dest, len, slotCnt - i)
               == MoveChunks(old(data[..]), off, len, slotCnt - nextSno)
      {
        ShiftOffsetsStep(old(slot[..]), nextSno, i, len);
        slot[i] := slot[i].(offset := slot[i].offset + len);
        MoveBytes(dest, dest - len, len);
        dest := dest - len;
      }
    }

    method FirstRecord(rid0: Rid) returns (status: Status, rid: Rid)
      requires slotCnt <= slot.Length
      ensures status == OK || status == DONE
      ensures status == OK ==>
        rid.pageNo == curPage && 0 <= rid.slotNo < slotCnt &&
        slot[rid.slotNo].length != EMPTY_SLOT &&
        forall j :: 0 <= j < rid.slotNo ==> slot[j].length == EMPTY_SLOT
      ensures status == DONE ==>
        rid == rid0 && forall j :: 0 <= j < slotCnt ==> slot[j].length == EMPTY_SLOT
    {
      var i := 0;
      while i < slotCnt
        invariant 0 <= i && (i == 0 || i <= slotCnt)
        invariant forall j :: 0 <= j < i ==> slot[j].length == EMPTY_SLOT
      {
        if slot[i].length != EMPTY_SLOT {
          return OK, Rid(curPage, i);
        }
        i := i + 1;
      }
      return DONE, rid0;
    }

    method NextRecord(curRid: Rid, nextRid0: Rid) returns (status: Status, nextRid: Rid)
      requires 0 <= curRid.slotNo + 1 < slot.Length
      requires slot[curRid.slotNo + 1].length == EMPTY_SLOT ==> curRid.slotNo + 2 < slot.Length
      ensures var n := curRid.slotNo + 1;
        (status == DONE <==>
          slot[n].length == INVALID_SLOT ||
          (slot[n].length == EMPTY_SLOT && slot[n + 1].length == INVALID_SLOT)) &&
        (status == OK ==>
          nextRid == Rid(curRid.pageNo, if slot[n].length == EMPTY_SLOT then n + 1 else n)) &&
        (status == DONE ==>
          nextRid.slotNo == nextRid0.slotNo &&
          nextRid.pageNo == if slot[n].length == INVALID_SLOT then nextRid0.pageNo else curRid.pageNo)
      ensures status != FAIL
    {
      var sno := curRid.slotNo;
      var nextSno := sno + 1;
      nextRid := nextRid0;
      if slot[nextSno].length == INVALID_SLOT {
        return DONE, nextRid;
      }
      nextRid := nextRid.(pageNo := curRid.pageNo);
      if slot[nextSno].length == EMPTY_SLOT {
        if slot[nextSno + 1].length == INVALID_SLOT {
          return DONE, nextRid;
        }
        nextRid := nextRid.(slotNo := nextSno + 1);
        return OK, nextRid;
      }
      nextRid := nextRid.(slotNo := nextSno);
      status := OK;
    }

    /** The copied bytes are returned as rec; recLen0 is the caller's
        recLen before the call. */
    method GetRecord(rid: Rid, recLen0: int) returns (status: Status, rec: seq<byte>, recLen: int)
      requires Valid() && GetSafe(Abs(), rid.slotNo)
      ensures Fetched(status, rec, recLen) == Lookup(Abs(), rid.slotNo, recLen0)
      ensures status == FAIL <==> slot[rid.slotNo].length == EMPTY_SLOT
      ensures status == DONE <==> slot[rid.slotNo].length == INVALID_SLOT
      ensures status == OK ==>
        recLen == slot[rid.slotNo].length == |rec| &&
        rec == data[slot[rid.slotNo].offset..slot[rid.slotNo].offset + recLen]
      ensures status != OK ==> recLen == recLen0
    {
      var sno := rid.slotNo;
      if slot[sno].length == EMPTY_SLOT {
        return FAIL, [], recLen0;
      }
      if slot[sno].length == INVALID_SLOT {
        return DONE, [], recLen0;
      }
      var len := slot[sno].length;
      var off := slot[sno].offset;
      rec := data[off..off + len];
      recLen := slot[sno].length;
      status := OK;
    }

    /** The pointer into data[] is returned as its offset off; off0 and
        recLen0 are the caller's values before the call. */
    method ReturnRecord(rid: Rid, off0: int, recLen0: int) returns (status: Status, off: int, recLen: int)
      requires rid.slotNo <= slotCnt ==> 0 <= rid.slotNo < slot.Length
      ensures rid.slotNo > slotCnt ==> status == DONE && off == off0 && recLen == recLen0
      ensures rid.slotNo <= slotCnt && slot[rid.slotNo].length == INVALID_SLOT ==>
        status == FAIL && off == off0 && recLen == recLen0
      ensures rid.slotNo <= slotCnt && slot[rid.slotNo].length != INVALID_SLOT ==>
        status == OK && Slot(off, recLen) == slot[rid.slotNo]
    {
      var sno := rid.slotNo;
      if sno > slotCnt {
        return DONE, off0, recLen0;
      }
      if slot[sno].length == INVALID_SLOT {
        return FAIL, off0, recLen0;
      }
      off := slot[sno].offset;
      recLen := slot[sno].length;
      status := OK;
    }

    /** The largest record length insertRecord would currently accept. */
    function AvailableSpace(): (r: int)
      reads this
      ensures Admits(freeSpace, r) && !Admits(freeSpace, r + 1)
    {
      freeSpace - SLOT_SIZE
    }

    /** True when no slot is allocated; a page whose slots are all
        tombstones is not empty. */
    function Empty(): (r: bool)
      reads this
      ensures r <==> slotCnt == 0
    {
      slotCnt == 0
    }
  }

  lemma ShiftOffsetsStep(s: seq<Slot>, lo: int, i: int, delta: int)
    requires 0 <= lo <= i < |s|
    ensures ShiftOffsets(s, lo, i + 1, delta)
         == ShiftOffsets(s, lo, i, delta)[i := s[i].(offset := s[i].offset + delta)]
  {
  }
}
