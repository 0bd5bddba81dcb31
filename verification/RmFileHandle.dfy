/** RmFileHandle of src/record: insert, delete and update keep pages, record map and free-page list in step. */
module RmFileHandle {
  import opened Bitmap
  import opened Common
  import opened RecordFile

  datatype Outcome = Done | PageNotExist | RecordNotFound | RecordExists

  // ---------- how one step moves the free-page list ----------

  /** Rewriting a page without touching its link. */
  lemma LinkKept(pages: Pages, firstFree: int, list: seq<int>, p: int, pg': Page)
    requires Linked(pages, firstFree, list) && p in pages && pg'.nextFree == pages[p].nextFree
    ensures Linked(pages[p := pg'], firstFree, list)
  {
    var pages' := pages[p := pg'];
    forall i: nat | i < |list| ensures list[i] in pages' && pages'[list[i]].nextFree == NextOf(list, i)
    {
    }
  }

  /** Rewriting a page that is not on the list. */
  lemma LinkUnused(pages: Pages, firstFree: int, list: seq<int>, p: int, pg': Page)
    requires Linked(pages, firstFree, list) && p !in list
    ensures Linked(pages[p := pg'], firstFree, list)
  {
    var pages' := pages[p := pg'];
    forall i: nat | i < |list| ensures list[i] in pages' && pages'[list[i]].nextFree == NextOf(list, i)
    {
      assert list[i] in list;
    }
  }

  /** A page with a clear bit has room, and a page whose counter says so has a clear bit. */
  lemma RoomIff(pg: Page, cap: nat, bitmapSize: nat)
    requires PageOk(pg, cap, bitmapSize)
    ensures pg.numRecords < cap <==> exists s: nat :: s < cap && !IsSet(pg.bitmap, s)
    ensures 0 <= pg.numRecords <= cap
  {
    CountFull(pg.bitmap, cap);
  }

  lemma NewPageKeeps(pages: Pages, numPages: int, cap: nat, bitmapSize: nat, records: map<int, Bytes>, pg: Page)
    requires PagesOk(pages, numPages, cap, bitmapSize) && Maps(pages, numPages, cap, bitmapSize, records)
    requires PageOk(pg, cap, bitmapSize) && forall s: nat :: s < cap ==> !IsSet(pg.bitmap, s)
    ensures PagesOk(pages[numPages := pg], numPages + 1, cap, bitmapSize)
    ensures Maps(pages[numPages := pg], numPages + 1, cap, bitmapSize, records)
  {
    var pages' := pages[numPages := pg];
    assert numPages !in pages;
    forall r: Rid ensures Holds(pages', cap, bitmapSize, r) <==> Holds(pages, cap, bitmapSize, r)
    {
    }
    SamePlaces(pages, pages', numPages, cap, bitmapSize, records);
  }

  lemma SamePlaces(pages: Pages, pages': Pages, numPages: int, cap: nat, bitmapSize: nat, records: map<int, Bytes>)
    requires PagesOk(pages, numPages, cap, bitmapSize) && Maps(pages, numPages, cap, bitmapSize, records)
    requires forall r: Rid :: Holds(pages', cap, bitmapSize, r) <==> Holds(pages, cap, bitmapSize, r)
    requires forall p :: p in pages ==> p in pages' && pages'[p] == pages[p]
    ensures Maps(pages', numPages + 1, cap, bitmapSize, records)
  {
  }

  // ---------- one record changed: all four parts of the invariant ----------

  lemma FillStep(pages: Pages, numPages: int, cap: nat, bitmapSize: nat, records: map<int, Bytes>,
                 firstFree: int, list: seq<int>, r: Rid, buf: Bytes)
    requires PagesOk(pages, numPages, cap, bitmapSize) && Maps(pages, numPages, cap, bitmapSize, records)
    requires Linked(pages, firstFree, list) && Members(pages, cap, list, {})
    requires r.pageNo in pages && 0 <= r.slotNo < cap && !Holds(pages, cap, bitmapSize, r)
    ensures var pages' := pages[r.pageNo := Filled(pages[r.pageNo], r.slotNo, buf)];
            && PagesOk(pages', numPages, cap, bitmapSize)
            && Maps(pages', numPages, cap, bitmapSize, records[MemoryKey(r) := buf])
            && Linked(pages', firstFree, list)
            && Members(pages', cap, list, if pages'[r.pageNo].numRecords == cap then {r.pageNo} else {})
  {
    var pg := pages[r.pageNo];
    var pg' := Filled(pg, r.slotNo, buf);
    FilledPage(pg, cap, bitmapSize, r.slotNo, buf);
    RoomIff(pg, cap, bitmapSize);
    RoomIff(pg', cap, bitmapSize);
    PageReplaced(pages, numPages, cap, bitmapSize, r.pageNo, pg');
    StoreKeeps(pages, numPages, cap, bitmapSize, records, r, pg', buf);
    LinkKept(pages, firstFree, list, r.pageNo, pg');
  }

  lemma ClearStep(pages: Pages, numPages: int, cap: nat, bitmapSize: nat, records: map<int, Bytes>,
                  firstFree: int, list: seq<int>, r: Rid)
    requires PagesOk(pages, numPages, cap, bitmapSize) && Maps(pages, numPages, cap, bitmapSize, records)
    requires Linked(pages, firstFree, list) && Members(pages, cap, list, {})
    requires Holds(pages, cap, bitmapSize, r)
    ensures var pages' := pages[r.pageNo := Cleared(pages[r.pageNo], r.slotNo)];
            && PagesOk(pages', numPages, cap, bitmapSize)
            && Maps(pages', numPages, cap, bitmapSize, records - {MemoryKey(r)})
            && Linked(pages', firstFree, list)
            && (forall p :: p in pages' ==> (p in list <==> p in pages && pages[p].numRecords < cap))
            && pages'[r.pageNo].numRecords == pages[r.pageNo].numRecords - 1 < cap
  {
    var pg := pages[r.pageNo];
    var pg' := Cleared(pg, r.slotNo);
    ClearedPage(pg, cap, bitmapSize, r.slotNo);
    RoomIff(pg, cap, bitmapSize);
    PageReplaced(pages, numPages, cap, bitmapSize, r.pageNo, pg');
    EraseKeeps(pages, numPages, cap, bitmapSize, records, r, pg');
    LinkKept(pages, firstFree, list, r.pageNo, pg');
  }

  function Overwritten(pg: Page, slot: nat, buf: Bytes): Page
    requires slot < |pg.slots|
  {
    pg.(slots := pg.slots[slot := buf])
  }

  lemma OverwriteStep(pages: Pages, numPages: int, cap: nat, bitmapSize: nat, records: map<int, Bytes>,
                      firstFree: int, list: seq<int>, r: Rid, buf: Bytes)
    requires PagesOk(pages, numPages, cap, bitmapSize) && Maps(pages, numPages, cap, bitmapSize, records)
    requires Linked(pages, firstFree, list) && Members(pages, cap, list, {})
    requires Holds(pages, cap, bitmapSize, r)
    ensures var pages' := pages[r.pageNo := Overwritten(pages[r.pageNo], r.slotNo, buf)];
            && PagesOk(pages', numPages, cap, bitmapSize)
            && Maps(pages', numPages, cap, bitmapSize, records[MemoryKey(r) := buf])
            && Linked(pages', firstFree, list)
            && Members(pages', cap, list, {})
  {
    var pg' := Overwritten(pages[r.pageNo], r.slotNo, buf);
    assert SlotChanged(pages[r.pageNo], pg', cap, bitmapSize, r.slotNo, true);
    PageReplaced(pages, numPages, cap, bitmapSize, r.pageNo, pg');
    StoreKeeps(pages, numPages, cap, bitmapSize, records, r, pg', buf);
    LinkKept(pages, firstFree, list, r.pageNo, pg');
  }

  class FileHandle {
    const recordSize: nat
    const cap: nat
    const bitmapSize: nat
    var pages: Pages
    var numPages: int
    var firstFree: int
    var records: map<int, Bytes>
    /** the pages reached from firstFree, in order */
    ghost var list: seq<int>

    ghost predicate Valid()
      reads this
    {
      && PagesOk(pages, numPages, cap, bitmapSize)
      && Maps(pages, numPages, cap, bitmapSize, records)
      && Linked(pages, firstFree, list)
      && Members(pages, cap, list, {})
    }

    /** create_file, then open: no data page yet */
    constructor (size: nat)
      requires 1 <= size <= RM_MAX_RECORD_SIZE
      ensures Valid() && records == map[] && numPages == RM_FIRST_RECORD_PAGE
      ensures recordSize == size && cap == RecordsPerPage(size) && bitmapSize == BitmapSize(cap)
    {
      CapacityBounds(size, RecordsPerPage(size));
      BitmapFits(RecordsPerPage(size), 0);
      Capacity(size);
      recordSize, cap, bitmapSize := size, RecordsPerPage(size), BitmapSize(RecordsPerPage(size));
      pages, numPages, firstFree, records, list := map[], RM_FIRST_RECORD_PAGE, RM_NO_PAGE, map[], [];
    }

    // ---------- the free-page list ----------

    /** remove_page_from_free_list: the walk ends, and the page is unlinked wherever it stands. */
    method RemovePageFromFreeList(p: int)
      requires PagesOk(pages, numPages, cap, bitmapSize) && Linked(pages, firstFree, list) && p in pages
      modifies `pages, `firstFree, `list
      ensures SameData(old(pages), pages) && Linked(pages, firstFree, list)
      ensures forall q :: q in list <==> q in old(list) && q != p
    {
      var next := pages[p].nextFree;
      if firstFree == p {
        DropFirst(pages, firstFree, list, p);
        firstFree := next;
        pages := pages[p := pages[p].(nextFree := RM_NO_PAGE)];
        list := list[1..];
        return;
      }
      var prev := firstFree;
      ghost var j: nat := 0;
      while prev != RM_NO_PAGE
        invariant j <= |list| && prev == (if j < |list| then list[j] else RM_NO_PAGE)
        invariant forall k: nat :: k <= j && k < |list| ==> list[k] != p
        decreases |list| - j
      {
        var prevNext := pages[prev].nextFree;
        if prevNext == p {
          Unlink(pages, firstFree, list, j + 1);
          pages := pages[prev := pages[prev].(nextFree := next)];
          pages := pages[p := pages[p].(nextFree := RM_NO_PAGE)];
          list := list[..j + 1] + list[j + 2..];
          return;
        }
        prev := prevNext;
        j := j + 1;
      }
      LinkUnused(pages, firstFree, list, p, pages[p].(nextFree := RM_NO_PAGE));
      pages := pages[p := pages[p].(nextFree := RM_NO_PAGE)];
    }

    /** release_page_handle */
    method ReleasePageHandle(p: int)
      requires PagesOk(pages, numPages, cap, bitmapSize) && Linked(pages, firstFree, list) && p in pages && p !in list
      modifies `pages, `firstFree, `list
      ensures SameData(old(pages), pages) && Linked(pages, firstFree, list)
      ensures list == [p] + old(list)
    {
      PushFront(pages, firstFree, list, p, pages[p].(nextFree := firstFree));
      pages := pages[p := pages[p].(nextFree := firstFree)];
      firstFree := p;
      list := [p] + list;
    }

    /** create_new_page_handle */
    method CreateNewPageHandle() returns (p: int)
      requires Valid()
      modifies `pages, `numPages, `firstFree, `list
      ensures Valid() && p == old(numPages) && numPages == p + 1 && firstFree == p && list == [p] + old(list)
      ensures p in pages && p !in old(pages) && pages[p].bitmap == Init(bitmapSize)
    {
      p := numPages;
      var bitmap := Init(bitmapSize);
      var pg := Page(firstFree, 0, bitmap, seq(cap, _ => seq(recordSize, _ => 0)));
      AllClear(bitmap, cap);
      NewPageKeeps(pages, numPages, cap, bitmapSize, records, pg);
      assert forall q :: q in list ==> q in pages;
      PushFront(pages, firstFree, list, p, pg);
      numPages := numPages + 1;
      pages := pages[p := pg];
      firstFree := p;
      list := [p] + list;
    }

    /** create_page_handle: a page with a free slot, new only when no page has one. */
    method CreatePageHandle() returns (p: int)
      requires Valid()
      modifies `pages, `numPages, `firstFree, `list
      ensures Valid() && p in pages && pages[p].numRecords < cap
      ensures numPages == old(numPages) + if old(list) == [] then 1 else 0
      ensures if old(firstFree) == RM_NO_PAGE then p == old(numPages) && pages[p].bitmap == Init(bitmapSize)
              else p == old(firstFree) && pages == old(pages)
    {
      if firstFree == RM_NO_PAGE {
        p := CreateNewPageHandle();
      } else {
        p := firstFree;
      }
      assert p in list;
    }

    // ---------- records ----------

    /** The common tail of both insert_record: store, set the bit, count, unlink a page that is now full. */
    method FillSlot(r: Rid, buf: Bytes)
      requires Valid() && r.pageNo in pages && 0 <= r.slotNo < cap && !Holds(pages, cap, bitmapSize, r)
      modifies `pages, `firstFree, `list, `records
      ensures Valid() && records == old(records)[MemoryKey(r) := buf]
    {
      var p := r.pageNo;
      FillStep(pages, numPages, cap, bitmapSize, records, firstFree, list, r, buf);
      pages := pages[p := Filled(pages[p], r.slotNo, buf)];
      ghost var filled := pages;
      if pages[p].numRecords == cap {
        RemovePageFromFreeList(p);
      }
      records := records[MemoryKey(r) := buf];
      SameDataKeeps(filled, pages, numPages, cap, bitmapSize, records);
    }

    /** record_exists_on_page */
    method RecordExistsOnPage(r: Rid) returns (b: bool)
      requires Valid() && r.pageNo in pages
      ensures b <==> Holds(pages, cap, bitmapSize, r)
    {
      b := 0 <= r.slotNo < cap && IsSet(pages[r.pageNo].bitmap, r.slotNo);
    }

    method FindFreeSlot() returns (r: Rid)
      requires Valid()
      modifies `pages, `numPages, `firstFree, `list
      ensures Valid() && r.pageNo in pages && 0 <= r.slotNo < cap && !Holds(pages, cap, bitmapSize, r)
      ensures FirstFreeSlot(old(pages), old(firstFree), old(numPages), r)
      ensures numPages == old(numPages) + if old(list) == [] then 1 else 0
    {
      var p := CreatePageHandle();
      var slot := NextBit(false, pages[p].bitmap, cap, -1);
      FreeSlotFound(pages, p, cap, bitmapSize, slot);
      r := Rid(p, slot);
    }

    /** The first free slot of the page at the head of the free list, or of a new page. */
    ghost predicate FirstFreeSlot(pages: Pages, firstFree: int, numPages: int, r: Rid)
    {
      if firstFree == RM_NO_PAGE then r == Rid(numPages, 0)
      else r.pageNo == firstFree && forall s :: 0 <= s < r.slotNo ==> Holds(pages, cap, bitmapSize, Rid(firstFree, s))
    }

    /** insert_record(buf): always finds a free slot; the record gets an id that no record had, in the first free slot
        of the page at the head of the free list or of a new page. */
    method InsertRecord(buf: Bytes) returns (r: Rid)
      requires Valid() && |buf| == recordSize
      modifies this
      ensures Valid() && MemoryKey(r) !in old(records) && records == old(records)[MemoryKey(r) := buf]
      ensures Holds(pages, cap, bitmapSize, r)
      ensures FirstFreeSlot(old(pages), old(firstFree), old(numPages), r)
      ensures numPages ==
                old(numPages) + if forall p :: p in old(pages) ==> old(pages)[p].numRecords == cap then 1 else 0
    {
      GrowsWhenFull(pages, numPages, cap, bitmapSize, firstFree, list);
      r := FindFreeSlot();
      AbsentKey(pages, numPages, cap, bitmapSize, records, r);
      FillSlot(r, buf);
      SmallKey(r, cap);
    }

    /** insert_record(rid, buf) */
    method InsertRecordAt(r: Rid, buf: Bytes) returns (o: Outcome)
      requires Valid() && |buf| == recordSize && IsInt32(r.pageNo) && IsInt32(r.slotNo)
      modifies this
      ensures Valid() && numPages == old(numPages)
      ensures o == if !(RM_FIRST_RECORD_PAGE <= r.pageNo < old(numPages)) then PageNotExist
                   else if !(0 <= r.slotNo < cap) then RecordNotFound
                   else if MemoryKey(r) in old(records) then RecordExists else Done
      ensures records == if o == Done then old(records)[MemoryKey(r) := buf] else old(records)
    {
      PresentIff(pages, numPages, cap, bitmapSize, records, r);
      if r.pageNo < RM_FIRST_RECORD_PAGE || r.pageNo >= numPages {
        return PageNotExist;
      }
      if r.slotNo < 0 || r.slotNo >= cap {
        return RecordNotFound;
      }
      var present := RecordExistsOnPage(r);
      if present {
        return RecordExists;
      }
      FillSlot(r, buf);
      o := Done;
    }

    /** delete_record */
    method DeleteRecord(r: Rid) returns (o: Outcome)
      requires Valid() && IsInt32(r.pageNo) && IsInt32(r.slotNo)
      modifies this
      ensures Valid() && numPages == old(numPages)
      ensures o == if !(RM_FIRST_RECORD_PAGE <= r.pageNo < old(numPages)) then PageNotExist
                   else if MemoryKey(r) !in old(records) then RecordNotFound else Done
      ensures records == if o == Done then old(records) - {MemoryKey(r)} else old(records)
    {
      PresentIff(pages, numPages, cap, bitmapSize, records, r);
      if r.pageNo < RM_FIRST_RECORD_PAGE || r.pageNo >= numPages {
        return PageNotExist;
      }
      var present := RecordExistsOnPage(r);
      if !present {
        return RecordNotFound;
      }
      ClearSlot(r);
      o := Done;
    }

    method ClearSlot(r: Rid)
      requires Valid() && Holds(pages, cap, bitmapSize, r)
      modifies `pages, `firstFree, `list, `records
      ensures Valid() && records == old(records) - {MemoryKey(r)}
    {
      var p := r.pageNo;
      ClearStep(pages, numPages, cap, bitmapSize, records, firstFree, list, r);
      pages := pages[p := Cleared(pages[p], r.slotNo)];
      ghost var cleared := pages;
      if pages[p].numRecords == cap - 1 {
        ReleasePageHandle(p);
      }
      records := records - {MemoryKey(r)};
      SameDataKeeps(cleared, pages, numPages, cap, bitmapSize, records);
    }

    /** update_record */
    method UpdateRecord(r: Rid, buf: Bytes) returns (o: Outcome)
      requires Valid() && |buf| == recordSize && IsInt32(r.pageNo) && IsInt32(r.slotNo)
      modifies this
      ensures Valid() && numPages == old(numPages)
      ensures o == if !(RM_FIRST_RECORD_PAGE <= r.pageNo < old(numPages)) then PageNotExist
                   else if MemoryKey(r) !in old(records) then RecordNotFound else Done
      ensures records == if o == Done then old(records)[MemoryKey(r) := buf] else old(records)
    {
      PresentIff(pages, numPages, cap, bitmapSize, records, r);
      if r.pageNo < RM_FIRST_RECORD_PAGE || r.pageNo >= numPages {
        return PageNotExist;
      }
      var present := RecordExistsOnPage(r);
      if !present {
        return RecordNotFound;
      }
      OverwriteStep(pages, numPages, cap, bitmapSize, records, firstFree, list, r, buf);
      pages := pages[r.pageNo := Overwritten(pages[r.pageNo], r.slotNo, buf)];
      records := records[MemoryKey(r) := buf];
      o := Done;
    }

    // ---------- load_memory_records ----------

    /** The slots of one page, in order. */
    method LoadPage(p: int)
      requires PagesOk(pages, numPages, cap, bitmapSize) && p in pages
      requires MapsBelow(pages, cap, bitmapSize, records, p)
      modifies `records
      ensures MapsBelow(pages, cap, bitmapSize, records, p + 1)
    {
      PageStart(pages, cap, bitmapSize, records, p);
      var slot := 0;
      while slot < cap
        invariant 0 <= slot <= cap && MapsUpTo(pages, cap, bitmapSize, records, p, slot)
      {
        if IsSet(pages[p].bitmap, slot) {
          SlotLoaded(pages, cap, bitmapSize, records, Rid(p, slot));
          records := records[MemoryKey(Rid(p, slot)) := pages[p].slots[slot]];
        } else {
          SlotSkipped(pages, cap, bitmapSize, records, Rid(p, slot));
        }
        slot := slot + 1;
      }
      PageEnd(pages, cap, bitmapSize, records, p);
    }

    /** load_memory_records: what the pages in the file say; reopening a handle gives the same records. */
    method LoadMemoryRecords(filePages: nat)
      requires PagesOk(pages, numPages, cap, bitmapSize)
      modifies `records
      ensures MapsBelow(pages, cap, bitmapSize, records, if filePages < numPages then filePages else numPages)
      ensures old(Maps(pages, numPages, cap, bitmapSize, records)) && numPages <= filePages ==> records == old(records)
    {
      records := map[];
      var loadedPages := if filePages < numPages then filePages else numPages;
      var p := RM_FIRST_RECORD_PAGE;
      while p < loadedPages
        invariant p <= loadedPages || p == RM_FIRST_RECORD_PAGE
        invariant MapsBelow(pages, cap, bitmapSize, records, p)
        invariant p == RM_FIRST_RECORD_PAGE ==> records == map[]
      {
        LoadPage(p);
        p := p + 1;
      }
      if old(Maps(pages, numPages, cap, bitmapSize, records)) && numPages <= filePages {
        MapDetermined(pages, cap, bitmapSize, numPages, records, old(records));
      }
    }

    /** is_record: answered from the map, true exactly when the page says so. */
    method IsRecord(r: Rid) returns (b: bool)
      requires Valid() && IsInt32(r.pageNo) && IsInt32(r.slotNo)
      ensures b <==> Holds(pages, cap, bitmapSize, r)
    {
      PresentIff(pages, numPages, cap, bitmapSize, records, r);
      b := MemoryKey(r) in records;
    }

    /** get_record: the bytes of the slot, or RecordNotFound. */
    method GetRecord(r: Rid) returns (o: Outcome, buf: Bytes)
      requires Valid() && IsInt32(r.pageNo) && IsInt32(r.slotNo)
      ensures o == if Holds(pages, cap, bitmapSize, r) then Done else RecordNotFound
      ensures o == Done ==> buf == pages[r.pageNo].slots[r.slotNo]
    {
      PresentIff(pages, numPages, cap, bitmapSize, records, r);
      if MemoryKey(r) !in records {
        return RecordNotFound, [];
      }
      return Done, records[MemoryKey(r)];
    }
  }

  /** create_file: InvalidRecordSizeError outside 1..RM_MAX_RECORD_SIZE, else an empty file. */
  method CreateFile(recordSize: int) returns (h: FileHandle?)
    ensures h == null <==> recordSize < 1 || recordSize > RM_MAX_RECORD_SIZE
    ensures h != null ==> fresh(h) && h.Valid() && h.records == map[] && h.recordSize == recordSize
  {
    if recordSize < 1 || recordSize > RM_MAX_RECORD_SIZE {
      return null;
    }
    h := new FileHandle(recordSize);
  }

  lemma FreeSlotFound(pages: Pages, p: int, cap: nat, bitmapSize: nat, slot: nat)
    requires p in pages && SizesOk(pages[p], cap, bitmapSize) && pages[p].numRecords < cap && slot <= cap
    requires pages[p].numRecords == Count(pages[p].bitmap, cap)
    requires slot < cap ==> !IsSet(pages[p].bitmap, slot)
    requires forall s: nat :: s < slot ==> IsSet(pages[p].bitmap, s)
    ensures slot < cap && !Holds(pages, cap, bitmapSize, Rid(p, slot))
    ensures forall s :: 0 <= s < slot ==> Holds(pages, cap, bitmapSize, Rid(p, s))
    ensures pages[p].bitmap == Init(bitmapSize) ==> slot == 0
  {
    RoomIff(pages[p], cap, bitmapSize);
    if pages[p].bitmap == Init(bitmapSize) {
      AllClear(pages[p].bitmap, cap);
      assert !IsSet(pages[p].bitmap, 0);
    }
  }

  lemma AllClear(bitmap: Bits, cap: nat)
    requires cap <= 8 * |bitmap| && forall i :: 0 <= i < |bitmap| ==> bitmap[i] == 0
    ensures Count(bitmap, cap) == 0 && forall i: nat :: i < cap ==> !IsSet(bitmap, i)
  {
    forall i: nat | i < cap ensures !IsSet(bitmap, i)
    {
      ClearByte(bitmap[i / 8], i);
    }
    CountEmpty(bitmap, cap);
  }

  lemma ClearByte(b: bv8, i: nat)
    requires b == 0
    ensures b & Mask(i) == 0
  {
  }

  lemma Capacity(size: nat)
    requires 1 <= size <= RM_MAX_RECORD_SIZE
    ensures 1 <= RecordsPerPage(size) < 0x8000_0000
  {
    CapacityBounds(size, RecordsPerPage(size));
    Product(RecordsPerPage(size), size);
  }

  lemma AbsentKey(pages: Pages, numPages: int, cap: nat, bitmapSize: nat, records: map<int, Bytes>, r: Rid)
    requires PagesOk(pages, numPages, cap, bitmapSize) && Maps(pages, numPages, cap, bitmapSize, records)
    requires 0 <= r.slotNo < cap && !Holds(pages, cap, bitmapSize, r)
    ensures MemoryKey(r) !in records
  {
    SmallKey(r, cap);
  }

  lemma GrowsWhenFull(pages: Pages, numPages: int, cap: nat, bitmapSize: nat, firstFree: int, list: seq<int>)
    requires PagesOk(pages, numPages, cap, bitmapSize) && Linked(pages, firstFree, list)
    requires Members(pages, cap, list, {})
    ensures list == [] <==> forall p :: p in pages ==> pages[p].numRecords == cap
  {
    forall p | p in pages ensures pages[p].numRecords <= cap { RoomIff(pages[p], cap, bitmapSize); }
    if list != [] {
      assert list[0] in list;
    }
  }
}
