/** A table's record file (src/record): bitmap pages, the list of pages with a free slot threaded through the
    page headers, and the in-memory record map that answers all reads. */
module RecordFile {
  import opened Bitmap
  import opened Common

  const RM_NO_PAGE: int := -1

  // ---------- page layout: create_file and RmPageHandle ----------

  const RM_MAX_RECORD_SIZE: int := 512
  /** sizeof(RmFileHdr), sizeof(RmPageHdr), Page::OFFSET_PAGE_HDR */
  const FILE_HDR_SIZE: int := 20
  const PAGE_HDR_SIZE: int := 8
  const OFFSET_PAGE_HDR: int := 4

  function RecordsPerPage(recordSize: int): (n: int)
    requires 1 <= recordSize <= RM_MAX_RECORD_SIZE
  {
    (8 * (PAGE_SIZE - 1 - FILE_HDR_SIZE) + 1) / (1 + recordSize * 8)
  }

  function BitmapSize(n: int): (b: int)
  {
    (n + 8 - 1) / 8
  }

  function SlotOffset(recordSize: int, slot: int): (o: int)
    requires 1 <= recordSize <= RM_MAX_RECORD_SIZE
  {
    OFFSET_PAGE_HDR + PAGE_HDR_SIZE + BitmapSize(RecordsPerPage(recordSize)) + slot * recordSize
  }

  /** For every legal record size the page header, the bitmap and the slots are disjoint and fit the page,
      the bitmap has a bit for each slot, and a page holds at least seven records. */
  lemma LayoutFits(recordSize: int, slot: int)
    requires 1 <= recordSize <= RM_MAX_RECORD_SIZE && 0 <= slot < RecordsPerPage(recordSize)
    ensures 7 <= RecordsPerPage(recordSize) <= 8 * BitmapSize(RecordsPerPage(recordSize))
    ensures OFFSET_PAGE_HDR + PAGE_HDR_SIZE + BitmapSize(RecordsPerPage(recordSize)) <= SlotOffset(recordSize, slot)
    ensures SlotOffset(recordSize, slot) + recordSize == SlotOffset(recordSize, slot + 1) <= PAGE_SIZE
  {
    var n := RecordsPerPage(recordSize);
    CapacityBounds(recordSize, n);
    SlotBounds(slot, n, recordSize);
    BitmapFits(n, n * recordSize);
  }

  /** One record more, with its bit, would fill the page to the end beside a file header. */
  lemma LayoutTight(recordSize: int)
    requires 1 <= recordSize <= RM_MAX_RECORD_SIZE
    ensures var n := RecordsPerPage(recordSize) + 1;
            FILE_HDR_SIZE + BitmapSize(n) + n * recordSize >= PAGE_SIZE
  {
    var d := 1 + recordSize * 8;
    var n := RecordsPerPage(recordSize) + 1;
    Quotient(32601, d, n - 1);
    assert n * d == n + 8 * (n * recordSize);
    BitmapTight(n, n * recordSize);
  }

  lemma BitmapTight(n: int, m: int)
    requires 0 <= n && 0 <= m && n + 8 * m > 32601
    ensures 20 + BitmapSize(n) + m >= PAGE_SIZE
  {
  }

  lemma BitmapFits(n: int, m: int)
    requires 7 <= n && 0 <= m && n + 8 * m <= 32601
    ensures n <= 8 * BitmapSize(n) && 12 + BitmapSize(n) + m <= PAGE_SIZE
  {
  }

  lemma SlotBounds(slot: int, n: int, size: int)
    requires 0 <= slot < n && 1 <= size
    ensures 0 <= slot * size && slot * size + size == (slot + 1) * size <= n * size
  {
    Product(slot, size);
    Product(n - slot - 1, size);
    calc {
      n * size;
      ((slot + 1) + (n - slot - 1)) * size;
      (slot + 1) * size + (n - slot - 1) * size;
    }
  }

  lemma CapacityBounds(recordSize: int, n: int)
    requires 1 <= recordSize <= RM_MAX_RECORD_SIZE && n == 32601 / (1 + recordSize * 8)
    ensures 7 <= n && n + 8 * (n * recordSize) <= 32601
  {
    var d := 1 + recordSize * 8;
    assert d <= 4097;
    Quotient(32601, d, n);
    assert n * d == n + 8 * (n * recordSize);
  }

  // ---------- keys of the record map ----------

  const TWO32: int := 0x1_0000_0000

  /** memory_key: (int64) page_no << 32 | (uint32) slot_no */
  function MemoryKey(r: Rid): (k: int)
  {
    r.pageNo * TWO32 + (if r.slotNo < 0 then r.slotNo + TWO32 else r.slotNo)
  }

  /** key_to_rid */
  function KeyToRid(k: int): (r: Rid)
  {
    var low := k % TWO32;
    Rid(k / TWO32, if low >= 0x8000_0000 then low - TWO32 else low)
  }

  /** Distinct record ids have distinct keys, and a key gives its record id back. */
  lemma KeyRoundTrip(r: Rid)
    requires IsInt32(r.pageNo) && IsInt32(r.slotNo)
    ensures KeyToRid(MemoryKey(r)) == r
  {
  }

  // ---------- pages, the record map and the free-page list ----------

  /** RmPageHdr, the bitmap and the slots of one data page */
  datatype Page = Page(nextFree: int, numRecords: int, bitmap: Bits, slots: seq<Bytes>)

  type Pages = map<int, Page>

  predicate SizesOk(pg: Page, cap: nat, bitmapSize: nat)
  {
    && cap <= 8 * bitmapSize
    && |pg.bitmap| == bitmapSize
    && |pg.slots| == cap
  }

  predicate PageOk(pg: Page, cap: nat, bitmapSize: nat)
  {
    && SizesOk(pg, cap, bitmapSize)
    && pg.numRecords == Count(pg.bitmap, cap)
  }

  ghost predicate PagesOk(pages: Pages, numPages: int, cap: nat, bitmapSize: nat)
  {
    && 1 <= cap < 0x8000_0000 && cap <= 8 * bitmapSize
    && RM_FIRST_RECORD_PAGE <= numPages
    && (forall p :: p in pages <==> RM_FIRST_RECORD_PAGE <= p < numPages)
    && (forall p :: p in pages ==> PageOk(pages[p], cap, bitmapSize))
  }

  /** The page says there is a record in this slot. */
  predicate Holds(pages: Pages, cap: nat, bitmapSize: nat, r: Rid)
  {
    && r.pageNo in pages
    && 0 <= r.slotNo < cap
    && SizesOk(pages[r.pageNo], cap, bitmapSize)
    && IsSet(pages[r.pageNo].bitmap, r.slotNo)
  }

  /** The record map equals what the pages say, for the pages below limit. */
  ghost predicate MapsBelow(pages: Pages, cap: nat, bitmapSize: nat, records: map<int, Bytes>, limit: int)
  {
    && (forall r: Rid {:trigger Holds(pages, cap, bitmapSize, r)} ::
        Holds(pages, cap, bitmapSize, r) && r.pageNo < limit ==>
          MemoryKey(r) in records && records[MemoryKey(r)] == pages[r.pageNo].slots[r.slotNo])
    && (forall k :: k in records ==> Holds(pages, cap, bitmapSize, KeyToRid(k)) && KeyToRid(k).pageNo < limit)
  }

  ghost predicate Maps(pages: Pages, numPages: int, cap: nat, bitmapSize: nat, records: map<int, Bytes>)
  {
    MapsBelow(pages, cap, bitmapSize, records, numPages)
  }

  function NextOf(list: seq<int>, i: nat): int
  {
    if i + 1 < |list| then list[i + 1] else RM_NO_PAGE
  }

  /** The headers thread the pages of list, in order, starting from the file header's first free page. */
  ghost predicate Linked(pages: Pages, firstFree: int, list: seq<int>)
  {
    && NoDuplicates(list)
    && firstFree == (if list == [] then RM_NO_PAGE else list[0])
    && (forall i: nat :: i < |list| ==>
        list[i] in pages && list[i] != RM_NO_PAGE && pages[list[i]].nextFree == NextOf(list, i))
  }

  /** The list holds exactly the pages with a free slot; a page that has just filled up may still be on it. */
  ghost predicate Members(pages: Pages, cap: nat, list: seq<int>, filled: set<int>)
  {
    forall p :: p in pages ==> (p in list <==> pages[p].numRecords < cap || p in filled)
  }

  /** Same bitmaps, slots and counters; only links may differ. */
  ghost predicate SameData(pages: Pages, pages': Pages)
  {
    && pages.Keys == pages'.Keys
    && (forall p :: p in pages ==> pages'[p].(nextFree := 0) == pages[p].(nextFree := 0))
  }

  lemma SameDataKeeps(pages: Pages, pages': Pages, numPages: int, cap: nat, bitmapSize: nat, records: map<int, Bytes>)
    requires SameData(pages, pages') && PagesOk(pages, numPages, cap, bitmapSize)
    ensures PagesOk(pages', numPages, cap, bitmapSize)
    ensures Maps(pages, numPages, cap, bitmapSize, records) ==> Maps(pages', numPages, cap, bitmapSize, records)
  {
    forall r: Rid ensures Holds(pages, cap, bitmapSize, r) == Holds(pages', cap, bitmapSize, r) {
    }
    assert forall p :: p in pages' ==>
      p in pages && pages'[p].bitmap == pages[p].bitmap && pages'[p].slots == pages[p].slots;
  }

  /** The pages determine the record map: reading them back gives the same map. */
  lemma MapDetermined(pages: Pages, cap: nat, bitmapSize: nat, limit: int, records: map<int, Bytes>,
                      records': map<int, Bytes>)
    requires cap < 0x8000_0000
    requires MapsBelow(pages, cap, bitmapSize, records, limit) && MapsBelow(pages, cap, bitmapSize, records', limit)
    ensures records == records'
  {
    forall k ensures k in records <==> k in records'
    {
      if k in records || k in records' { KeyOfRid(k, cap); }
    }
    forall k | k in records ensures records[k] == records'[k]
    {
      KeyOfRid(k, cap);
    }
  }

  lemma KeyOfRid(k: int, cap: nat)
    requires cap < 0x8000_0000 && 0 <= KeyToRid(k).slotNo < cap
    ensures MemoryKey(KeyToRid(k)) == k
  {
  }

  // ---------- the free-page list ----------

  /** release_page_handle and create_new_page_handle put a page in front. */
  lemma PushFront(pages: Pages, firstFree: int, list: seq<int>, p: int, pg: Page)
    requires Linked(pages, firstFree, list) && p !in list && p != RM_NO_PAGE && pg.nextFree == firstFree
    ensures Linked(pages[p := pg], p, [p] + list)
  {
    var list' := [p] + list;
    forall i: nat | i < |list'|
      ensures list'[i] in pages[p := pg] && pages[p := pg][list'[i]].nextFree == NextOf(list', i)
    {
      if i > 0 {
        assert list'[i] == list[i - 1];
        assert NextOf(list', i) == NextOf(list, i - 1);
      }
    }
  }

  lemma DropFirst(pages: Pages, firstFree: int, list: seq<int>, p: int)
    requires Linked(pages, firstFree, list) && list != [] && list[0] == p
    ensures Linked(pages[p := pages[p].(nextFree := RM_NO_PAGE)], pages[p].nextFree, list[1..])
    ensures forall q :: q in list[1..] <==> q in list && q != p
  {
    var list' := list[1..];
    assert list == [p] + list';
    forall i: nat | i < |list'| ensures list'[i] == list[i + 1] && NextOf(list', i) == NextOf(list, i + 1)
    {
    }
  }

  /** Unlinking the i-th page, as remove_page_from_free_list rewrites its predecessor. */
  lemma Unlink(pages: Pages, firstFree: int, list: seq<int>, i: nat)
    requires Linked(pages, firstFree, list) && 0 < i < |list|
    ensures var prev, p := list[i - 1], list[i];
            var pages' := pages[prev := pages[prev].(nextFree := pages[p].nextFree)];
            Linked(pages'[p := pages'[p].(nextFree := RM_NO_PAGE)], firstFree, list[..i] + list[i + 1..])
    ensures forall q :: q in list[..i] + list[i + 1..] <==> q in list && q != list[i]
  {
    var prev, p := list[i - 1], list[i];
    var pages' := pages[prev := pages[prev].(nextFree := pages[p].nextFree)];
    var pages'' := pages'[p := pages'[p].(nextFree := RM_NO_PAGE)];
    var list' := list[..i] + list[i + 1..];
    forall j: nat | j < |list'|
      ensures list'[j] in pages'' && pages''[list'[j]].nextFree == NextOf(list', j)
    {
      UnlinkNext(list, i, j);
    }
    UnlinkMembers(list, i);
  }

  lemma UnlinkMembers(list: seq<int>, i: nat)
    requires i < |list| && NoDuplicates(list)
    ensures forall q :: q in list[..i] + list[i + 1..] <==> q in list && q != list[i]
    ensures NoDuplicates(list[..i] + list[i + 1..])
  {
    assert list == list[..i] + [list[i]] + list[i + 1..];
  }

  lemma UnlinkNext(list: seq<int>, i: nat, j: nat)
    requires 0 < i < |list| && j < |list| - 1
    ensures var list' := list[..i] + list[i + 1..];
            && list'[j] == list[if j < i then j else j + 1]
            && NextOf(list', j) == if j == i - 1 then NextOf(list, i) else NextOf(list, if j < i then j else j + 1)
  {
  }

  // ---------- records ----------

  function Filled(pg: Page, slot: nat, buf: Bytes): Page
    requires slot < |pg.slots| && slot / 8 < |pg.bitmap|
  {
    pg.(slots := pg.slots[slot := buf], bitmap := Set(pg.bitmap, slot), numRecords := pg.numRecords + 1)
  }

  function Cleared(pg: Page, slot: nat): Page
    requires slot / 8 < |pg.bitmap|
  {
    pg.(bitmap := Reset(pg.bitmap, slot), numRecords := pg.numRecords - 1)
  }

  /** pg' is a sound page, like pg but with the given presence and contents of one slot. */
  ghost predicate SlotChanged(pg: Page, pg': Page, cap: nat, bitmapSize: nat, slot: nat, present: bool)
  {
    && PageOk(pg, cap, bitmapSize)
    && PageOk(pg', cap, bitmapSize)
    && (forall s: nat :: s < cap ==> (IsSet(pg'.bitmap, s) <==> if s == slot then present else IsSet(pg.bitmap, s)))
    && (forall s: nat :: s < cap && s != slot ==> pg'.slots[s] == pg.slots[s])
  }

  lemma FilledPage(pg: Page, cap: nat, bitmapSize: nat, slot: nat, buf: Bytes)
    requires PageOk(pg, cap, bitmapSize) && slot < cap && !IsSet(pg.bitmap, slot)
    ensures SlotChanged(pg, Filled(pg, slot, buf), cap, bitmapSize, slot, true)
  {
    CountSet(pg.bitmap, slot, cap);
    forall s: nat | s < cap ensures IsSet(Set(pg.bitmap, slot), s) <==> if s == slot then true else IsSet(pg.bitmap, s)
    {
      SetBit(pg.bitmap, slot, s);
    }
  }

  lemma ClearedPage(pg: Page, cap: nat, bitmapSize: nat, slot: nat)
    requires PageOk(pg, cap, bitmapSize) && slot < cap && IsSet(pg.bitmap, slot)
    ensures SlotChanged(pg, Cleared(pg, slot), cap, bitmapSize, slot, false)
  {
    CountReset(pg.bitmap, slot, cap);
    forall s: nat | s < cap
      ensures IsSet(Reset(pg.bitmap, slot), s) <==> if s == slot then false else IsSet(pg.bitmap, s)
    {
      ResetBit(pg.bitmap, slot, s);
    }
  }

  lemma HoldsAfter(pages: Pages, numPages: int, cap: nat, bitmapSize: nat, r: Rid, pg': Page, present: bool, q: Rid)
    requires PagesOk(pages, numPages, cap, bitmapSize) && r.pageNo in pages && 0 <= r.slotNo < cap
    requires SlotChanged(pages[r.pageNo], pg', cap, bitmapSize, r.slotNo, present)
    ensures Holds(pages[r.pageNo := pg'], cap, bitmapSize, q) <==>
              if q == r then present else Holds(pages, cap, bitmapSize, q)
  {
  }

  lemma SlotsAfter(pages: Pages, cap: nat, bitmapSize: nat, r: Rid, pg': Page, present: bool)
    requires r.pageNo in pages && 0 <= r.slotNo < cap
    requires SlotChanged(pages[r.pageNo], pg', cap, bitmapSize, r.slotNo, present)
    ensures SameElsewhere(pages, pages[r.pageNo := pg'], cap, bitmapSize, r)
  {
  }

  ghost predicate SameElsewhere(pages: Pages, pages': Pages, cap: nat, bitmapSize: nat, r: Rid)
  {
    forall q: Rid :: Holds(pages, cap, bitmapSize, q) && Holds(pages', cap, bitmapSize, q) && q != r ==>
                       pages'[q.pageNo].slots[q.slotNo] == pages[q.pageNo].slots[q.slotNo]
  }

  /** A slot that now holds buf: the record map with that record set is again what the pages say. */
  lemma StoreKeeps(pages: Pages, numPages: int, cap: nat, bitmapSize: nat, records: map<int, Bytes>, r: Rid,
                   pg': Page, buf: Bytes)
    requires PagesOk(pages, numPages, cap, bitmapSize) && Maps(pages, numPages, cap, bitmapSize, records)
    requires r.pageNo in pages && 0 <= r.slotNo < cap
    requires SlotChanged(pages[r.pageNo], pg', cap, bitmapSize, r.slotNo, true) && pg'.slots[r.slotNo] == buf
    ensures Maps(pages[r.pageNo := pg'], numPages, cap, bitmapSize, records[MemoryKey(r) := buf])
  {
    var pages' := pages[r.pageNo := pg'];
    forall q: Rid ensures Holds(pages', cap, bitmapSize, q) <==> q == r || Holds(pages, cap, bitmapSize, q)
    {
      HoldsAfter(pages, numPages, cap, bitmapSize, r, pg', true, q);
    }
    SlotsAfter(pages, cap, bitmapSize, r, pg', true);
    MapUpdated(pages, pages', numPages, cap, bitmapSize, records, r, buf);
  }

  lemma PageReplaced(pages: Pages, numPages: int, cap: nat, bitmapSize: nat, p: int, pg': Page)
    requires PagesOk(pages, numPages, cap, bitmapSize) && p in pages && PageOk(pg', cap, bitmapSize)
    ensures PagesOk(pages[p := pg'], numPages, cap, bitmapSize)
  {
  }

  /** An emptied slot: the record map without that record is again what the pages say. */
  lemma EraseKeeps(pages: Pages, numPages: int, cap: nat, bitmapSize: nat, records: map<int, Bytes>, r: Rid, pg': Page)
    requires PagesOk(pages, numPages, cap, bitmapSize) && Maps(pages, numPages, cap, bitmapSize, records)
    requires r.pageNo in pages && 0 <= r.slotNo < cap
    requires SlotChanged(pages[r.pageNo], pg', cap, bitmapSize, r.slotNo, false)
    ensures Maps(pages[r.pageNo := pg'], numPages, cap, bitmapSize, records - {MemoryKey(r)})
  {
    var pages' := pages[r.pageNo := pg'];
    forall q: Rid ensures Holds(pages', cap, bitmapSize, q) <==> q != r && Holds(pages, cap, bitmapSize, q)
    {
      HoldsAfter(pages, numPages, cap, bitmapSize, r, pg', false, q);
    }
    SlotsAfter(pages, cap, bitmapSize, r, pg', false);
    MapCleared(pages, pages', numPages, cap, bitmapSize, records, r);
  }

  /** A record id is in the record map exactly when its page exists, its slot is in range and its bit is set. */
  lemma PresentIff(pages: Pages, numPages: int, cap: nat, bitmapSize: nat, records: map<int, Bytes>, r: Rid)
    requires PagesOk(pages, numPages, cap, bitmapSize) && Maps(pages, numPages, cap, bitmapSize, records)
    requires IsInt32(r.pageNo) && IsInt32(r.slotNo)
    ensures MemoryKey(r) in records <==> Holds(pages, cap, bitmapSize, r)
  {
    KeyRoundTrip(r);
  }

  lemma SmallKey(r: Rid, cap: nat)
    requires cap < 0x8000_0000 && 0 <= r.slotNo < cap
    ensures KeyToRid(MemoryKey(r)) == r
  {
  }

  lemma MapUpdated(pages: Pages, pages': Pages, numPages: int, cap: nat, bitmapSize: nat, records: map<int, Bytes>,
                   r: Rid, buf: Bytes)
    requires cap < 0x8000_0000 && r.pageNo < numPages
    requires Maps(pages, numPages, cap, bitmapSize, records)
    requires forall q: Rid :: Holds(pages', cap, bitmapSize, q) <==> q == r || Holds(pages, cap, bitmapSize, q)
    requires Holds(pages', cap, bitmapSize, r) && pages'[r.pageNo].slots[r.slotNo] == buf
    requires SameElsewhere(pages, pages', cap, bitmapSize, r)
    ensures Maps(pages', numPages, cap, bitmapSize, records[MemoryKey(r) := buf])
  {
    var records' := records[MemoryKey(r) := buf];
    SmallKey(r, cap);
    forall q: Rid | Holds(pages', cap, bitmapSize, q) && q.pageNo < numPages
      ensures MemoryKey(q) in records' && records'[MemoryKey(q)] == pages'[q.pageNo].slots[q.slotNo]
    {
      SmallKey(q, cap);
    }
  }

  lemma MapCleared(pages: Pages, pages': Pages, numPages: int, cap: nat, bitmapSize: nat, records: map<int, Bytes>,
                   r: Rid)
    requires cap < 0x8000_0000 && 0 <= r.slotNo < cap
    requires Maps(pages, numPages, cap, bitmapSize, records)
    requires forall q: Rid :: Holds(pages', cap, bitmapSize, q) <==> q != r && Holds(pages, cap, bitmapSize, q)
    requires SameElsewhere(pages, pages', cap, bitmapSize, r)
    ensures Maps(pages', numPages, cap, bitmapSize, records - {MemoryKey(r)})
  {
    var records' := records - {MemoryKey(r)};
    SmallKey(r, cap);
    forall q: Rid | Holds(pages', cap, bitmapSize, q) && q.pageNo < numPages
      ensures MemoryKey(q) in records' && records'[MemoryKey(q)] == pages'[q.pageNo].slots[q.slotNo]
    {
      SmallKey(q, cap);
    }
    forall k | k in records' ensures Holds(pages', cap, bitmapSize, KeyToRid(k))
    {
      KeyOfRid(k, cap);
    }
  }

  // ---------- load_memory_records ----------

  /** Like MapsBelow, also counting the slots below s of page p. */
  ghost predicate MapsUpTo(pages: Pages, cap: nat, bitmapSize: nat, records: map<int, Bytes>, p: int, s: int)
  {
    && (forall r: Rid {:trigger Holds(pages, cap, bitmapSize, r)} ::
        Holds(pages, cap, bitmapSize, r) && Earlier(r, p, s) ==>
          MemoryKey(r) in records && records[MemoryKey(r)] == pages[r.pageNo].slots[r.slotNo])
    && (forall k :: k in records ==> Holds(pages, cap, bitmapSize, KeyToRid(k)) && Earlier(KeyToRid(k), p, s))
  }

  predicate Earlier(r: Rid, p: int, s: int)
  {
    r.pageNo < p || (r.pageNo == p && r.slotNo < s)
  }

  lemma PageStart(pages: Pages, cap: nat, bitmapSize: nat, records: map<int, Bytes>, p: int)
    ensures MapsBelow(pages, cap, bitmapSize, records, p) <==> MapsUpTo(pages, cap, bitmapSize, records, p, 0)
  {
  }

  lemma PageEnd(pages: Pages, cap: nat, bitmapSize: nat, records: map<int, Bytes>, p: int)
    ensures MapsBelow(pages, cap, bitmapSize, records, p + 1) <==> MapsUpTo(pages, cap, bitmapSize, records, p, cap)
  {
  }

  lemma SlotLoaded(pages: Pages, cap: nat, bitmapSize: nat, records: map<int, Bytes>, r: Rid)
    requires cap < 0x8000_0000 && Holds(pages, cap, bitmapSize, r)
    requires MapsUpTo(pages, cap, bitmapSize, records, r.pageNo, r.slotNo)
    ensures MapsUpTo(pages, cap, bitmapSize, records[MemoryKey(r) := pages[r.pageNo].slots[r.slotNo]], r.pageNo,
                     r.slotNo + 1)
  {
    var records' := records[MemoryKey(r) := pages[r.pageNo].slots[r.slotNo]];
    SmallKey(r, cap);
    forall q: Rid | Holds(pages, cap, bitmapSize, q) && Earlier(q, r.pageNo, r.slotNo + 1)
      ensures MemoryKey(q) in records' && records'[MemoryKey(q)] == pages[q.pageNo].slots[q.slotNo]
    {
      SmallKey(q, cap);
    }
  }

  lemma SlotSkipped(pages: Pages, cap: nat, bitmapSize: nat, records: map<int, Bytes>, r: Rid)
    requires !Holds(pages, cap, bitmapSize, r) && MapsUpTo(pages, cap, bitmapSize, records, r.pageNo, r.slotNo)
    ensures MapsUpTo(pages, cap, bitmapSize, records, r.pageNo, r.slotNo + 1)
  {
    forall q: Rid | Holds(pages, cap, bitmapSize, q) && Earlier(q, r.pageNo, r.slotNo + 1)
      ensures Earlier(q, r.pageNo, r.slotNo)
    {
      assert q != r;
    }
  }
}
