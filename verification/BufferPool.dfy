/** One shard of the buffer pool: frames, page table, free list and replacer
    (src/storage/buffer_pool_manager.cpp), above a disk of pages. */
module BufferPool {
  import opened Common
  import opened LruReplacer

  const INVALID_PAGE_ID: int := -1

  datatype PageId = PageId(fd: int, pageNo: int)

  /** The bytes of a page; the first four are its LSN. */
  datatype Data = Data(lsn: int, bytes: seq<int>)

  /** Page::reset_memory. */
  const BLANK := Data(INVALID_LSN, [])

  datatype Frame = Frame(id: PageId, data: Data, dirty: bool, pins: int)

  /** The state of a shard and of the disk below it. `unmarked` are the cached pages that a client changed and has not
      marked dirty since. */
  datatype Cache = Cache(table: map<PageId, int>, free: seq<int>, frames: map<int, Frame>, lru: seq<int>,
                         disk: map<PageId, Data>, unmarked: set<PageId>)

  /** Pages never written read as blank. */
  function OnDisk(disk: map<PageId, Data>, p: PageId): Data
  {
    if p in disk then disk[p] else BLANK
  }

  /** What a reader of page p sees: the frame if the page is cached, else the disk. */
  function Seen(c: Cache, p: PageId): Data
  {
    if p in c.table && c.table[p] in c.frames then c.frames[c.table[p]].data else OnDisk(c.disk, p)
  }

  function Pins(c: Cache, p: PageId): int
  {
    if p in c.table && c.table[p] in c.frames then c.frames[c.table[p]].pins else 0
  }

  predicate Dirty(c: Cache, p: PageId)
  {
    p in c.table && c.table[p] in c.frames && c.frames[c.table[p]].dirty
  }

  /** The page was changed, is not marked dirty, and nobody holds it any more: its change lasts only as long as it stays
      in the cache. */
  predicate Forgotten(c: Cache, p: PageId)
  {
    p in c.unmarked && Pins(c, p) == 0 && !Dirty(c, p)
  }

  /** A clean unpin would be the last one of a page with an unmarked change. */
  predicate WouldForget(c: Cache, p: PageId)
  {
    p in c.unmarked && Pins(c, p) == 1 && !Dirty(c, p)
  }

  // ---------- the invariant ----------

  ghost predicate Cached(c: Cache, p: PageId)
    requires p in c.table
  {
    p.pageNo != INVALID_PAGE_ID && c.table[p] in c.frames && c.frames[c.table[p]].id == p
  }

  ghost predicate IsMapped(c: Cache, f: int)
    requires f in c.frames
  {
    c.frames[f].id in c.table && c.table[c.frames[f].id] == f
  }

  ghost predicate IsBlankFrame(c: Cache, f: int)
  {
    f in c.frames && c.frames[f].id.pageNo == INVALID_PAGE_ID && c.frames[f].pins == 0 && !c.frames[f].dirty
  }

  /** Each frame is either free or holds one page of the table; no page has two frames. */
  ghost predicate Partition(c: Cache)
  {
    && (forall p {:trigger Cached(c, p)} :: p in c.table ==> Cached(c, p))
    && NoDuplicates(c.free)
    && (forall f {:trigger IsBlankFrame(c, f)} :: f in c.free ==> IsBlankFrame(c, f))
    && (forall f {:trigger IsMapped(c, f)} :: f in c.frames ==> f in c.free || IsMapped(c, f))
    && (forall f <- c.frames :: 0 <= c.frames[f].pins)
  }

  /** The replacer lists every unpinned page; frames of deleted pages may linger in it while they are free. */
  ghost predicate ReplacerOk(c: Cache)
  {
    && (forall f <- c.lru :: f in c.frames && c.frames[f].pins == 0)
    && (forall f <- c.frames :: f !in c.free && c.frames[f].pins == 0 ==> f in c.lru)
  }

  /** A page that is neither dirty nor waiting to be marked dirty equals its disk image. */
  ghost predicate CleanOk(c: Cache)
  {
    && (forall p {:trigger Seen(c, p)} ::
          p in c.table && p !in c.unmarked && c.table[p] in c.frames && !c.frames[c.table[p]].dirty ==>
            Seen(c, p) == OnDisk(c.disk, p))
    && (forall p <- c.unmarked :: p in c.table)
  }

  ghost predicate Ok(c: Cache)
  {
    Partition(c) && ReplacerOk(c) && CleanOk(c)
  }

  ghost predicate AllPinned(c: Cache)
  {
    forall f <- c.frames :: 0 < c.frames[f].pins
  }

  /** The page looks the same and has its pins, except that a forgotten page that has left the cache shows its disk
      image. */
  ghost predicate Kept(c: Cache, c': Cache, q: PageId)
  {
    && Pins(c', q) == Pins(c, q) && Dirty(c', q) == (Dirty(c, q) && q in c'.table)
    && Seen(c', q) == (if Forgotten(c, q) && q !in c'.table then OnDisk(c.disk, q) else Seen(c, q))
    && (q in c'.unmarked <==> q in c.unmarked && q in c'.table)
  }

  /** Every page but p is kept; the disk changes only under pages that were cached. */
  ghost predicate OnlyPage(c: Cache, c': Cache, p: PageId)
  {
    && c'.frames.Keys == c.frames.Keys && c'.table.Keys <= c.table.Keys + {p}
    && (forall q {:trigger Kept(c, c', q)} {:trigger Seen(c', q)} {:trigger Pins(c', q)} :: q != p ==> Kept(c, c', q))
    && (forall q :: q !in c.table ==> OnDisk(c'.disk, q) == OnDisk(c.disk, q))
  }

  ghost predicate SamePages(c: Cache, c': Cache)
  {
    forall q :: Seen(c', q) == Seen(c, q) && Pins(c', q) == Pins(c, q)
  }

  /** The pages of the file in this shard have reached the disk, and no page changed. */
  ghost predicate FlushedAll(c: Cache, fd: int, c': Cache)
  {
    && c'.table == c.table && SamePages(c, c')
    && (forall q :: q !in c.table ==> OnDisk(c'.disk, q) == OnDisk(c.disk, q))
    && (forall q <- c.table :: q.fd == fd ==> OnDisk(c'.disk, q) == Seen(c, q))
    && (forall q :: q in c'.unmarked <==> q in c.unmarked && q.fd != fd)
    && (forall q :: Forgotten(c', q) ==> Forgotten(c, q))
  }

  lemma NoPageTwice(c: Cache, p: PageId, q: PageId)
    requires Partition(c) && p in c.table && q in c.table && c.table[p] == c.table[q]
    ensures p == q
  {
    assert Cached(c, p) && Cached(c, q);
  }

  // ---------- the operations, on values ----------

  /** The victim: the last free frame, or a mapped unpinned frame when no frame is free. */
  ghost predicate Victim(c: Cache, f: int, free': seq<int>)
  {
    f in c.frames && c.frames[f].pins == 0 && (c.free == free' + [f] || (c.free == [] == free' && IsMapped(c, f)))
  }

  /** The victim is written back if dirty and handed to page p, loaded or blank, with one pin. */
  function Claimed(c: Cache, f: int, free': seq<int>, lru': seq<int>, p: PageId, load: bool): Cache
    requires f in c.frames
  {
    var old_ := c.frames[f];
    var disk' := if old_.dirty then c.disk[old_.id := old_.data] else c.disk;
    Cache((c.table - {old_.id})[p := f], free',
          c.frames[f := Frame(p, if load then OnDisk(disk', p) else BLANK, false, 1)], lru', disk',
          if load then c.unmarked - {old_.id} else c.unmarked - {old_.id} + {p})
  }

  lemma ClaimKeepsPartition(c: Cache, f: int, free': seq<int>, lru': seq<int>, p: PageId, load: bool)
    requires Ok(c) && Victim(c, f, free') && p !in c.table && p.pageNo != INVALID_PAGE_ID
    requires forall g :: g in lru' <==> g in c.lru && g != f
    ensures Partition(Claimed(c, f, free', lru', p, load)) && ReplacerOk(Claimed(c, f, free', lru', p, load))
  {
    var c' := Claimed(c, f, free', lru', p, load);
    assert forall i :: 0 <= i < |free'| ==> free'[i] == c.free[i];
    assert c.free != [] ==> c.free[|free'|] == f;
    assert f !in free';
    var e := c.frames[f].id;
    if e in c.table { assert Cached(c, e); }
    if f in c.free { assert IsBlankFrame(c, f); }
    forall q | q in c'.table ensures Cached(c', q) {
      if q != p { assert Cached(c, q); }
    }
    forall g | g in free' ensures IsBlankFrame(c', g) { assert g in c.free; assert IsBlankFrame(c, g); }
    forall g | g in c'.frames ensures g in free' || IsMapped(c', g) {
      assert g != f ==> g in c.free || IsMapped(c, g);
      if g != f && g in c.free { assert g in free'; }
    }
    forall g | g in c'.frames && g !in free' && c'.frames[g].pins == 0 ensures g in lru' {
      assert g !in c.free;
    }
  }

  lemma ClaimKeepsView(c: Cache, f: int, free': seq<int>, lru': seq<int>, p: PageId, load: bool)
    requires Ok(c) && Victim(c, f, free') && p !in c.table && p.pageNo != INVALID_PAGE_ID
    ensures var c' := Claimed(c, f, free', lru', p, load);
            && OnlyPage(c, c', p) && CleanOk(c')
            && c'.table[p] == f && Pins(c', p) == 1 && Seen(c', p) == if load then Seen(c, p) else BLANK
  {
    var c' := Claimed(c, f, free', lru', p, load);
    var e := c.frames[f].id;
    if e in c.table { assert Cached(c, e); }
    if f in c.free { assert IsBlankFrame(c, f); }
    forall q | q != p ensures Kept(c, c', q) {
      if q in c.table {
        assert Cached(c, q);
        assert q == e && IsMapped(c, f) ==> c.table[q] == f;
      }
    }
    forall q | q in c'.table && q !in c'.unmarked && c'.table[q] in c'.frames && !c'.frames[c'.table[q]].dirty
      ensures Seen(c', q) == OnDisk(c'.disk, q)
    {
      if q != p { assert Cached(c, q); assert Seen(c, q) == Seen(c', q); }
    }
  }

  lemma CachedPage(c: Cache, p: PageId)
    requires Ok(c) && p in c.table
    ensures Cached(c, p) && c.table[p] !in c.free && 0 <= c.frames[c.table[p]].pins
    ensures c.table[p] in c.lru <==> c.frames[c.table[p]].pins == 0
    ensures p !in c.unmarked && !c.frames[c.table[p]].dirty ==> c.frames[c.table[p]].data == OnDisk(c.disk, p)
  {
    assert Cached(c, p);
    var f: int := c.table[p];
    assert f in c.free ==> IsBlankFrame(c, f);
    assert f in c.frames && 0 <= c.frames[f].pins;
    assert f in c.lru <==> c.frames[f].pins == 0;
    assert Seen(c, p) == c.frames[f].data;
  }

  /** A frame of page p changes without changing owner. */
  lemma FrameUpdateKeeps(c: Cache, p: PageId, n: Frame, lru': seq<int>, disk': map<PageId, Data>,
                         unmarked': set<PageId>)
    requires Ok(c) && p in c.table && c.table[p] in c.frames && n.id == p && 0 <= n.pins
    requires forall g :: g != c.table[p] ==> (g in lru' <==> g in c.lru)
    requires c.table[p] in lru' <==> n.pins == 0
    requires disk' == c.disk || disk' == c.disk[p := n.data]
    requires forall q :: q != p ==> (q in unmarked' <==> q in c.unmarked)
    requires p !in unmarked' && !n.dirty ==> n.data == OnDisk(disk', p)
    ensures var c' := c.(frames := c.frames[c.table[p] := n], lru := lru', disk := disk', unmarked := unmarked');
            Ok(c') && OnlyPage(c, c', p) && Seen(c', p) == n.data && Pins(c', p) == n.pins && Dirty(c', p) == n.dirty
  {
    var f := c.table[p];
    var c' := c.(frames := c.frames[f := n], lru := lru', disk := disk', unmarked := unmarked');
    assert Cached(c, p);
    forall q | q in c.table ensures Cached(c', q) && (q != p ==> c.table[q] != f) {
      assert Cached(c, q);
    }
    forall g | g in c.free ensures IsBlankFrame(c', g) { assert IsBlankFrame(c, g); }
    forall g | g in c'.frames ensures g in c'.free || IsMapped(c', g) { assert g in c.free || IsMapped(c, g); }
    forall q | q != p ensures Kept(c, c', q) {}
    forall q | q in c'.table && q !in c'.unmarked && c'.table[q] in c'.frames && !c'.frames[c'.table[q]].dirty
      ensures Seen(c', q) == OnDisk(c'.disk, q)
    {
      assert Seen(c, q) == Seen(c', q) || q == p;
    }
  }

  /** fetch_page on a cached page. */
  function Fetched(c: Cache, p: PageId): Cache
    requires p in c.table && c.table[p] in c.frames
  {
    var f := c.table[p];
    var n := c.frames[f];
    c.(frames := c.frames[f := n.(pins := n.pins + 1)], lru := if n.pins == 0 then Without(c.lru, f) else c.lru)
  }

  lemma FetchKeeps(c: Cache, p: PageId)
    requires Ok(c) && p in c.table && c.table[p] in c.frames && NoDuplicates(c.lru)
    ensures var c' := Fetched(c, p);
            && Ok(c') && OnlyPage(c, c', p) && Seen(c', p) == Seen(c, p) && Pins(c', p) == Pins(c, p) + 1
            && Dirty(c', p) == Dirty(c, p)
  {
    var c' := Fetched(c, p);
    CachedPage(c, p);
    var f: int := c.table[p];
    WithoutElements(c.lru, f);
    FrameUpdateKeeps(c, p, c'.frames[f], c'.lru, c.disk, c.unmarked);
  }

  /** unpin_page on a pinned page. */
  function Unpinned(c: Cache, p: PageId, isDirty: bool): Cache
    requires p in c.table && c.table[p] in c.frames
  {
    var f := c.table[p];
    var n := c.frames[f].(pins := c.frames[f].pins - 1, dirty := c.frames[f].dirty || isDirty);
    c.(frames := c.frames[f := n],
       lru := if n.pins == 0 && f !in c.lru then [f] + c.lru else c.lru,
       unmarked := if isDirty then c.unmarked - {p} else c.unmarked)
  }

  lemma UnpinKeeps(c: Cache, p: PageId, isDirty: bool)
    requires Ok(c) && p in c.table && c.table[p] in c.frames && 0 < Pins(c, p)
    ensures var c' := Unpinned(c, p, isDirty);
            && Ok(c') && OnlyPage(c, c', p) && Seen(c', p) == Seen(c, p) && Pins(c', p) == Pins(c, p) - 1
            && Dirty(c', p) == (Dirty(c, p) || isDirty)
  {
    var c' := Unpinned(c, p, isDirty);
    CachedPage(c, p);
    var f: int := c.table[p];
    FrameUpdateKeeps(c, p, c'.frames[f], c'.lru, c.disk, c'.unmarked);
  }

  /** delete_page: the frame becomes free, and its place in the replacer's list stays. */
  function Deleted(c: Cache, p: PageId): Cache
    requires p in c.table && c.table[p] in c.frames
  {
    var f := c.table[p];
    var page := c.frames[f];
    Cache(c.table - {p}, c.free + [f], c.frames[f := Frame(PageId(page.id.fd, INVALID_PAGE_ID), BLANK, false, 0)],
          c.lru, if page.dirty then c.disk[p := page.data] else c.disk, c.unmarked - {p})
  }

  lemma DeleteKeeps(c: Cache, p: PageId)
    requires Ok(c) && p in c.table && c.table[p] in c.frames && c.frames[c.table[p]].pins == 0
    ensures Ok(Deleted(c, p)) && OnlyPage(c, Deleted(c, p), p)
    ensures Seen(Deleted(c, p), p) == if Forgotten(c, p) then OnDisk(c.disk, p) else Seen(c, p)
  {
    var c' := Deleted(c, p);
    var f := c.table[p];
    assert Cached(c, p);
    assert Pins(c, p) == 0 && Seen(c, p) == c.frames[f].data;
    assert f in c.free ==> IsBlankFrame(c, f);
    forall q | q in c'.table ensures Cached(c', q) && c.table[q] != f { assert Cached(c, q); }
    forall g | g in c'.free ensures IsBlankFrame(c', g) { if g != f { assert IsBlankFrame(c, g); } }
    forall g | g in c'.frames ensures g in c'.free || IsMapped(c', g) {
      assert g in c.free || IsMapped(c, g);
    }
    forall q | q != p ensures Kept(c, c', q) {
      if q in c.table { assert Cached(c, q); }
    }
    forall q | q in c'.table && q !in c'.unmarked && c'.table[q] in c'.frames && !c'.frames[c'.table[q]].dirty
      ensures Seen(c', q) == OnDisk(c'.disk, q)
    {
      assert Seen(c, q) == Seen(c', q);
    }
  }

  // ---------- the shard ----------

  class Disk {
    var pages: map<PageId, Data>

    constructor ()
      ensures pages == map[]
    {
      pages := map[];
    }
  }

  class Shard {
    var table: map<PageId, int>
    var free: seq<int>
    var frames: map<int, Frame>
    const lru: Replacer
    const disk: Disk
    ghost var unmarked: set<PageId>

    ghost function Now(): Cache
      reads this, lru, disk
    {
      Cache(table, free, frames, lru.lruList, disk.pages, unmarked)
    }

    /** The replacer knows every frame. */
    ghost predicate Wired()
      reads this, lru
    {
      lru.Valid() && forall f <- frames :: 0 <= f < |lru.isPinned|
    }

    ghost predicate Valid()
      reads this, lru, disk
    {
      Wired() && Ok(Now())
    }

    /** A shard over the given frames, all of them free. */
    constructor (frameIds: seq<int>, poolSize: nat, dataFiles: Disk)
      requires NoDuplicates(frameIds) && forall f <- frameIds :: 0 <= f < poolSize
      ensures Valid() && disk == dataFiles && fresh(lru) && free == frameIds && table == map[] && unmarked == {}
      ensures frames.Keys == set f <- frameIds
    {
      table, free, disk, unmarked := map[], frameIds, dataFiles, {};
      frames := map f <- frameIds :: Frame(PageId(0, INVALID_PAGE_ID), BLANK, false, 0);
      lru := new Replacer(poolSize);
    }

    /** find_victim_page: the last free frame, else the least recently released one. A frame that lingers in the
        replacer after delete_page is free, so the replacer is asked only when it lists mapped frames alone. */
    method FindVictimPage() returns (found: bool, f: int)
      requires Valid()
      modifies this`free, lru
      ensures lru.Valid() && |lru.isPinned| == old(|lru.isPinned|)
      ensures found <==> !old(AllPinned(Now()))
      ensures !found ==> Now() == old(Now())
      ensures found ==> Victim(old(Now()), f, free)
      ensures found && old(free) != [] ==> lru.lruList == old(lru.lruList)
      ensures found && old(free) == [] ==> old(lru.lruList) == lru.lruList + [f]
    {
      ghost var c := Now();
      if free != [] {
        f := free[|free| - 1];
        assert f in free && IsBlankFrame(c, f);
        free := free[..|free| - 1];
        return true, f;
      }
      found, f := lru.Victim();
      if found {
        assert f in c.lru;
        assert IsMapped(c, f);
      } else {
        forall g | g in frames ensures 0 < frames[g].pins { assert g !in c.lru; }
      }
    }

    /** update_page: write the old page back if dirty, then give the frame to the new page. */
    method UpdatePage(f: int, p: PageId)
      requires f in frames
      modifies this`table, this`frames, disk
      ensures disk.pages == if old(frames[f].dirty) then old(disk.pages)[old(frames[f].id) := old(frames[f].data)]
                else old(disk.pages)
      ensures table == (old(table) - {old(frames[f].id)})[p := f]
      ensures frames == old(frames)[f := Frame(p, BLANK, false, 0)]
    {
      var page := frames[f];
      if page.dirty {
        disk.pages := disk.pages[page.id := page.data];
      }
      table := table - {page.id};
      table := table[p := f];
      frames := frames[f := Frame(p, BLANK, false, 0)];
    }

    /** The victim frame becomes page p, with one pin. */
    method TakeOver(f: int, p: PageId, load: bool)
      requires f in frames && lru.Valid() && 0 <= f < |lru.isPinned|
      modifies this`table, this`frames, this`unmarked, lru, disk
      ensures lru.Valid() && |lru.isPinned| == old(|lru.isPinned|)
      ensures Now() == Claimed(old(Now()), f, free, Without(old(lru.lruList), f), p, load)
    {
      ghost var c := Now();
      unmarked := unmarked - {frames[f].id};
      UpdatePage(f, p);
      if load {
        frames := frames[f := frames[f].(data := OnDisk(disk.pages, p))];
      } else {
        unmarked := unmarked + {p};
      }
      frames := frames[f := frames[f].(pins := 1)];
      assert frames == Claimed(c, f, free, lru.lruList, p, load).frames;
      lru.Pin(f);
    }

    /** The common part of fetch_page and new_page_at for a page that is not cached. */
    method Claim(p: PageId, load: bool) returns (found: bool)
      requires Valid() && p !in table && p.pageNo != INVALID_PAGE_ID
      modifies this, lru, disk
      ensures Valid() && OnlyPage(old(Now()), Now(), p)
      ensures found <==> !old(AllPinned(Now()))
      ensures !found ==> Now() == old(Now())
      ensures found ==> p in table && Pins(Now(), p) == 1
      ensures found ==> Seen(Now(), p) == if load then old(Seen(Now(), p)) else BLANK
      ensures found ==> (p in unmarked <==> !load) && !Dirty(Now(), p)
    {
      ghost var c := Now();
      var f;
      found, f := FindVictimPage();
      if found {
        ghost var lru' := ClaimOk(c, f, free, lru.lruList, p, load);
        TakeOver(f, p, load);
        assert Now() == Claimed(c, f, free, lru', p, load);
      }
    }

    /** fetch_page: fails exactly when the page is not cached and every frame is pinned. */
    method FetchPage(p: PageId) returns (ok: bool)
      requires Valid() && p.pageNo != INVALID_PAGE_ID
      modifies this, lru, disk
      ensures Valid() && OnlyPage(old(Now()), Now(), p) && (p in unmarked <==> p in old(unmarked))
      ensures ok <==> p in old(table) || !old(AllPinned(Now()))
      ensures Seen(Now(), p) == old(Seen(Now(), p)) && Dirty(Now(), p) == old(Dirty(Now(), p))
      ensures ok ==> p in table && 0 < Pins(Now(), p) == old(Pins(Now(), p)) + 1
      ensures !ok ==> Now() == old(Now())
    {
      if p !in table {
        ok := Claim(p, true);
        return;
      }
      ghost var c := Now();
      CachedPage(c, p);
      var f := table[p];
      FetchKeeps(c, p);
      if frames[f].pins == 0 {
        lru.Pin(f);
      }
      frames := frames[f := frames[f].(pins := frames[f].pins + 1)];
      assert Now() == Fetched(c, p);
      ok := true;
    }

    /** unpin_page. A client that changed the page passes isDirty with the last pin, unless it marked the page;
        otherwise the change is forgotten. */
    method UnpinPage(p: PageId, isDirty: bool) returns (ok: bool)
      requires Valid()
      modifies this, lru
      ensures Valid() && OnlyPage(old(Now()), Now(), p) && Seen(Now(), p) == old(Seen(Now(), p))
      ensures ok <==> 0 < old(Pins(Now(), p))
      ensures Pins(Now(), p) == old(Pins(Now(), p)) - if ok then 1 else 0
      ensures p in unmarked <==> p in old(unmarked) && !(ok && isDirty)
      ensures Dirty(Now(), p) == (old(Dirty(Now(), p)) || (ok && isDirty)) && table == old(table)
    {
      ghost var c := Now();
      if p !in table {
        return false;
      }
      CachedPage(c, p);
      var f := table[p];
      if frames[f].pins == 0 {
        return false;
      }
      UnpinKeeps(c, p, isDirty);
      ReleasePin(p, f, isDirty);
      ok := true;
    }

    method ReleasePin(p: PageId, f: int, isDirty: bool)
      requires Wired() && p in table && table[p] == f && f in frames
      modifies this`frames, this`unmarked, lru
      ensures Wired() && Now() == Unpinned(old(Now()), p, isDirty)
    {
      frames := frames[f := frames[f].(pins := frames[f].pins - 1)];
      if frames[f].pins == 0 {
        lru.Unpin(f);
      }
      if isDirty {
        frames := frames[f := frames[f].(dirty := true)];
        unmarked := unmarked - {p};
      }
    }

    /** A client with a pin writes the page's bytes. */
    method WriteData(p: PageId, data: Data)
      requires Valid() && 0 < Pins(Now(), p)
      modifies this
      ensures Valid() && OnlyPage(old(Now()), Now(), p)
      ensures Seen(Now(), p) == data && Pins(Now(), p) == old(Pins(Now(), p)) && unmarked == old(unmarked) + {p}
      ensures Dirty(Now(), p) == old(Dirty(Now(), p)) && table == old(table)
    {
      CachedPage(Now(), p);
      var f := table[p];
      FrameUpdateKeeps(Now(), p, frames[f].(data := data), lru.lruList, disk.pages, unmarked + {p});
      frames := frames[f := frames[f].(data := data)];
      unmarked := unmarked + {p};
    }

    method MarkDirty(p: PageId)
      requires Valid() && 0 < Pins(Now(), p)
      modifies this
      ensures Valid() && OnlyPage(old(Now()), Now(), p)
      ensures Seen(Now(), p) == old(Seen(Now(), p)) && Pins(Now(), p) == old(Pins(Now(), p))
      ensures unmarked == old(unmarked) - {p} && Dirty(Now(), p) && table == old(table)
    {
      CachedPage(Now(), p);
      var f := table[p];
      FrameUpdateKeeps(Now(), p, frames[f].(dirty := true), lru.lruList, disk.pages, unmarked - {p});
      frames := frames[f := frames[f].(dirty := true)];
      unmarked := unmarked - {p};
    }

    /** flush_page: written back whether pinned or not. */
    method FlushPage(p: PageId) returns (ok: bool)
      requires Valid()
      modifies this, disk
      ensures Valid() && OnlyPage(old(Now()), Now(), p) && table == old(table)
      ensures Seen(Now(), p) == old(Seen(Now(), p)) && Pins(Now(), p) == old(Pins(Now(), p))
      ensures ok <==> p in old(table)
      ensures ok ==> OnDisk(disk.pages, p) == Seen(Now(), p) && unmarked == old(unmarked) - {p} && !Dirty(Now(), p)
      ensures !ok ==> Now() == old(Now())
      ensures forall q :: q != p ==> OnDisk(disk.pages, q) == old(OnDisk(disk.pages, q))
    {
      if p !in table {
        return false;
      }
      CachedPage(Now(), p);
      var f := table[p];
      FrameUpdateKeeps(Now(), p, frames[f].(dirty := false), lru.lruList, disk.pages[p := frames[f].data],
                       unmarked - {p});
      disk.pages := disk.pages[p := frames[f].data];
      frames := frames[f := frames[f].(dirty := false)];
      unmarked := unmarked - {p};
      ok := true;
    }

    /** The part of flush_all_pages in this shard: every cached page of the file reaches the disk, and no page
        changes. */
    method FlushAllPages(fd: int)
      requires Valid()
      modifies this, disk
      ensures Valid() && FlushedAll(old(Now()), fd, Now())
    {
      var todo := set q <- table | q.fd == fd;
      ghost var c := Now();
      while todo != {}
        invariant Valid() && table == old(table) && SamePages(c, Now())
        invariant forall q <- todo :: q.fd == fd && q in table
        invariant forall q :: q !in table ==> OnDisk(disk.pages, q) == OnDisk(c.disk, q)
        invariant forall q <- table :: q.fd == fd && q !in todo ==> OnDisk(disk.pages, q) == Seen(c, q)
        invariant forall q :: q in unmarked <==> q in c.unmarked && (q in todo || q.fd != fd)
        invariant forall q :: Forgotten(Now(), q) ==> Forgotten(c, q)
        decreases todo
      {
        var p :| p in todo;
        var _ := FlushPage(p);
        todo := todo - {p};
      }
    }

    /** new_page_at: a blank page that the client still has to mark dirty. */
    method NewPageAt(p: PageId) returns (ok: bool)
      requires Valid() && p.pageNo != INVALID_PAGE_ID
      modifies this, lru, disk
      ensures Valid() && OnlyPage(old(Now()), Now(), p)
      ensures ok <==> p !in old(table) && !old(AllPinned(Now()))
      ensures ok ==> p in table && Pins(Now(), p) == 1 && Seen(Now(), p) == BLANK
      ensures ok ==> p in unmarked && !Dirty(Now(), p)
      ensures !ok ==> Now() == old(Now())
    {
      if p in table {
        return false;
      }
      ok := Claim(p, false);
    }

    /** delete_page: the page leaves the cache with its bytes safe on disk, unless its change was forgotten; a pinned
        page stays. */
    method DeletePage(p: PageId) returns (ok: bool)
      requires Valid()
      modifies this, disk
      ensures Valid() && OnlyPage(old(Now()), Now(), p)
      ensures Seen(Now(), p) == old(if Forgotten(Now(), p) then OnDisk(disk.pages, p) else Seen(Now(), p))
      ensures ok <==> old(Pins(Now(), p)) == 0
      ensures ok ==> p !in table
      ensures !ok ==> Now() == old(Now())
    {
      if p !in table {
        return true;
      }
      CachedPage(Now(), p);
      var f := table[p];
      if frames[f].pins != 0 {
        return false;
      }
      DeleteKeeps(Now(), p);
      var page := frames[f];
      if page.dirty {
        disk.pages := disk.pages[p := page.data];
      }
      frames := frames[f := Frame(PageId(page.id.fd, INVALID_PAGE_ID), BLANK, false, 0)];
      table := table - {p};
      free := free + [f];
      unmarked := unmarked - {p};
      ok := true;
    }
  }

  lemma ClaimOk(c: Cache, f: int, free': seq<int>, rest: seq<int>, p: PageId, load: bool) returns (lru': seq<int>)
    requires Ok(c) && Victim(c, f, free') && p !in c.table && p.pageNo != INVALID_PAGE_ID
    requires NoDuplicates(c.lru) && (c.lru == rest || c.lru == rest + [f])
    ensures lru' == Without(rest, f)
    ensures var c' := Claimed(c, f, free', lru', p, load);
            && Ok(c') && OnlyPage(c, c', p) && p in c'.table && Pins(c', p) == 1 && !Dirty(c', p)
            && Seen(c', p) == if load then Seen(c, p) else BLANK
  {
    lru' := Without(rest, f);
    assert NoDuplicates(rest) by { assert forall i :: 0 <= i < |rest| ==> rest[i] == c.lru[i]; }
    WithoutElements(rest, f);
    assert forall g :: g != f ==> (g in rest <==> g in c.lru);
    ClaimKeepsPartition(c, f, free', lru', p, load);
    ClaimKeepsView(c, f, free', lru', p, load);
  }
}
