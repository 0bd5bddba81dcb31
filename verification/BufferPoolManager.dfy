/** The sharded buffer pool: pages are spread over shards by a hash of their id, frames by their number. */
module BufferPoolManager {
  import opened Common
  import opened BufferPool

  /** choose_shard_count */
  function ChooseShardCount(poolSize: nat): (n: nat)
    ensures n > 0 && (n == 1 || poolSize / n >= 128) && (poolSize >= 1024 ==> n >= 8) && (poolSize >= 8192 ==> n >= 32)
  {
    if poolSize < 1024 then 1 else if poolSize < 8192 then 8 else 32
  }

  /** PageIdHash: (fd << 16) | page_no, as an unsigned number. */
  function Hash(p: PageId): nat
  {
    if 0 <= p.fd < 0x1_0000 && 0 <= p.pageNo < 0x1_0000_0000 then
      (((p.fd as bv64) << 16) | (p.pageNo as bv64)) as nat
    else 0
  }

  function ShardIndex(p: PageId, count: nat): (i: nat)
    requires count > 0
    ensures i < count
  {
    Hash(p) % count
  }

  /** The frame numbers that the constructor hands to shard i of n. */
  function FramesFor(size: nat, n: nat, i: nat): (r: seq<int>)
    requires 0 < n
  {
    if size == 0 then [] else FramesFor(size - 1, n, i) + if (size - 1) % n == i then [size - 1] else []
  }

  /** Every frame number goes to exactly one shard, once. */
  lemma {:induction false} FramesSpread(size: nat, n: nat, i: nat)
    requires 0 < n
    ensures NoDuplicates(FramesFor(size, n, i))
    ensures forall f :: f in FramesFor(size, n, i) <==> 0 <= f < size && f % n == i
  {
    if size > 0 {
      FramesSpread(size - 1, n, i);
      var r := FramesFor(size - 1, n, i);
      forall k | 0 <= k < |r| ensures r[k] < size - 1 { assert r[k] in r; }
    }
  }

  /** No shard of a pool with frames is left without one, so every page can be cached. */
  lemma EveryShardHasFrames(poolSize: nat, i: nat)
    requires 0 < poolSize && i < ChooseShardCount(poolSize)
    ensures FramesFor(poolSize, ChooseShardCount(poolSize), i) != []
  {
    FramesSpread(poolSize, ChooseShardCount(poolSize), i);
    assert i in FramesFor(poolSize, ChooseShardCount(poolSize), i);
  }

  /** A change of the disk under pages that this shard does not cache. */
  lemma DiskElsewhere(c: Cache, disk': map<PageId, Data>)
    requires Ok(c) && forall q <- c.table :: OnDisk(disk', q) == OnDisk(c.disk, q)
    ensures Ok(c.(disk := disk'))
  {
    var c' := c.(disk := disk');
    forall p | p in c'.table ensures Cached(c', p) { assert Cached(c, p); }
    forall f | f in c'.free ensures IsBlankFrame(c', f) { assert IsBlankFrame(c, f); }
    forall f | f in c'.frames ensures f in c'.free || IsMapped(c', f) { assert f in c.free || IsMapped(c, f); }
    forall p | p in c'.table && p !in c'.unmarked && c'.table[p] in c'.frames && !c'.frames[c'.table[p]].dirty
      ensures Seen(c', p) == OnDisk(c'.disk, p)
    {
      assert Seen(c, p) == OnDisk(c.disk, p);
    }
  }

  /** A change of shard i under the pages it caches keeps another shard j sound and every page that shard j serves. */
  lemma ShardsIndependent(c: Cache, c': Cache, other: Cache, n: nat, i: nat, j: nat)
    requires 0 < n && i != j
    requires (forall q <- c.table :: ShardIndex(q, n) == i) && (forall q <- other.table :: ShardIndex(q, n) == j)
    requires forall q :: q !in c.table ==> OnDisk(c'.disk, q) == OnDisk(c.disk, q)
    requires Ok(other) && other.disk == c.disk
    ensures Ok(other.(disk := c'.disk))
    ensures forall q :: ShardIndex(q, n) == j ==> Seen(other.(disk := c'.disk), q) == Seen(other, q)
  {
    DiskElsewhere(other, c'.disk);
  }

  // ---------- the whole pool ----------

  /** Sound shards over one disk, each caching only pages of its own. */
  ghost predicate PoolOk(shards: seq<Cache>)
  {
    && 0 < |shards|
    && (forall i :: 0 <= i < |shards| ==> Ok(shards[i]) && shards[i].disk == shards[0].disk)
    && (forall i :: 0 <= i < |shards| ==> forall q <- shards[i].table :: ShardIndex(q, |shards|) == i)
  }

  /** What a fetch of page q from the pool would show. */
  ghost function PoolSeen(shards: seq<Cache>, q: PageId): Data
    requires 0 < |shards|
  {
    Seen(shards[ShardIndex(q, |shards|)], q)
  }

  ghost predicate PoolForgotten(shards: seq<Cache>, q: PageId)
    requires 0 < |shards|
  {
    Forgotten(shards[ShardIndex(q, |shards|)], q)
  }

  /** The pool after shard i has become c: the others see the changed disk. */
  ghost function WithShard(shards: seq<Cache>, i: nat, c: Cache): seq<Cache>
    requires i < |shards|
  {
    seq(|shards|, j requires 0 <= j < |shards| => if j == i then c else shards[j].(disk := c.disk))
  }

  /** Shard j is sound, caches only its own pages, and shows them as before. */
  ghost predicate ShardKept(shards: seq<Cache>, shards': seq<Cache>, j: int)
    requires 0 <= j < |shards| == |shards'|
  {
    && Ok(shards'[j])
    && (forall q <- shards'[j].table :: ShardIndex(q, |shards|) == j)
    && (forall q :: ShardIndex(q, |shards|) == j ==> Seen(shards'[j], q) == Seen(shards[j], q))
  }

  /** A change of one shard keeps the whole pool sound, and no page of another shard shows anything new. */
  lemma PoolChange(shards: seq<Cache>, i: nat, c: Cache)
    requires PoolOk(shards) && Ok(c) && i < |shards|
    requires forall q <- c.table :: ShardIndex(q, |shards|) == i
    requires forall q :: q !in shards[i].table ==> OnDisk(c.disk, q) == OnDisk(shards[i].disk, q)
    ensures PoolOk(WithShard(shards, i, c))
    ensures forall q :: ShardIndex(q, |shards|) != i ==>
              && PoolSeen(WithShard(shards, i, c), q) == PoolSeen(shards, q)
              && PoolForgotten(WithShard(shards, i, c), q) == PoolForgotten(shards, q)
  {
    var shards' := WithShard(shards, i, c);
    forall j | 0 <= j < |shards| && j != i ensures ShardKept(shards, shards', j) {
      ShardsIndependent(shards[i], c, shards[j], |shards|, i, j);
    }
    KeptPool(shards, shards', i);
    forall q | ShardIndex(q, |shards|) != i ensures PoolForgotten(shards', q) == PoolForgotten(shards, q) {}
  }

  lemma KeptPool(shards: seq<Cache>, shards': seq<Cache>, i: nat)
    requires 0 < |shards| == |shards'| && forall j :: 0 <= j < |shards| && j != i ==> ShardKept(shards, shards', j)
    requires i < |shards| && Ok(shards'[i]) && forall q <- shards'[i].table :: ShardIndex(q, |shards|) == i
    requires forall j :: 0 <= j < |shards'| ==> shards'[j].disk == shards'[0].disk
    ensures PoolOk(shards')
    ensures forall q :: ShardIndex(q, |shards|) != i ==> PoolSeen(shards', q) == PoolSeen(shards, q)
  {
    forall j | 0 <= j < |shards'|
      ensures Ok(shards'[j]) && forall q <- shards'[j].table :: ShardIndex(q, |shards'|) == j
    {
      if j != i { assert ShardKept(shards, shards', j); }
    }
    forall q | ShardIndex(q, |shards|) != i ensures PoolSeen(shards', q) == PoolSeen(shards, q) {
      assert ShardKept(shards, shards', ShardIndex(q, |shards|));
    }
  }

  lemma OwnShard(c: Cache, c': Cache, p: PageId, n: nat)
    requires 0 < n && OnlyPage(c, c', p) && forall q <- c.table :: ShardIndex(q, n) == ShardIndex(p, n)
    ensures forall q <- c'.table :: ShardIndex(q, n) == ShardIndex(p, n)
  {
    forall q <- c'.table ensures q in c.table || q == p {}
  }

  /** An operation on page p in its shard keeps the whole pool sound, and no other page shows anything new. */
  lemma PoolStep(shards: seq<Cache>, p: PageId, c: Cache)
    requires PoolOk(shards) && Ok(c) && OnlyPage(shards[ShardIndex(p, |shards|)], c, p)
    ensures var shards' := WithShard(shards, ShardIndex(p, |shards|), c);
            && PoolOk(shards') && PoolSeen(shards', p) == Seen(c, p)
            && forall q :: q != p && !PoolForgotten(shards, q) ==>
                 PoolSeen(shards', q) == PoolSeen(shards, q) && !PoolForgotten(shards', q)
  {
    var i := ShardIndex(p, |shards|);
    OwnShard(shards[i], c, p, |shards|);
    PoolChange(shards, i, c);
  }

  // ---------- what each operation does ----------

  datatype Op =
    | Fetch(p: PageId)
    | Unpin(p: PageId, isDirty: bool)
    | Write(p: PageId, data: Data)      // a client with a pin changes the page's bytes
    | Mark(p: PageId)                   // mark_dirty
    | Flush(p: PageId)
    | FlushAll(fd: int)
    | New(p: PageId)
    | Delete(p: PageId)

  /** The operation is a clean last unpin of a page with an unmarked change: the one thing that clients must not do if
      they want the page's changes to last. */
  predicate Forgets(c: Cache, op: Op)
  {
    op.Unpin? && !op.isDirty && WouldForget(c, op.p)
  }

  ghost predicate Succeeds(c: Cache, op: Op)
  {
    match op
    case Fetch(p) => p in c.table || !AllPinned(c)
    case New(p) => p !in c.table && !AllPinned(c)
    case Flush(p) => p in c.table
    case Delete(p) => Pins(c, p) == 0
    case FlushAll(_) => true
    case _ => 0 < Pins(c, op.p)
  }

  /** What the operation leaves in its page. */
  function Stored(op: Op, ok: bool, before: Data): Data
  {
    if !ok then before else match op
      case New(_) => BLANK
      case Write(_, data) => data
      case _ => before
  }

  function PinChange(op: Op, ok: bool): int
  {
    if !ok then 0 else match op
      case Fetch(_) => 1
      case New(_) => 1
      case Unpin(_, _) => -1
      case _ => 0
  }

  /** Whether the page then has an unmarked change. */
  predicate HasChange(op: Op, ok: bool, before: bool)
  {
    if !ok then before else match op
      case Write(_, _) => true
      case New(_) => true
      case Unpin(_, isDirty) => before && !isDirty
      case Fetch(_) => before
      case _ => false
  }

  /** Whether the page is then marked dirty. */
  predicate IsDirty(op: Op, ok: bool, before: bool)
  {
    if !ok then before else match op
      case Mark(_) => true
      case Unpin(_, isDirty) => before || isDirty
      case Fetch(_) => before
      case Write(_, _) => before
      case _ => false
  }

  /** An operation on one page, as its shard shows it. */
  ghost predicate ShardEffect(c: Cache, op: Op, ok: bool, read: Data, c': Cache)
    requires !op.FlushAll?
  {
    && Ok(c') && OnlyPage(c, c', op.p) && (ok <==> Succeeds(c, op))
    && Seen(c', op.p) == (if op.Delete? && Forgotten(c, op.p) then OnDisk(c.disk, op.p)
                          else Stored(op, ok, Seen(c, op.p)))
    && Pins(c', op.p) == Pins(c, op.p) + PinChange(op, ok)
    && (op.p in c'.unmarked <==> HasChange(op, ok, op.p in c.unmarked))
    && Dirty(c', op.p) == IsDirty(op, ok, Dirty(c, op.p)) && (op.Unpin? || op.Write? || op.Mark? ==> c'.disk == c.disk)
    && (op.Fetch? && ok ==> read == Seen(c, op.p))
    && (op.p in c'.table <==> if ok && (op.Fetch? || op.New?) then true else op.p in c.table && !(ok && op.Delete?))
  }

  method Step(s: Shard, op: Op) returns (ok: bool, read: Data)
    requires s.Valid() && !op.FlushAll? && op.p.pageNo != INVALID_PAGE_ID
    modifies s, s.lru, s.disk
    ensures s.Valid() && ShardEffect(old(s.Now()), op, ok, read, s.Now())
  {
    read := BLANK;
    match op {
      case Fetch(p) => ok, read := StepFetch(s, p);
      case Unpin(p, isDirty) => ok := StepUnpin(s, p, isDirty);
      case Write(p, data) => ok := StepWrite(s, p, data);
      case Mark(p) => ok := StepMark(s, p);
      case Flush(p) => ok := StepFlush(s, p);
      case New(p) => ok := StepNew(s, p);
      case Delete(p) => ok := StepDelete(s, p);
    }
  }

  method StepFetch(s: Shard, p: PageId) returns (ok: bool, read: Data)
    requires s.Valid() && p.pageNo != INVALID_PAGE_ID
    modifies s, s.lru, s.disk
    ensures s.Valid() && ShardEffect(old(s.Now()), Fetch(p), ok, read, s.Now())
  {
    read := BLANK;
    ok := s.FetchPage(p);
    if ok {
      CachedPage(s.Now(), p);
      read := s.frames[s.table[p]].data;
    }
  }

  method StepUnpin(s: Shard, p: PageId, isDirty: bool) returns (ok: bool)
    requires s.Valid()
    modifies s, s.lru
    ensures s.Valid() && forall read :: ShardEffect(old(s.Now()), Unpin(p, isDirty), ok, read, s.Now())
  {
    ok := s.UnpinPage(p, isDirty);
  }

  method StepWrite(s: Shard, p: PageId, data: Data) returns (ok: bool)
    requires s.Valid()
    modifies s
    ensures s.Valid() && forall read :: ShardEffect(old(s.Now()), Write(p, data), ok, read, s.Now())
  {
    ok := p in s.table && s.table[p] in s.frames && s.frames[s.table[p]].pins > 0;
    if ok { s.WriteData(p, data); }
  }

  method StepMark(s: Shard, p: PageId) returns (ok: bool)
    requires s.Valid()
    modifies s
    ensures s.Valid() && forall read :: ShardEffect(old(s.Now()), Mark(p), ok, read, s.Now())
  {
    ok := p in s.table && s.table[p] in s.frames && s.frames[s.table[p]].pins > 0;
    if ok { s.MarkDirty(p); }
  }

  method StepFlush(s: Shard, p: PageId) returns (ok: bool)
    requires s.Valid()
    modifies s, s.disk
    ensures s.Valid() && forall read :: ShardEffect(old(s.Now()), Flush(p), ok, read, s.Now())
  {
    ok := s.FlushPage(p);
  }

  method StepNew(s: Shard, p: PageId) returns (ok: bool)
    requires s.Valid() && p.pageNo != INVALID_PAGE_ID
    modifies s, s.lru, s.disk
    ensures s.Valid() && forall read :: ShardEffect(old(s.Now()), New(p), ok, read, s.Now())
  {
    ok := s.NewPageAt(p);
  }

  method StepDelete(s: Shard, p: PageId) returns (ok: bool)
    requires s.Valid()
    modifies s, s.disk
    ensures s.Valid() && forall read :: ShardEffect(old(s.Now()), Delete(p), ok, read, s.Now())
  {
    ok := s.DeletePage(p);
  }

  function PoolPins(shards: seq<Cache>, q: PageId): int
    requires 0 < |shards|
  {
    Pins(shards[ShardIndex(q, |shards|)], q)
  }

  /** No page of the pool looks different, changed its pins or was forgotten. */
  ghost predicate SamePool(shards: seq<Cache>, shards': seq<Cache>)
    requires 0 < |shards| == |shards'|
  {
    && (forall q :: PoolSeen(shards', q) == PoolSeen(shards, q) && PoolPins(shards', q) == PoolPins(shards, q))
    && (forall q :: PoolForgotten(shards', q) ==> PoolForgotten(shards, q))
  }

  /** The first k shards have no unmarked changes in the file left. */
  ghost predicate MarksUpTo(shards: seq<Cache>, fd: int, k: nat, shards': seq<Cache>)
    requires |shards| == |shards'|
  {
    forall j :: 0 <= j < |shards| ==> MarksLeft(shards[j], fd, j < k, shards'[j])
  }

  /** The unmarked changes of a shard that has flushed the file, or not. */
  ghost predicate MarksLeft(c: Cache, fd: int, flushed: bool, c': Cache)
  {
    forall q :: q in c'.unmarked <==> q in c.unmarked && !(flushed && q.fd == fd)
  }

  /** The first k shards have flushed their pages of the file, and no page changed. */
  ghost predicate FlushedUpTo(shards: seq<Cache>, fd: int, k: nat, shards': seq<Cache>)
  {
    && 0 < |shards| == |shards'| && k <= |shards| && PoolOk(shards')
    && SamePool(shards, shards') && MarksUpTo(shards, fd, k, shards')
    && (forall j :: 0 <= j < |shards| ==> shards'[j].table == shards[j].table)
    && (forall j, q :: 0 <= j < k && q in shards[j].table && q.fd == fd ==>
          OnDisk(shards'[j].disk, q) == PoolSeen(shards, q))
  }

  lemma FlushShard(shards: seq<Cache>, fd: int, k: nat, now: seq<Cache>, c: Cache)
    requires PoolOk(shards) && FlushedUpTo(shards, fd, k, now) && k < |shards| && Ok(c) && FlushedAll(now[k], fd, c)
    ensures FlushedUpTo(shards, fd, k + 1, WithShard(now, k, c))
  {
    PoolChange(now, k, c);
    FlushKeepsPool(shards, fd, now, k, c);
    FlushKeepsMarks(shards, fd, now, k, c);
    var now' := WithShard(now, k, c);
    forall j, q | 0 <= j < k + 1 && q in shards[j].table && q.fd == fd
      ensures OnDisk(now'[j].disk, q) == PoolSeen(shards, q)
    {
      FlushReaches(shards, fd, k, now, c, j, q);
    }
  }

  lemma FlushKeepsPool(shards: seq<Cache>, fd: int, now: seq<Cache>, k: nat, c: Cache)
    requires 0 < |shards| == |now| && k < |now| && PoolOk(now) && SamePool(shards, now)
    requires Ok(c) && FlushedAll(now[k], fd, c)
    ensures SamePool(shards, WithShard(now, k, c))
  {
    PoolChange(now, k, c);
    var now' := WithShard(now, k, c);
    forall q ensures PoolSeen(now', q) == PoolSeen(now, q) && PoolPins(now', q) == PoolPins(now, q) {}
    forall q | PoolForgotten(now', q) ensures PoolForgotten(now, q) {}
  }

  lemma FlushKeepsMarks(shards: seq<Cache>, fd: int, now: seq<Cache>, k: nat, c: Cache)
    requires |shards| == |now| && k < |now| && MarksUpTo(shards, fd, k, now) && FlushedAll(now[k], fd, c)
    ensures MarksUpTo(shards, fd, k + 1, WithShard(now, k, c))
  {
    var now' := WithShard(now, k, c);
    forall j | 0 <= j < |shards| ensures MarksLeft(shards[j], fd, j < k + 1, now'[j]) {
      assert MarksLeft(shards[j], fd, j < k, now[j]);
    }
  }

  lemma FlushReaches(shards: seq<Cache>, fd: int, k: nat, now: seq<Cache>, c: Cache, j: nat, q: PageId)
    requires PoolOk(shards) && FlushedUpTo(shards, fd, k, now) && k < |shards| && FlushedAll(now[k], fd, c)
    requires j <= k && q in shards[j].table && q.fd == fd
    ensures OnDisk(c.disk, q) == PoolSeen(shards, q)
  {
    assert ShardIndex(q, |shards|) == j;
    assert q in now[k].table <==> j == k;
    assert now[k].disk == now[0].disk == now[j].disk;
    assert PoolSeen(now, q) == PoolSeen(shards, q);
  }

  lemma OneShardMoved(shards: seq<Cache>, shards': seq<Cache>, i: nat)
    requires i < |shards| == |shards'|
    requires forall j :: 0 <= j < |shards| && j != i ==> shards'[j] == shards[j].(disk := shards'[i].disk)
    ensures shards' == WithShard(shards, i, shards'[i])
  {
  }

  /** What a call of the pool does: the operation in its page's shard, and nothing in the others. */
  ghost predicate PoolEffect(shards: seq<Cache>, op: Op, ok: bool, read: Data, shards': seq<Cache>)
    requires 0 < |shards|
  {
    if op.FlushAll? then ok && FlushedUpTo(shards, op.fd, |shards|, shards')
    else
      var i := ShardIndex(op.p, |shards|);
      && |shards'| == |shards| && ShardEffect(shards[i], op, ok, read, shards'[i])
      && shards' == WithShard(shards, i, shards'[i])
  }

  /** A shard with these free frames and no page. */
  ghost predicate IsEmpty(s: Shard, frames: seq<int>, dataFiles: Disk)
    reads s, s.lru, s.disk
  {
    s.Valid() && s.disk == dataFiles && s.table == map[] && s.unmarked == {} && s.free == frames
  }

  lemma EmptyPool(shards: seq<Cache>, disk: map<PageId, Data>)
    requires 0 < |shards|
    requires forall i :: 0 <= i < |shards| ==> Ok(shards[i]) && shards[i].table == map[] && shards[i].disk == disk
    ensures PoolOk(shards) && forall q :: PoolSeen(shards, q) == OnDisk(disk, q) && PoolPins(shards, q) == 0
  {
  }

  ghost predicate AllEmpty(all: seq<Shard>, poolSize: nat, n: nat, dataFiles: Disk)
    requires |all| <= n
    reads all, set s <- all :: s.lru, set s <- all :: s.disk
  {
    forall k :: 0 <= k < |all| ==> IsEmpty(all[k], FramesFor(poolSize, n, k), dataFiles)
  }

  ghost predicate AllApart(all: seq<Shard>)
  {
    forall i, j :: 0 <= i < j < |all| ==> all[i] != all[j] && all[i].lru != all[j].lru
  }

  lemma OneMoreShard(all: seq<Shard>, s: Shard, poolSize: nat, n: nat, dataFiles: Disk)
    requires |all| < n && AllEmpty(all, poolSize, n, dataFiles) && AllApart(all)
    requires IsEmpty(s, FramesFor(poolSize, n, |all|), dataFiles) && forall x <- all :: x != s && x.lru != s.lru
    ensures AllEmpty(all + [s], poolSize, n, dataFiles) && AllApart(all + [s])
  {
  }

  /** The shards of the constructor, frame f in shard f % n. */
  method MakeShards(poolSize: nat, n: nat, dataFiles: Disk) returns (all: seq<Shard>)
    requires 0 < n
    ensures |all| == n && AllEmpty(all, poolSize, n, dataFiles)
    ensures AllApart(all) && forall s <- all :: fresh(s) && fresh(s.lru)
  {
    all := [];
    for i := 0 to n
      invariant |all| == i && AllEmpty(all, poolSize, n, dataFiles)
      invariant AllApart(all) && forall s <- all :: fresh(s) && fresh(s.lru)
    {
      var s := MakeShard(poolSize, n, i, dataFiles);
      OneMoreShard(all, s, poolSize, n, dataFiles);
      all := all + [s];
    }
  }

  method MakeShard(poolSize: nat, n: nat, k: nat, dataFiles: Disk) returns (s: Shard)
    requires k < n
    ensures IsEmpty(s, FramesFor(poolSize, n, k), dataFiles) && fresh(s) && fresh(s.lru)
  {
    FramesSpread(poolSize, n, k);
    s := new Shard(FramesFor(poolSize, n, k), poolSize, dataFiles);
  }

  class Pool {
    const shards: seq<Shard>
    const disk: Disk

    ghost predicate Apart()
    {
      0 < |shards| && (forall s <- shards :: s.disk == disk) && AllApart(shards)
    }

    ghost function Now(): seq<Cache>
      reads shards, set s <- shards :: s.lru, set s <- shards :: s.disk
    {
      Caches(shards)
    }

    ghost predicate Valid()
      reads shards, set s <- shards :: s.lru, set s <- shards :: s.disk
    {
      Apart() && (forall s <- shards :: s.Wired()) && PoolOk(Now())
    }

    /** An empty pool: every frame is free in one shard, and every page shows its disk image. */
    constructor (poolSize: nat, dataFiles: Disk)
      ensures Valid() && disk == dataFiles && |shards| == ChooseShardCount(poolSize)
      ensures forall s <- shards :: fresh(s) && fresh(s.lru)
      ensures forall i :: 0 <= i < |shards| ==>
                Now()[i].free == FramesFor(poolSize, |shards|, i) && Now()[i].table == map[] && Now()[i].unmarked == {}
      ensures forall q :: PoolSeen(Now(), q) == OnDisk(dataFiles.pages, q) && PoolPins(Now(), q) == 0
    {
      var all := MakeShards(poolSize, ChooseShardCount(poolSize), dataFiles);
      shards, disk := all, dataFiles;
      new;
      CachesAt(shards);
      EmptyPool(Now(), dataFiles.pages);
    }

    /** The operation in shard i; the other shards see only the disk change. */
    method ApplyIn(i: nat, op: Op) returns (ok: bool, read: Data)
      requires Valid() && i < |shards|
      requires !op.FlushAll? && op.p.pageNo != INVALID_PAGE_ID
      modifies shards[i], shards[i].lru, disk
      ensures Apart() && (forall s <- shards :: s.Wired())
      ensures ShardEffect(old(Now())[i], op, ok, read, Now()[i]) && Now() == WithShard(old(Now()), i, Now()[i])
    {
      CachesAt(shards);
      ghost var before := Now();
      ok, read := Step(shards[i], op);
      CachesAt(shards);
      OneShardMoved(before, Now(), i);
    }

    method Apply(op: Op) returns (ok: bool, read: Data)
      requires Valid() && (!op.FlushAll? ==> op.p.pageNo != INVALID_PAGE_ID)
      modifies shards, set s <- shards :: s.lru, disk
      ensures Valid() && PoolEffect(old(Now()), op, ok, read, Now())
    {
      if op.FlushAll? {
        FlushAllPages(op.fd);
        return true, BLANK;
      }
      ghost var before := Now();
      var i := ShardIndex(op.p, |shards|);
      ok, read := ApplyIn(i, op);
      PoolStep(before, op.p, Now()[i]);
    }

    method FlushIn(i: nat, fd: int)
      requires Valid() && i < |shards|
      modifies shards[i], disk
      ensures Apart() && (forall s <- shards :: s.Wired())
      ensures Ok(Now()[i]) && FlushedAll(old(Now())[i], fd, Now()[i]) && Now() == WithShard(old(Now()), i, Now()[i])
    {
      CachesAt(shards);
      ghost var before := Now();
      shards[i].FlushAllPages(fd);
      CachesAt(shards);
      OneShardMoved(before, Now(), i);
    }

    method FlushAllPages(fd: int)
      requires Valid()
      modifies shards, disk
      ensures Valid() && FlushedUpTo(old(Now()), fd, |shards|, Now())
    {
      ghost var before := Now();
      for k := 0 to |shards|
        invariant Valid() && FlushedUpTo(before, fd, k, Now())
      {
        ghost var now := Now();
        FlushIn(k, fd);
        FlushShard(before, fd, k, now, Now()[k]);
      }
    }
  }

  ghost function Caches(shards: seq<Shard>): (r: seq<Cache>)
    reads shards, set s <- shards :: s.lru, set s <- shards :: s.disk
    ensures |r| == |shards|
  {
    if shards == [] then [] else Caches(shards[..|shards| - 1]) + [shards[|shards| - 1].Now()]
  }

  lemma {:induction false} CachesAt(shards: seq<Shard>)
    ensures forall i :: 0 <= i < |shards| ==> Caches(shards)[i] == shards[i].Now()
  {
    if shards != [] { CachesAt(shards[..|shards| - 1]); }
  }

  /** A call that returned. */
  datatype Call = Call(op: Op, ok: bool, read: Data)

  /** Exactly when a call on another page changes what page p shows: the page was forgotten, it leaves the cache, and
      its disk image differs from it. */
  lemma LossExact(shards: seq<Cache>, call: Call, shards': seq<Cache>, p: PageId)
    requires PoolOk(shards) && PoolEffect(shards, call.op, call.ok, call.read, shards')
    requires !call.op.FlushAll? && call.op.p != p
    ensures var i := ShardIndex(p, |shards|);
            PoolSeen(shards', p) != PoolSeen(shards, p) <==>
              PoolForgotten(shards, p) && p !in shards'[i].table && PoolSeen(shards, p) != OnDisk(shards[i].disk, p)
  {
    var i, j := ShardIndex(p, |shards|), ShardIndex(call.op.p, |shards|);
    PoolStep(shards, call.op.p, shards'[j]);
    if i == j { assert Kept(shards[i], shards'[i], p); }
  }

  /** A forgotten page can be the next victim of its shard, and then its change is gone. */
  lemma ForgottenIsVictim(c: Cache, p: PageId, q: PageId, lru': seq<int>, load: bool)
    requires Ok(c) && WouldForget(c, p) && c.free == [] && q !in c.table
    ensures p in c.table && c.table[p] in c.frames
    ensures var c1, f := Unpinned(c, p, false), c.table[p];
            && Forgotten(c1, p) && Victim(c1, f, [])
            && (Seen(Claimed(c1, f, [], lru', q, load), p) == Seen(c, p) <==> Seen(c, p) == OnDisk(c.disk, p))
  {
    CachedPage(c, p);
    assert IsMapped(Unpinned(c, p, false), c.table[p]);
  }

  // ---------- whole runs of the pool ----------

  /** What the first n calls last stored in page p. */
  ghost function LastWritten(start: Data, calls: seq<Call>, n: nat, p: PageId): Data
    requires n <= |calls|
  {
    if n == 0 then start
    else
      var c := calls[n - 1];
      var before := LastWritten(start, calls, n - 1, p);
      if c.op.FlushAll? || c.op.p != p then before else Stored(c.op, c.ok, before)
  }

  /** The states of the pool between the calls. */
  ghost predicate IsTrace(states: seq<seq<Cache>>, calls: seq<Call>)
  {
    && |states| == |calls| + 1 && PoolOk(states[0])
    && (forall i :: 0 <= i < |calls| ==> |states[i]| > 0)
    && (forall i :: 0 <= i < |calls| ==>
          PoolEffect(states[i], calls[i].op, calls[i].ok, calls[i].read, states[i + 1]))
  }

  /** The clients of page p mark each change before the page's last unpin or with it. */
  ghost predicate Marks(states: seq<seq<Cache>>, calls: seq<Call>, n: nat, p: PageId)
    requires IsTrace(states, calls) && n <= |calls|
  {
    && !PoolForgotten(states[0], p)
    && forall i :: 0 <= i < n ==> !ForgetsPage(states[i], calls[i].op, p)
  }

  ghost predicate ForgetsPage(shards: seq<Cache>, op: Op, p: PageId)
    requires 0 < |shards|
  {
    op == Unpin(p, false) && Forgets(shards[ShardIndex(p, |shards|)], op)
  }

  /** After n calls the pool is sound and, if its clients mark their changes, shows what was last written to page p. */
  ghost predicate TracksAt(states: seq<seq<Cache>>, calls: seq<Call>, n: nat, p: PageId)
    requires IsTrace(states, calls) && n <= |calls|
  {
    PoolOk(states[n]) &&
    (Marks(states, calls, n, p) ==>
      !PoolForgotten(states[n], p) && PoolSeen(states[n], p) == LastWritten(PoolSeen(states[0], p), calls, n, p))
  }

  lemma TracksNext(states: seq<seq<Cache>>, calls: seq<Call>, n: nat, p: PageId)
    requires IsTrace(states, calls) && n < |calls| && TracksAt(states, calls, n, p)
    ensures TracksAt(states, calls, n + 1, p)
  {
    TraceStep(states, calls, n, p);
  }

  lemma {:induction false} TraceTracks(states: seq<seq<Cache>>, calls: seq<Call>, n: nat, p: PageId)
    requires IsTrace(states, calls) && n <= |calls|
    ensures TracksAt(states, calls, n, p)
  {
    if n > 0 {
      TraceTracks(states, calls, n - 1, p);
      TracksNext(states, calls, n - 1, p);
    }
  }

  lemma TraceStep(states: seq<seq<Cache>>, calls: seq<Call>, n: nat, p: PageId)
    requires IsTrace(states, calls) && n < |calls| && PoolOk(states[n])
    ensures PoolOk(states[n + 1])
    ensures Marks(states, calls, n + 1, p) ==> Marks(states, calls, n, p)
    ensures Marks(states, calls, n + 1, p) && !PoolForgotten(states[n], p) ==>
              && !PoolForgotten(states[n + 1], p)
              && PoolSeen(states[n + 1], p) ==
                   if calls[n].op.FlushAll? || calls[n].op.p != p then PoolSeen(states[n], p)
                   else Stored(calls[n].op, calls[n].ok, PoolSeen(states[n], p))
  {
    assert PoolEffect(states[n], calls[n].op, calls[n].ok, calls[n].read, states[n + 1]);
    CallTracks(states[n], calls[n], states[n + 1], p);
  }

  lemma CallTracks(shards: seq<Cache>, call: Call, shards': seq<Cache>, p: PageId)
    requires PoolOk(shards) && PoolEffect(shards, call.op, call.ok, call.read, shards')
    ensures PoolOk(shards')
    ensures !PoolForgotten(shards, p) && !ForgetsPage(shards, call.op, p) ==>
              && !PoolForgotten(shards', p)
              && PoolSeen(shards', p) ==
                   if call.op.FlushAll? || call.op.p != p then PoolSeen(shards, p)
                   else Stored(call.op, call.ok, PoolSeen(shards, p))
  {
    if !call.op.FlushAll? {
      var i := ShardIndex(call.op.p, |shards|);
      PoolStep(shards, call.op.p, shards'[i]);
      if call.op.p == p && !PoolForgotten(shards, p) && !ForgetsPage(shards, call.op, p) {
        OwnPage(shards[i], call, shards'[i]);
      }
    }
  }

  lemma OwnPage(c: Cache, call: Call, c': Cache)
    requires Ok(c) && !call.op.FlushAll? && ShardEffect(c, call.op, call.ok, call.read, c')
    requires !Forgotten(c, call.op.p) && !Forgets(c, call.op)
    ensures !Forgotten(c', call.op.p) && Seen(c', call.op.p) == Stored(call.op, call.ok, Seen(c, call.op.p))
  {
    PinsAreCounts(c, call.op.p);
  }

  lemma PinsAreCounts(c: Cache, p: PageId)
    requires Ok(c)
    ensures 0 <= Pins(c, p)
  {
    if p in c.table { CachedPage(c, p); }
  }

  /** The cache is transparent: over any sequence of calls on the whole pool, every successful fetch returns what was
      last written to its page, provided the clients of that page mark a change before the page's last unpin or
      with it. */
  lemma TransparentCache(states: seq<seq<Cache>>, calls: seq<Call>, k: nat)
    requires IsTrace(states, calls) && k < |calls| && calls[k].op.Fetch? && calls[k].ok
    requires Marks(states, calls, k, calls[k].op.p)
    ensures calls[k].read == LastWritten(PoolSeen(states[0], calls[k].op.p), calls, k, calls[k].op.p)
  {
    TraceTracks(states, calls, k, calls[k].op.p);
    assert PoolEffect(states[k], calls[k].op, calls[k].ok, calls[k].read, states[k + 1]);
  }

  lemma TraceSnoc(states: seq<seq<Cache>>, calls: seq<Call>, call: Call, next: seq<Cache>)
    requires IsTrace(states, calls) && 0 < |states[|calls|]|
    requires PoolEffect(states[|calls|], call.op, call.ok, call.read, next)
    ensures IsTrace(states + [next], calls + [call])
  {
  }

  /** The calls carry out the operations, and every fetch of a page whose clients mark their changes is answered with
      what was last written. */
  ghost predicate RunOf(start: seq<Cache>, ops: seq<Op>, calls: seq<Call>, states: seq<seq<Cache>>)
  {
    && IsTrace(states, calls) && states[0] == start && |calls| == |ops|
    && (forall i :: 0 <= i < |ops| ==> calls[i].op == ops[i])
    && (forall k: nat :: k < |ops| && ops[k].Fetch? && calls[k].ok && Marks(states, calls, k, ops[k].p) ==>
          calls[k].read == LastWritten(PoolSeen(start, ops[k].p), calls, k, ops[k].p))
  }

  /** Any sequence of operations on the pool. */
  method Run(pool: Pool, ops: seq<Op>) returns (calls: seq<Call>, ghost states: seq<seq<Cache>>)
    requires pool.Valid() && forall op <- ops :: op.FlushAll? || op.p.pageNo != INVALID_PAGE_ID
    modifies pool.shards, set s <- pool.shards :: s.lru, pool.disk
    ensures pool.Valid() && RunOf(old(pool.Now()), ops, calls, states) && states[|ops|] == pool.Now()
  {
    calls, states := [], [pool.Now()];
    for i := 0 to |ops|
      invariant pool.Valid() && |calls| == i && IsTrace(states, calls)
      invariant states[0] == old(pool.Now()) && states[i] == pool.Now()
      invariant forall k :: 0 <= k < i ==> calls[k].op == ops[k]
    {
      var ok, read := pool.Apply(ops[i]);
      TraceSnoc(states, calls, Call(ops[i], ok, read), pool.Now());
      calls, states := calls + [Call(ops[i], ok, read)], states + [pool.Now()];
    }
    RunAnswers(ops, calls, states);
  }

  lemma RunAnswers(ops: seq<Op>, calls: seq<Call>, states: seq<seq<Cache>>)
    requires IsTrace(states, calls) && |calls| == |ops| && forall i :: 0 <= i < |ops| ==> calls[i].op == ops[i]
    ensures RunOf(states[0], ops, calls, states)
  {
    forall k: nat | k < |ops| && ops[k].Fetch? && calls[k].ok && Marks(states, calls, k, ops[k].p)
      ensures calls[k].read == LastWritten(PoolSeen(states[0], ops[k].p), calls, k, ops[k].p)
    {
      TransparentCache(states, calls, k);
    }
  }
}
