/** A pool of one frame in which a client changes page P, does not mark it, and unpins it clean. The next fetch takes
    the frame for page Q, and a later fetch of P returns the bytes from before the change. */
module LostUpdate {
  import opened Common
  import opened BufferPool
  import opened BufferPoolManager

  const P: PageId := PageId(0, 0)
  const Q: PageId := PageId(0, 1)
  const BEFORE: Data := Data(0, [1])
  const CHANGED: Data := Data(0, [2])
  const OPS: seq<Op> := [Fetch(P), Write(P, CHANGED), Unpin(P, false), Fetch(Q), Unpin(Q, false), Fetch(P)]

  /** A sound shard whose only frame is 0. */
  ghost predicate OneFrame(c: Cache)
  {
    Ok(c) && c.frames.Keys == {0}
  }

  /** Page p holds the frame, not marked dirty. */
  ghost predicate HoldsFrame(c: Cache, p: PageId, pins: int, changed: bool)
  {
    && OneFrame(c) && p in c.table && Pins(c, p) == pins && !Dirty(c, p)
    && (p in c.unmarked <==> changed)
  }

  lemma OnlyHolder(c: Cache, p: PageId, q: PageId)
    requires OneFrame(c) && p in c.table && q in c.table
    ensures p == q
  {
    assert Cached(c, p) && Cached(c, q);
  }

  lemma FrameIsFree(c: Cache)
    requires OneFrame(c) && (c.table == map[] || exists p :: p in c.table && Pins(c, p) == 0)
    ensures !AllPinned(c)
  {
    assert 0 in c.frames;
    if c.table == map[] {
      assert 0 in c.free || IsMapped(c, 0);
      assert IsBlankFrame(c, 0);
    } else {
      var p :| p in c.table && Pins(c, p) == 0;
      assert Cached(c, p);
    }
  }

  lemma StartIsOneFrame(c: Cache)
    requires Ok(c) && c.table == map[] && c.free == FramesFor(1, 1, 0)
    ensures OneFrame(c)
  {
    FramesSpread(1, 1, 0);
    assert forall f :: f in c.free <==> f == 0;
    assert IsBlankFrame(c, 0);
    forall f | f in c.frames ensures f == 0 { assert f in c.free || IsMapped(c, f); }
  }

  lemma FetchTakesFrame(c: Cache, p: PageId, call: Call, c': Cache)
    requires OneFrame(c) && call.op == Fetch(p) && ShardEffect(c, call.op, call.ok, call.read, c')
    requires p !in c.table && (c.table == map[] || exists q :: q in c.table && Pins(c, q) == 0)
    ensures call.ok && HoldsFrame(c', p, 1, false) && call.read == Seen(c, p)
    ensures OnDisk(c'.disk, p) == OnDisk(c.disk, p)
  {
    FrameIsFree(c);
  }

  lemma WriteChanges(c: Cache, p: PageId, call: Call, c': Cache)
    requires HoldsFrame(c, p, 1, false) && call.op.Write? && call.op.p == p
    requires ShardEffect(c, call.op, call.ok, call.read, c')
    ensures call.ok && HoldsFrame(c', p, 1, true) && c'.disk == c.disk
  {
  }

  lemma UnpinReleases(c: Cache, p: PageId, changed: bool, call: Call, c': Cache)
    requires HoldsFrame(c, p, 1, changed) && call.op == Unpin(p, false)
    requires ShardEffect(c, call.op, call.ok, call.read, c')
    ensures call.ok && HoldsFrame(c', p, 0, changed) && c'.disk == c.disk
  {
  }

  /** Taking over the frame of a forgotten page. */
  lemma FetchDrops(c: Cache, p: PageId, q: PageId, call: Call, c': Cache)
    requires HoldsFrame(c, p, 0, true) && q != p && call.op == Fetch(q)
    requires ShardEffect(c, call.op, call.ok, call.read, c')
    ensures HoldsFrame(c', q, 1, false) && p !in c'.table && Seen(c', p) == OnDisk(c.disk, p)
  {
    if q in c.table { OnlyHolder(c, p, q); }
    FetchTakesFrame(c, q, call, c');
    if p in c'.table { OnlyHolder(c', p, q); }
    assert Kept(c, c', p);
  }

  lemma UnpinElsewhere(c: Cache, p: PageId, q: PageId, call: Call, c': Cache)
    requires HoldsFrame(c, q, 1, false) && p != q && p !in c.table && call.op == Unpin(q, false)
    requires ShardEffect(c, call.op, call.ok, call.read, c')
    ensures HoldsFrame(c', q, 0, false) && p !in c'.table && Seen(c', p) == Seen(c, p)
  {
    UnpinReleases(c, q, false, call, c');
    if p in c'.table { OnlyHolder(c', p, q); }
    assert Kept(c, c', p);
  }

  /** A call of a pool with one shard is the operation in that shard. */
  lemma OneShard(states: seq<seq<Cache>>, calls: seq<Call>, i: nat)
    requires IsTrace(states, calls) && i < |calls| && |states[i]| == 1 && !calls[i].op.FlushAll?
    ensures |states[i + 1]| == 1
    ensures ShardEffect(states[i][0], calls[i].op, calls[i].ok, calls[i].read, states[i + 1][0])
  {
    assert PoolEffect(states[i], calls[i].op, calls[i].ok, calls[i].read, states[i + 1]);
  }

  lemma AllOneShard(states: seq<seq<Cache>>, calls: seq<Call>, n: nat)
    requires IsTrace(states, calls) && n <= |calls| && |states[0]| == 1
    requires forall i :: 0 <= i < |calls| ==> !calls[i].op.FlushAll?
    ensures forall i :: 0 <= i <= n ==> |states[i]| == 1
    ensures forall i :: 0 <= i < n ==>
              ShardEffect(states[i][0], calls[i].op, calls[i].ok, calls[i].read, states[i + 1][0])
  {
    if n > 0 {
      AllOneShard(states, calls, n - 1);
      OneShard(states, calls, n - 1);
    }
  }

  lemma ChangeIsLost(cs: seq<Cache>, calls: seq<Call>)
    requires |cs| == 7 && |calls| == 6 && forall i :: 0 <= i < 6 ==> calls[i].op == OPS[i]
    requires forall i :: 0 <= i < 6 ==> ShardEffect(cs[i], calls[i].op, calls[i].ok, calls[i].read, cs[i + 1])
    requires OneFrame(cs[0]) && cs[0].table == map[] && OnDisk(cs[0].disk, P) == BEFORE
    ensures calls[1].ok && calls[5].ok && calls[5].read == BEFORE
  {
    FetchTakesFrame(cs[0], P, calls[0], cs[1]);
    WriteChanges(cs[1], P, calls[1], cs[2]);
    UnpinReleases(cs[2], P, true, calls[2], cs[3]);
    FetchDrops(cs[3], P, Q, calls[3], cs[4]);
    UnpinElsewhere(cs[4], P, Q, calls[4], cs[5]);
    FetchTakesFrame(cs[5], P, calls[5], cs[6]);
  }

  /** The run. */
  method LoseUpdate() returns (calls: seq<Call>)
    ensures |calls| == |OPS| && forall i :: 0 <= i < |OPS| ==> calls[i].op == OPS[i]
    ensures calls[1].ok && calls[5].ok && calls[5].read == BEFORE != CHANGED
  {
    var disk := new Disk();
    disk.pages := map[P := BEFORE];
    var pool := new Pool(1, disk);
    StartIsOneFrame(pool.Now()[0]);
    ghost var states;
    calls, states := Run(pool, OPS);
    AllOneShard(states, calls, 6);
    ChangeIsLost(seq(7, i requires 0 <= i < 7 => states[i][0]), calls);
  }
}
