/** What LRU means: over any calls of the replacer the victim is the frame that was released longest ago, as the calls
    themselves say. */
module LruHistory {
  import opened Common
  import opened LruReplacer

  datatype Op = DoUnpin(f: int) | DoPin(f: int) | DoVictim

  datatype Event = Unpinned(f: int) | Pinned(f: int) | Evicted(f: int) | NothingToEvict

  predicate TakesAway(e: Event, f: int)
  {
    e == Pinned(f) || e == Evicted(f)
  }

  /** Frame f was released by call i and not taken away since. */
  ghost predicate Released(h: seq<Event>, f: int, i: nat)
  {
    i < |h| && h[i] == Unpinned(f) && forall j :: i < j < |h| ==> !TakesAway(h[j], f)
  }

  ghost predicate Evictable(h: seq<Event>, f: int)
  {
    exists i :: Released(h, f, i)
  }

  /** Call i is the release that counts: a second one in a row has no effect. */
  ghost predicate ReleasedAt(h: seq<Event>, f: int, i: nat)
  {
    Released(h, f, i) && forall k: nat :: k < i ==> !Released(h, f, k)
  }

  /** Of all frames that may be evicted, f was released first. */
  ghost predicate ReleasedFirst(h: seq<Event>, f: int)
  {
    exists i :: ReleasedAt(h, f, i) && forall g, j :: ReleasedAt(h, g, j) ==> i <= j
  }

  ghost predicate InReleaseOrder(list: seq<int>, h: seq<Event>)
  {
    forall a, b, i, j :: 0 <= a < b < |list| && ReleasedAt(h, list[a], i) && ReleasedAt(h, list[b], j) ==> j < i
  }

  /** The list holds the frames that may be evicted, the last released one first. */
  ghost predicate Tracks(list: seq<int>, h: seq<Event>)
  {
    NoDuplicates(list) && (forall f :: f in list <==> Evictable(h, f)) && InReleaseOrder(list, h)
  }

  /** A frame that may be evicted has a release that counts. */
  lemma {:induction false} FirstRelease(h: seq<Event>, f: int, n: nat) returns (i: nat)
    requires Released(h, f, n)
    ensures ReleasedAt(h, f, i) && i <= n
    decreases n
  {
    if k: nat :| k < n && Released(h, f, k) {
      i := FirstRelease(h, f, k);
    } else {
      i := n;
    }
  }

  lemma ReleasedMore(h: seq<Event>, e: Event, f: int, i: nat)
    ensures Released(h + [e], f, i) <==>
              (i < |h| && Released(h, f, i) && !TakesAway(e, f)) || (i == |h| && e == Unpinned(f))
  {
    var h' := h + [e];
    assert h'[|h|] == e && forall j :: 0 <= j < |h| ==> h'[j] == h[j];
  }

  /** Which frames may be evicted after one more call. */
  lemma EvictableMore(h: seq<Event>, e: Event, f: int)
    ensures Evictable(h + [e], f) <==> e == Unpinned(f) || (Evictable(h, f) && !TakesAway(e, f))
  {
    forall i: nat ensures Released(h + [e], f, i) <==>
      (i < |h| && Released(h, f, i) && !TakesAway(e, f)) || (i == |h| && e == Unpinned(f))
    {
      ReleasedMore(h, e, f, i);
    }
    if e == Unpinned(f) { assert Released(h + [e], f, |h|); }
  }

  /** A frame that stays keeps the release that counts; a new one was released last. */
  lemma ReleasedAtMore(h: seq<Event>, e: Event, f: int, i: nat)
    requires ReleasedAt(h + [e], f, i)
    ensures if Evictable(h, f) && !TakesAway(e, f) then ReleasedAt(h, f, i) && i < |h| else i == |h|
  {
    forall k: nat ensures Released(h + [e], f, k) <==>
      (k < |h| && Released(h, f, k) && !TakesAway(e, f)) || (k == |h| && e == Unpinned(f))
    {
      ReleasedMore(h, e, f, k);
    }
  }

  /** The second list orders its frames as the first one does. */
  ghost predicate SameOrder(part: seq<int>, list: seq<int>)
  {
    forall a, b :: 0 <= a < b < |part| ==> Precedes(list, part[a], part[b])
  }

  ghost predicate Precedes(list: seq<int>, f: int, g: int)
  {
    exists a, b :: 0 <= a < b < |list| && list[a] == f && list[b] == g
  }

  lemma PrefixSameOrder(list: seq<int>, n: nat)
    requires n <= |list|
    ensures SameOrder(list[..n], list)
  {
    forall a, b | 0 <= a < b < n ensures Precedes(list, list[..n][a], list[..n][b]) {
      assert list[a] == list[..n][a] && list[b] == list[..n][b];
    }
  }

  lemma ListKept(list: seq<int>, h: seq<Event>, list': seq<int>, e: Event)
    requires Tracks(list, h) && NoDuplicates(list') && forall f :: f in list' <==> f in list && !TakesAway(e, f)
    requires e.Unpinned? ==> e.f in list
    requires SameOrder(list', list)
    ensures Tracks(list', h + [e])
  {
    forall f ensures f in list' <==> Evictable(h + [e], f) { EvictableMore(h, e, f); }
    forall a, b, i, j | 0 <= a < b < |list'| && ReleasedAt(h + [e], list'[a], i) && ReleasedAt(h + [e], list'[b], j)
      ensures j < i
    {
      assert list'[a] in list' && list'[b] in list';
      ReleasedAtMore(h, e, list'[a], i);
      ReleasedAtMore(h, e, list'[b], j);
      var c, d :| 0 <= c < d < |list| && list[c] == list'[a] && list[d] == list'[b];
    }
  }

  lemma UnpinTracked(list: seq<int>, h: seq<Event>, f: int)
    requires Tracks(list, h)
    ensures Tracks(if f in list then list else [f] + list, h + [Unpinned(f)])
  {
    var e := Unpinned(f);
    if f in list {
      PrefixSameOrder(list, |list|);
      assert list[..|list|] == list;
      ListKept(list, h, list, e);
    } else {
      var list' := [f] + list;
      forall g ensures g in list' <==> Evictable(h + [e], g) { EvictableMore(h, e, g); }
      forall a, b, i, j | 0 <= a < b < |list'| && ReleasedAt(h + [e], list'[a], i) && ReleasedAt(h + [e], list'[b], j)
        ensures j < i
      {
        assert list'[b] == list[b - 1] && list[b - 1] in list;
        ReleasedAtMore(h, e, list'[a], i);
        ReleasedAtMore(h, e, list'[b], j);
        if a > 0 { assert list'[a] == list[a - 1] && list[a - 1] in list; }
      }
    }
  }

  lemma WithoutSameOrder(list: seq<int>, f: int)
    requires NoDuplicates(list)
    ensures SameOrder(Without(list, f), list)
  {
    if i: nat :| i < |list| && list[i] == f {
      WithoutAt(list, f, i);
      SkipSameOrder(list, i);
    } else {
      WithoutElements(list, f);
      PrefixSameOrder(list, |list|);
      assert list[..|list|] == list;
    }
  }

  lemma SkipSameOrder(list: seq<int>, i: nat)
    requires i < |list|
    ensures SameOrder(list[..i] + list[i + 1..], list)
  {
    var part := list[..i] + list[i + 1..];
    forall a, b | 0 <= a < b < |part| ensures Precedes(list, part[a], part[b]) {
      var c, d := if a < i then a else a + 1, if b < i then b else b + 1;
      assert list[c] == part[a] && list[d] == part[b];
    }
  }

  lemma PinTracked(list: seq<int>, h: seq<Event>, f: int)
    requires Tracks(list, h)
    ensures Tracks(Without(list, f), h + [Pinned(f)])
  {
    WithoutElements(list, f);
    WithoutSameOrder(list, f);
    ListKept(list, h, Without(list, f), Pinned(f));
  }

  /** The last frame of the list is the one released first. */
  lemma VictimTracked(list: seq<int>, h: seq<Event>)
    requires Tracks(list, h) && list != []
    ensures var f := list[|list| - 1]; ReleasedFirst(h, f) && Tracks(list[..|list| - 1], h + [Evicted(f)])
  {
    var n := |list| - 1;
    var f, list' := list[n], list[..n];
    assert list == list' + [f];
    PrefixSameOrder(list, n);
    ListKept(list, h, list', Evicted(f));
    assert Evictable(h, f);
    var m :| Released(h, f, m);
    var i := FirstRelease(h, f, m);
    forall g, j | ReleasedAt(h, g, j) ensures i <= j {
      assert Evictable(h, g);
      var a :| 0 <= a < |list| && list[a] == g;
      if a < n { assert j > i; }
    }
  }

  /** One call, as the calls before it say: the victim is the frame released first, and there is none only if no frame
      may be evicted. */
  ghost predicate Answers(h: seq<Event>, op: Op, e: Event)
  {
    match op
    case DoUnpin(f) => e == Unpinned(f)
    case DoPin(f) => e == Pinned(f)
    case DoVictim =>
      || (e.Evicted? && ReleasedFirst(h, e.f))
      || (e == NothingToEvict && forall f :: !Evictable(h, f))
  }

  method Call(r: Replacer, op: Op, ghost h: seq<Event>) returns (e: Event)
    requires r.Valid() && Tracks(r.lruList, h) && (op.DoVictim? || 0 <= op.f < |r.isPinned|)
    modifies r
    ensures r.Valid() && |r.isPinned| == old(|r.isPinned|) && Tracks(r.lruList, h + [e]) && Answers(h, op, e)
  {
    ghost var list := r.lruList;
    match op {
      case DoUnpin(f) =>
        r.Unpin(f);
        e := Unpinned(f);
        UnpinTracked(list, h, f);
      case DoPin(f) =>
        r.Pin(f);
        e := Pinned(f);
        PinTracked(list, h, f);
      case DoVictim =>
        var found, f := r.Victim();
        e := if found then Evicted(f) else NothingToEvict;
        if found {
          VictimTracked(list, h);
        } else {
          ListKept(list, h, list, e);
        }
    }
  }

  /** Any calls on a new replacer: each victim is the frame released longest ago. */
  method Run(numFrames: nat, ops: seq<Op>) returns (h: seq<Event>)
    requires forall op <- ops :: op.DoVictim? || 0 <= op.f < numFrames
    ensures |h| == |ops| && forall k :: 0 <= k < |ops| ==> Answers(h[..k], ops[k], h[k])
  {
    var r := new Replacer(numFrames);
    h := [];
    for i := 0 to |ops|
      invariant fresh(r) && r.Valid() && |r.isPinned| == numFrames && |h| == i && Tracks(r.lruList, h)
      invariant forall k :: 0 <= k < i ==> Answers(h[..k], ops[k], h[k])
    {
      var e := Call(r, ops[i], h);
      assert (h + [e])[..i] == h;
      assert forall k :: 0 <= k < i ==> (h + [e])[..k] == h[..k];
      h := h + [e];
    }
  }
}
