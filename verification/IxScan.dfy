/** The index cursor IxScan, and exactly when a scan between two positions works.

    IxScan::next steps into the next leaf without looking whether it is empty. A scan that
    must cross from a leaf into an empty one that is not the last leaf stands on a slot
    without an entry, and so does one whose start lies behind its end. */
module IxScan {
  import opened Common
  import opened BTree
  import opened LeafChain
  import opened IxIndexHandle

  datatype ScanResult = Rows(rids: seq<Rid>) | EntryNotFound

  /** Leaving leaf i at its end leads to an entry or to the end of the chain. */
  ghost predicate CrossingOk(t: Tree, s: Shape, i: nat)
  {
    i + 2 < |s.leaves| ==> LeafSize(t.nodes, s.leaves[i + 1]) > 0
  }

  /** No leaf whose last entry lies in [from, to) is followed by an empty leaf other than the last one. */
  ghost predicate GapFree(t: Tree, s: Shape, from: nat, to: nat)
  {
    forall i: nat {:trigger CrossingOk(t, s, i)} ::
      i < |s.leaves| && LeafSize(t.nodes, s.leaves[i]) > 0 && from < Offset(t.nodes, s.leaves, i + 1) <= to
      ==> CrossingOk(t, s, i)
  }

  function RidsOf(es: seq<Entry>): (r: seq<Rid>)
    ensures |r| == |es| && forall i :: 0 <= i < |es| ==> r[i] == es[i].rid
  {
    seq(|es|, i requires 0 <= i < |es| => es[i].rid)
  }

  lemma RidsExtend(es: seq<Entry>, from: nat, f: nat)
    requires from <= f < |es|
    ensures RidsOf(es[from..f + 1]) == RidsOf(es[from..f]) + [es[f].rid]
  {
  }

  /** The entries from..f have been read. */
  ghost predicate Gathered(rids: seq<Rid>, es: seq<Entry>, from: nat, f: nat)
  {
    from <= f <= |es| && rids == RidsOf(es[from..f])
  }

  lemma GatherMore(rids: seq<Rid>, es: seq<Entry>, from: nat, f: nat)
    requires Gathered(rids, es, from, f) && f < |es|
    ensures Gathered(rids + [es[f].rid], es, from, f + 1)
  {
    RidsExtend(es, from, f);
  }

  class Scan {
    const ih: IndexHandle
    var iid: Iid
    const end: Iid

    constructor (handle: IndexHandle, lower: Iid, upper: Iid)
      ensures ih == handle && iid == lower && end == upper
    {
      ih, iid, end := handle, lower, upper;
    }

    /** rid(): the entry under the cursor; IndexEntryNotFoundError when the slot holds none. */
    method CurrentRid() returns (r: Option<Rid>)
      requires iid.pageNo in ih.nodes && |ih.nodes[iid.pageNo].keys| == |ih.nodes[iid.pageNo].rids|
      requires 0 <= iid.slotNo
      ensures r == if iid.slotNo < |ih.nodes[iid.pageNo].rids| then Some(ih.nodes[iid.pageNo].rids[iid.slotNo])
                else None
    {
      if iid.slotNo >= |ih.nodes[iid.pageNo].keys| {
        return None;
      }
      r := Some(ih.nodes[iid.pageNo].rids[iid.slotNo]);
    }

    /** next(): the cursor stands on entry f; afterwards it stands on entry f + 1,
        or at slot 0 of an empty leaf. */
    method Next(ghost i: nat, ghost f: nat) returns (ghost i': nat)
      requires ih.Valid() && At(ih.View(), ih.shape, iid, i, f) && f < |ih.Entries()|
      modifies this`iid
      ensures i' < |ih.shape.leaves| && iid.pageNo == ih.shape.leaves[i'] && 0 <= iid.slotNo
      ensures Offset(ih.nodes, ih.shape.leaves, i') + iid.slotNo == f + 1
      ensures At(ih.View(), ih.shape, iid, i', f + 1) || iid.slotNo == LeafSize(ih.nodes, iid.pageNo) == 0
      ensures f + 1 == Offset(ih.nodes, ih.shape.leaves, i + 1) ==>
                (At(ih.View(), ih.shape, iid, i', f + 1) <==> CrossingOk(ih.View(), ih.shape, i))
      ensures f + 1 != Offset(ih.nodes, ih.shape.leaves, i + 1) ==> At(ih.View(), ih.shape, iid, i', f + 1)
    {
      ghost var t, s := ih.View(), ih.shape;
      AtBound(t, s, iid, i, f);
      assert LinkOk(t, s, i) && NodeOk(t, s, -1, iid.pageNo);
      i' := i;
      iid := iid.(slotNo := iid.slotNo + 1);
      if iid.pageNo == ih.lastLeaf { ChainDistinct(t, s, i, |s.leaves| - 1); }
      if iid.pageNo != ih.lastLeaf && iid.slotNo == |ih.nodes[iid.pageNo].keys| {
        NextLeaf(t, s, i);
        iid := Iid(ih.nodes[iid.pageNo].nextLeaf, 0);
        i' := i + 1;
      }
    }

    /** rid() and then next(), as the index scan executor does for each entry. */
    method Step(ghost i: nat, ghost f: nat, ghost from: nat, ghost to: nat, ghost j: nat)
      returns (r: Option<Rid>, ghost i': nat)
      requires ih.Valid() && At(ih.View(), ih.shape, end, j, to) && to <= |ih.Entries()|
      requires CursorOk(ih.View(), ih.shape, iid, i, f, from, to, end) && iid != end
      modifies this`iid
      ensures r == None ==> !(from <= to && GapFree(ih.View(), ih.shape, from, to))
      ensures r.Some? ==> f < |ih.Entries()| && r.value == ih.Entries()[f].rid
      ensures r.Some? ==> CursorOk(ih.View(), ih.shape, iid, i', f + 1, from, to, end)
    {
      ghost var t, s, before := ih.View(), ih.shape, iid;
      i' := i;
      CursorFails(t, s, iid, i, f, from, to, end);
      LeafPage(t, s, i);
      r := CurrentRid();
      if r.Some? {
        WalkAt(ih.nodes, s.leaves, i, iid.slotNo);
        i' := Next(i, f);
        CursorStep(t, s, before, i, f, from, to, end, j, iid, i');
      }
    }

    /** One more entry behind those that have been read. */
    method Read(rids: seq<Rid>, ghost i: nat, ghost f: nat, ghost from: nat, ghost to: nat, ghost j: nat)
      returns (more: Option<seq<Rid>>, ghost i': nat)
      requires ih.Valid() && At(ih.View(), ih.shape, end, j, to) && to <= |ih.Entries()|
      requires CursorOk(ih.View(), ih.shape, iid, i, f, from, to, end) && iid != end
      requires Gathered(rids, ih.Entries(), from, f)
      modifies this`iid
      ensures more == None ==> !(from <= to && GapFree(ih.View(), ih.shape, from, to))
      ensures more.Some? ==> f < |ih.Entries()| && Gathered(more.value, ih.Entries(), from, f + 1)
      ensures more.Some? ==> CursorOk(ih.View(), ih.shape, iid, i', f + 1, from, to, end)
    {
      var rid;
      rid, i' := Step(i, f, from, to, j);
      if rid == None {
        return None, i';
      }
      GatherMore(rids, ih.Entries(), from, f);
      more := Some(rids + [rid.value]);
    }
  }

  lemma LeafPage(t: Tree, s: Shape, i: nat)
    requires Inv(t, s, -1, NoSplit, -1) && i < |s.leaves|
    ensures s.leaves[i] in t.nodes && |t.nodes[s.leaves[i]].keys| == |t.nodes[s.leaves[i]].rids|
  {
    assert LinkOk(t, s, i) && NodeOk(t, s, -1, s.leaves[i]);
  }

  lemma GapFreeExtends(t: Tree, s: Shape, from: nat, f: nat, i: nat, iid: Iid)
    requires GapFree(t, s, from, f) && At(t, s, iid, i, f) && iid.slotNo < LeafSize(t.nodes, iid.pageNo) && from <= f
    requires f + 1 == Offset(t.nodes, s.leaves, i + 1) ==> CrossingOk(t, s, i)
    ensures GapFree(t, s, from, f + 1)
  {
    forall j: nat | j < |s.leaves| && LeafSize(t.nodes, s.leaves[j]) > 0
                    && from < Offset(t.nodes, s.leaves, j + 1) <= f + 1
      ensures CrossingOk(t, s, j)
    {
      if j < i { OffsetMonotone(t.nodes, s.leaves, j + 1, i); }
      if i < j { OffsetMonotone(t.nodes, s.leaves, i + 1, j); }
    }
  }

  lemma GapBreaks(t: Tree, s: Shape, from: nat, to: nat, f: nat, i: nat)
    requires i < |s.leaves| && LeafSize(t.nodes, s.leaves[i]) > 0 && f + 1 == Offset(t.nodes, s.leaves, i + 1)
    requires !CrossingOk(t, s, i) && from <= f < to
    ensures !GapFree(t, s, from, to)
  {
  }

  /** Slot 0 of an empty leaf that is not the last one. */
  ghost predicate CursorStuck(t: Tree, s: Shape, iid: Iid, i: nat)
  {
    i < |s.leaves| - 1 && iid.slotNo == LeafSize(t.nodes, iid.pageNo) == 0
  }

  /** The cursor after f - from steps: on entry f with no bad crossing behind it, or stuck for good. */
  ghost predicate CursorOk(t: Tree, s: Shape, iid: Iid, i: nat, f: nat, from: nat, to: nat, upper: Iid)
  {
    && i < |s.leaves| && s.leaves[i] == iid.pageNo && 0 <= iid.slotNo && from <= f <= |Walk(t.nodes, s.leaves)|
    && (|| (At(t, s, iid, i, f) && GapFree(t, s, from, f) && (from <= to ==> f <= to) && (iid == upper <==> f == to))
        || (CursorStuck(t, s, iid, i) && iid != upper && !(from <= to && GapFree(t, s, from, to))))
  }

  lemma CursorStart(t: Tree, s: Shape, lower: Iid, i: nat, from: nat, upper: Iid, j: nat, to: nat)
    requires Inv(t, s, -1, NoSplit, -1) && At(t, s, lower, i, from) && At(t, s, upper, j, to)
    ensures CursorOk(t, s, lower, i, from, from, to, upper) && to <= |Walk(t.nodes, s.leaves)|
  {
    AtBound(t, s, lower, i, from);
    AtBound(t, s, upper, j, to);
    PositionUnique(t, s, lower, i, from, upper, j, to);
  }

  lemma CursorStep(t: Tree, s: Shape, iid: Iid, i: nat, f: nat, from: nat, to: nat, upper: Iid, j: nat, iid': Iid,
                   i': nat)
    requires Inv(t, s, -1, NoSplit, -1) && At(t, s, upper, j, to)
    requires CursorOk(t, s, iid, i, f, from, to, upper) && iid != upper
    requires At(t, s, iid, i, f) && f < |Walk(t.nodes, s.leaves)|
    requires i' < |s.leaves| && iid'.pageNo == s.leaves[i'] && 0 <= iid'.slotNo
    requires At(t, s, iid', i', f + 1) || iid'.slotNo == LeafSize(t.nodes, iid'.pageNo) == 0
    requires f + 1 == Offset(t.nodes, s.leaves, i + 1) ==> (At(t, s, iid', i', f + 1) <==> CrossingOk(t, s, i))
    requires f + 1 != Offset(t.nodes, s.leaves, i + 1) ==> At(t, s, iid', i', f + 1)
    requires Offset(t.nodes, s.leaves, i') + iid'.slotNo == f + 1
    ensures CursorOk(t, s, iid', i', f + 1, from, to, upper)
  {
    AtBound(t, s, iid, i, f);
    if At(t, s, iid', i', f + 1) {
      GapFreeExtends(t, s, from, f, i, iid);
      PositionUnique(t, s, iid', i', f + 1, upper, j, to);
    } else {
      if from <= to { GapBreaks(t, s, from, to, f, i); }
      if s.leaves[i'] == s.leaves[j] { ChainDistinct(t, s, i', j); }
    }
  }

  /** At the end position the scan has succeeded. */
  lemma CursorEnd(t: Tree, s: Shape, i: nat, f: nat, from: nat, to: nat, upper: Iid)
    requires CursorOk(t, s, upper, i, f, from, to, upper)
    ensures f == to && from <= to && GapFree(t, s, from, to)
  {
  }

  /** Off the end position, a slot without an entry means that the scan cannot work. */
  lemma CursorFails(t: Tree, s: Shape, iid: Iid, i: nat, f: nat, from: nat, to: nat, upper: Iid)
    requires CursorOk(t, s, iid, i, f, from, to, upper) && iid != upper && to <= |Walk(t.nodes, s.leaves)|
    ensures iid.slotNo >= LeafSize(t.nodes, iid.pageNo) ==> !(from <= to && GapFree(t, s, from, to))
    ensures iid.slotNo < LeafSize(t.nodes, iid.pageNo) ==> At(t, s, iid, i, f) && f < |Walk(t.nodes, s.leaves)|
  {
    if At(t, s, iid, i, f) { AtBound(t, s, iid, i, f); }
  }

  /** The scan loop: read the entry, step, until the end position. It succeeds if and only if the
      start is not behind the end and no empty leaf is crossed, and then it returns exactly the
      entries between the two positions. */
  method Collect(ih: IndexHandle, lower: Iid, upper: Iid, ghost from: nat, ghost to: nat) returns (r: ScanResult)
    requires ih.Valid() && Position(ih.View(), ih.shape, lower, from) && Position(ih.View(), ih.shape, upper, to)
    ensures r.Rows? <==> from <= to && GapFree(ih.View(), ih.shape, from, to)
    ensures r.Rows? ==> to <= |ih.Entries()| && r.rids == RidsOf(ih.Entries()[from..to])
  {
    ghost var t, s, es, f := ih.View(), ih.shape, ih.Entries(), from;
    ghost var i: nat :| At(t, s, lower, i, from);
    ghost var j: nat :| At(t, s, upper, j, to);
    CursorStart(t, s, lower, i, from, upper, j, to);
    var scan := new Scan(ih, lower, upper);
    var rids := [];
    while scan.iid != scan.end
      invariant scan.ih == ih && scan.end == upper
      invariant CursorOk(t, s, scan.iid, i, f, from, to, upper)
      invariant Gathered(rids, es, from, f)
      decreases |es| - f
    {
      var more, i' := scan.Read(rids, i, f, from, to, j);
      if more == None {
        return EntryNotFound;
      }
      rids := more.value;
      i, f := i', f + 1;
    }
    CursorEnd(t, s, i, f, from, to, upper);
    r := Rows(rids);
  }
}
