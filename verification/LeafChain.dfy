/** The leaf chain read from left to right: the entries of the index as one sorted sequence,
    and index positions (Iid) as places in that sequence. */
module LeafChain {
  import opened Common
  import opened IxNode
  import opened BTree

  datatype Entry = Entry(key: int, rid: Rid)

  datatype Iid = Iid(pageNo: int, slotNo: int)

  function LeafSize(nodes: map<int, Node>, p: int): (n: nat)
  {
    if p in nodes && |nodes[p].keys| == |nodes[p].rids| then |nodes[p].keys| else 0
  }

  function LeafEntries(nodes: map<int, Node>, p: int): (es: seq<Entry>)
    ensures |es| == LeafSize(nodes, p)
    ensures forall i :: 0 <= i < |es| ==> es[i] == Entry(nodes[p].keys[i], nodes[p].rids[i])
  {
    seq(LeafSize(nodes, p), i requires 0 <= i < LeafSize(nodes, p) => Entry(nodes[p].keys[i], nodes[p].rids[i]))
  }

  /** All entries met by following the listed leaves. */
  function Walk(nodes: map<int, Node>, leaves: seq<int>): (es: seq<Entry>)
  {
    if leaves == [] then [] else Walk(nodes, leaves[..|leaves| - 1]) + LeafEntries(nodes, leaves[|leaves| - 1])
  }

  /** The number of entries before leaf i. */
  function Offset(nodes: map<int, Node>, leaves: seq<int>, i: nat): (n: nat)
    requires i <= |leaves|
  {
    if i == 0 then 0 else Offset(nodes, leaves, i - 1) + LeafSize(nodes, leaves[i - 1])
  }

  ghost predicate EntriesAscending(es: seq<Entry>)
  {
    forall i, j :: 0 <= i < j < |es| ==> es[i].key < es[j].key
  }

  lemma {:induction false} WalkPrefix(nodes: map<int, Node>, leaves: seq<int>, i: nat)
    requires i <= |leaves|
    ensures |Walk(nodes, leaves[..i])| == Offset(nodes, leaves, i)
    ensures Walk(nodes, leaves[..i]) <= Walk(nodes, leaves)
  {
    OffsetIsLength(nodes, leaves, i);
    if i == |leaves| {
      assert leaves[..i] == leaves;
    } else {
      var shorter := leaves[..|leaves| - 1];
      assert shorter[..i] == leaves[..i];
      WalkPrefix(nodes, shorter, i);
    }
  }

  lemma {:induction false} OffsetIsLength(nodes: map<int, Node>, leaves: seq<int>, i: nat)
    requires i <= |leaves|
    ensures |Walk(nodes, leaves[..i])| == Offset(nodes, leaves, i)
  {
    if i > 0 {
      assert leaves[..i][..i - 1] == leaves[..i - 1];
      OffsetIsLength(nodes, leaves, i - 1);
    }
  }

  lemma {:induction false} OffsetMonotone(nodes: map<int, Node>, leaves: seq<int>, i: nat, j: nat)
    requires i <= j <= |leaves|
    ensures Offset(nodes, leaves, i) <= Offset(nodes, leaves, j)
  {
    if i < j { OffsetMonotone(nodes, leaves, i, j - 1); }
  }

  /** Slot j of leaf i is entry Offset(i) + j of the walk. */
  lemma WalkAt(nodes: map<int, Node>, leaves: seq<int>, i: nat, j: nat)
    requires i < |leaves| && j < LeafSize(nodes, leaves[i])
    ensures Offset(nodes, leaves, i) + j < |Walk(nodes, leaves)|
    ensures Walk(nodes, leaves)[Offset(nodes, leaves, i) + j] == LeafEntries(nodes, leaves[i])[j]
  {
    WalkPrefix(nodes, leaves, i + 1);
    OffsetIsLength(nodes, leaves, i);
    WalkSnoc(nodes, leaves, i);
    PrefixEntry(Walk(nodes, leaves[..i]), LeafEntries(nodes, leaves[i]), Walk(nodes, leaves), j);
  }

  lemma WalkSnoc(nodes: map<int, Node>, leaves: seq<int>, i: nat)
    requires i < |leaves|
    ensures Walk(nodes, leaves[..i + 1]) == Walk(nodes, leaves[..i]) + LeafEntries(nodes, leaves[i])
  {
    assert leaves[..i + 1][..i] == leaves[..i];
  }

  lemma PrefixEntry(front: seq<Entry>, mine: seq<Entry>, all: seq<Entry>, j: nat)
    requires front + mine <= all && j < |mine|
    ensures |front| + j < |all| && all[|front| + j] == mine[j]
  {
    assert (front + mine)[|front| + j] == mine[j];
  }

  /** Every entry of the walk is a slot of some leaf. */
  lemma {:induction false} WalkOrigin(nodes: map<int, Node>, leaves: seq<int>, f: nat) returns (i: nat, j: nat)
    requires f < |Walk(nodes, leaves)|
    ensures i < |leaves| && j < LeafSize(nodes, leaves[i]) && f == Offset(nodes, leaves, i) + j
  {
    var n := |leaves| - 1;
    WalkPrefix(nodes, leaves, n);
    if f < Offset(nodes, leaves, n) {
      i, j := WalkOrigin(nodes, leaves[..n], f);
      OffsetOfPrefix(nodes, leaves, n, i);
    } else {
      i, j := n, f - Offset(nodes, leaves, n);
    }
  }

  lemma {:induction false} OffsetOfPrefix(nodes: map<int, Node>, leaves: seq<int>, n: nat, i: nat)
    requires i <= n <= |leaves|
    ensures Offset(nodes, leaves[..n], i) == Offset(nodes, leaves, i)
  {
    if i > 0 { OffsetOfPrefix(nodes, leaves, n, i - 1); }
  }

  lemma {:induction false} PrefixBounded(t: Tree, s: Shape, n: nat)
    requires Inv(t, s, -1, NoSplit, -1) && n <= |s.leaves|
    ensures EntriesAscending(Walk(t.nodes, s.leaves[..n]))
    ensures forall e <- Walk(t.nodes, s.leaves[..n]) :: 0 <= e.key < t.keySpace
    ensures n < |s.leaves| ==> s.leaves[n] in s.lo
    ensures n < |s.leaves| ==> forall e <- Walk(t.nodes, s.leaves[..n]) :: e.key < s.lo[s.leaves[n]]
  {
    if n < |s.leaves| { assert LinkOk(t, s, n); }
    if n > 0 {
      PrefixBounded(t, s, n - 1);
      var p := s.leaves[n - 1];
      assert LinkOk(t, s, n - 1) && NodeOk(t, s, -1, p);
      WalkSnoc(t.nodes, s.leaves, n - 1);
      var front, mine := Walk(t.nodes, s.leaves[..n - 1]), LeafEntries(t.nodes, p);
      assert forall j :: 0 <= j < |mine| ==> mine[j].key == t.nodes[p].keys[j];
      AscendingConcat(front, mine, s.lo[p], s.hi[p]);
    }
  }

  lemma AscendingConcat(front: seq<Entry>, mine: seq<Entry>, lo: int, hi: int)
    requires EntriesAscending(front) && EntriesAscending(mine) && lo <= hi
    requires (forall e <- front :: e.key < lo) && forall j :: 0 <= j < |mine| ==> lo <= mine[j].key < hi
    ensures EntriesAscending(front + mine) && forall e <- front + mine :: e.key < hi
    ensures forall e <- front + mine :: e in front || lo <= e.key
  {
    forall i, j | 0 <= i < j < |front + mine| ensures (front + mine)[i].key < (front + mine)[j].key
    {
      if i < |front| <= j { assert front[i] in front; }
    }
  }

  /** The walk along the chain meets the keys in strictly ascending order. */
  lemma ChainSorted(t: Tree, s: Shape)
    requires Inv(t, s, -1, NoSplit, -1)
    ensures EntriesAscending(Walk(t.nodes, s.leaves))
    ensures forall e <- Walk(t.nodes, s.leaves) :: 0 <= e.key < t.keySpace
  {
    PrefixBounded(t, s, |s.leaves|);
    assert s.leaves[..|s.leaves|] == s.leaves;
  }

  /** ... and meets exactly the entries of the map. */
  lemma ChainComplete(t: Tree, s: Shape, m: map<int, Rid>)
    requires Inv(t, s, -1, NoSplit, -1) && Agrees(t, m)
    ensures forall e :: e in Walk(t.nodes, s.leaves) <==> e.key in m && m[e.key] == e.rid
  {
    var es := Walk(t.nodes, s.leaves);
    forall e | e in es ensures e.key in m && m[e.key] == e.rid {
      var f :| 0 <= f < |es| && es[f] == e;
      var i, j := WalkOrigin(t.nodes, s.leaves, f);
      WalkAt(t.nodes, s.leaves, i, j);
      assert LinkOk(t, s, i) && NodeOk(t, s, -1, s.leaves[i]);
      assert EntryIn(t, m, s.leaves[i], j);
    }
    forall e: Entry | e.key in m && m[e.key] == e.rid ensures e in es {
      var p :| Holds(t, p, e.key);
      assert NodeOk(t, s, -1, p);
      var i :| 0 <= i < |s.leaves| && s.leaves[i] == p;
      var j :| 0 <= j < |t.nodes[p].keys| && t.nodes[p].keys[j] == e.key;
      assert EntryIn(t, m, p, j);
      WalkAt(t.nodes, s.leaves, i, j);
    }
  }

  // ---------- positions ----------

  /** The position of entry f: a slot that holds an entry, or the end of the last leaf. */
  ghost predicate At(t: Tree, s: Shape, iid: Iid, i: nat, f: nat)
  {
    && i < |s.leaves| && iid.pageNo == s.leaves[i]
    && 0 <= iid.slotNo <= LeafSize(t.nodes, s.leaves[i])
    && (iid.slotNo < LeafSize(t.nodes, s.leaves[i]) || i == |s.leaves| - 1)
    && f == Offset(t.nodes, s.leaves, i) + iid.slotNo
  }

  ghost predicate Position(t: Tree, s: Shape, iid: Iid, f: nat)
  {
    exists i: nat :: At(t, s, iid, i, f)
  }

  /** f cuts the entries at the first key that is not below the target. */
  ghost predicate FirstAtLeast(es: seq<Entry>, target: int, f: nat)
  {
    && f <= |es|
    && (forall j :: 0 <= j < f ==> es[j].key < target)
    && (forall j :: f <= j < |es| ==> target <= es[j].key)
  }

  /** The position of the first entry whose key is not below the target, or of the end. */
  ghost predicate BoundOf(t: Tree, s: Shape, iid: Iid, target: int)
  {
    exists f: nat :: Position(t, s, iid, f) && FirstAtLeast(Walk(t.nodes, s.leaves), target, f)
  }

  lemma AtBound(t: Tree, s: Shape, iid: Iid, i: nat, f: nat)
    requires At(t, s, iid, i, f)
    ensures f <= |Walk(t.nodes, s.leaves)|
    ensures f < |Walk(t.nodes, s.leaves)| <==> iid.slotNo < LeafSize(t.nodes, iid.pageNo)
  {
    WalkPrefix(t.nodes, s.leaves, |s.leaves|);
    assert s.leaves[..|s.leaves|] == s.leaves;
    OffsetMonotone(t.nodes, s.leaves, i + 1, |s.leaves|);
  }

  /** A position names one entry, and an entry has one position. */
  lemma PositionUnique(t: Tree, s: Shape, a: Iid, i: nat, f: nat, b: Iid, j: nat, g: nat)
    requires Inv(t, s, -1, NoSplit, -1) && At(t, s, a, i, f) && At(t, s, b, j, g)
    ensures a == b <==> f == g
  {
    AtBound(t, s, a, i, f);
    AtBound(t, s, b, j, g);
    if i < j { OffsetMonotone(t.nodes, s.leaves, i + 1, j); }
    if j < i { OffsetMonotone(t.nodes, s.leaves, j + 1, i); }
    if a == b { ChainDistinct(t, s, i, j); }
  }

  ghost predicate Below(es: seq<Entry>, n: nat, target: int)
  {
    forall j :: 0 <= j < n && j < |es| ==> es[j].key < target
  }

  /** One more leaf whose keys are all below the target. */
  lemma BelowExtends(nodes: map<int, Node>, leaves: seq<int>, i: nat, slot: nat, target: int)
    requires i < |leaves| && slot <= LeafSize(nodes, leaves[i])
    requires Below(Walk(nodes, leaves), Offset(nodes, leaves, i), target)
    requires forall j :: 0 <= j < slot ==> nodes[leaves[i]].keys[j] < target
    ensures Below(Walk(nodes, leaves), Offset(nodes, leaves, i) + slot, target)
  {
    var es := Walk(nodes, leaves);
    var o := Offset(nodes, leaves, i);
    forall j | 0 <= j < o + slot && j < |es| ensures es[j].key < target {
      if j >= o { WalkAt(nodes, leaves, i, j - o); }
    }
  }

  /** The search stops in leaf i at a slot that is the first one not below the target. */
  lemma BoundFound(t: Tree, s: Shape, i: nat, slot: nat, target: int)
    requires EntriesAscending(Walk(t.nodes, s.leaves))
    requires i < |s.leaves| && slot <= LeafSize(t.nodes, s.leaves[i])
    requires slot < LeafSize(t.nodes, s.leaves[i]) || i == |s.leaves| - 1
    requires Below(Walk(t.nodes, s.leaves), Offset(t.nodes, s.leaves, i), target)
    requires forall j :: 0 <= j < slot ==> t.nodes[s.leaves[i]].keys[j] < target
    requires slot < LeafSize(t.nodes, s.leaves[i]) ==> target <= t.nodes[s.leaves[i]].keys[slot]
    ensures At(t, s, Iid(s.leaves[i], slot), i, Offset(t.nodes, s.leaves, i) + slot)
    ensures FirstAtLeast(Walk(t.nodes, s.leaves), target, Offset(t.nodes, s.leaves, i) + slot)
  {
    var es, f := Walk(t.nodes, s.leaves), Offset(t.nodes, s.leaves, i) + slot;
    AtBound(t, s, Iid(s.leaves[i], slot), i, f);
    BelowExtends(t.nodes, s.leaves, i, slot, target);
    if slot < LeafSize(t.nodes, s.leaves[i]) {
      WalkAt(t.nodes, s.leaves, i, slot);
      NotBelowAfter(es, f, target);
    }
  }

  lemma NotBelowAfter(es: seq<Entry>, f: nat, target: int)
    requires EntriesAscending(es) && f < |es| && target <= es[f].key
    ensures forall j :: f <= j < |es| ==> target <= es[j].key
  {
  }

  /** Entries before the leaf that can hold the key are below it. */
  lemma LeavesBelow(t: Tree, s: Shape, i: nat, target: int)
    requires Inv(t, s, -1, NoSplit, -1) && i < |s.leaves| && s.leaves[i] in s.lo && s.lo[s.leaves[i]] <= target
    ensures Below(Walk(t.nodes, s.leaves), Offset(t.nodes, s.leaves, i), target)
  {
    PrefixBounded(t, s, i);
    WalkPrefix(t.nodes, s.leaves, i);
    var es := Walk(t.nodes, s.leaves);
    forall j | 0 <= j < Offset(t.nodes, s.leaves, i) && j < |es| ensures es[j].key < target {
      assert es[j] == Walk(t.nodes, s.leaves[..i])[j];
    }
  }

  /** The state of the search in leaf i: everything before the slot is below the target. */
  ghost predicate Seeking(t: Tree, s: Shape, i: nat, slot: nat, target: int)
  {
    && i < |s.leaves| && s.leaves[i] in t.nodes
    && slot <= |t.nodes[s.leaves[i]].keys| == |t.nodes[s.leaves[i]].rids|
    && Below(Walk(t.nodes, s.leaves), Offset(t.nodes, s.leaves, i), target)
    && (forall j :: 0 <= j < slot ==> t.nodes[s.leaves[i]].keys[j] < target)
    && (forall j :: slot <= j < |t.nodes[s.leaves[i]].keys| ==> target <= t.nodes[s.leaves[i]].keys[j])
  }

  lemma NextLeaf(t: Tree, s: Shape, i: nat)
    requires Inv(t, s, -1, NoSplit, -1) && i < |s.leaves| && s.leaves[i] != t.last
    ensures s.leaves[i] in t.nodes && i + 1 < |s.leaves| && t.nodes[s.leaves[i]].nextLeaf == s.leaves[i + 1]
    ensures s.leaves[i + 1] in t.nodes && t.nodes[s.leaves[i + 1]].isLeaf && NodeOk(t, s, -1, s.leaves[i + 1])
  {
    assert LinkOk(t, s, i);
    assert LinkOk(t, s, i + 1);
    assert NodeOk(t, s, -1, s.leaves[i + 1]);
  }

  lemma SeekNext(t: Tree, s: Shape, i: nat, slot: nat, target: int)
    requires Inv(t, s, -1, NoSplit, -1) && Seeking(t, s, i, slot, target)
    requires slot == |t.nodes[s.leaves[i]].keys| && s.leaves[i] != t.last
    ensures i + 1 < |s.leaves| && t.nodes[s.leaves[i]].nextLeaf == s.leaves[i + 1]
    ensures s.leaves[i + 1] in t.nodes && t.nodes[s.leaves[i + 1]].isLeaf && NodeOk(t, s, -1, s.leaves[i + 1])
    ensures Below(Walk(t.nodes, s.leaves), Offset(t.nodes, s.leaves, i + 1), target)
  {
    NextLeaf(t, s, i);
    BelowExtends(t.nodes, s.leaves, i, slot, target);
  }

  lemma SeekDone(t: Tree, s: Shape, i: nat, slot: nat, target: int)
    requires Inv(t, s, -1, NoSplit, -1) && Seeking(t, s, i, slot, target)
    requires slot < |t.nodes[s.leaves[i]].keys| || s.leaves[i] == t.last
    ensures BoundOf(t, s, Iid(s.leaves[i], slot), target)
  {
    ChainSorted(t, s);
    if s.leaves[i] == t.last { ChainDistinct(t, s, i, |s.leaves| - 1); }
    BoundFound(t, s, i, slot, target);
    assert Position(t, s, Iid(s.leaves[i], slot), Offset(t.nodes, s.leaves, i) + slot);
  }
}
