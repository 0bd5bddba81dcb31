/** Deletes can leave an empty leaf in the middle of the chain, which a full scan cannot pass. Any index with more
    than two leaves' worth of entries can be brought there by deletes alone; the index stays well formed and lookups
    right. */
module EmptyLeaf {
  import opened Common
  import opened KeyOrder
  import opened IxNode
  import opened BTree
  import opened LeafChain
  import opened IxIndexHandle
  import opened IxScan

  lemma LeafNotOver(t: Tree, s: Shape, i: nat)
    requires Inv(t, s, -1, NoSplit, -1) && i < |s.leaves|
    ensures s.leaves[i] in t.nodes && t.nodes[s.leaves[i]].isLeaf && LeafSize(t.nodes, s.leaves[i]) <= t.order
    ensures LeafSize(t.nodes, s.leaves[i]) == |t.nodes[s.leaves[i]].keys|
    ensures i + 1 < |s.leaves| ==> t.nodes[s.leaves[i]].nextLeaf == s.leaves[i + 1]
  {
    assert LinkOk(t, s, i) && NodeOk(t, s, -1, s.leaves[i]);
  }

  lemma EntriesOf(nodes: map<int, Node>, leaves: seq<int>)
    ensures |Walk(nodes, leaves)| == Offset(nodes, leaves, |leaves|)
  {
    OffsetIsLength(nodes, leaves, |leaves|);
    assert leaves[..|leaves|] == leaves;
  }

  /** With more than two leaves' worth of entries, two leaves follow the first one that is not empty. */
  lemma TwoLeavesFollow(t: Tree, s: Shape, i: nat)
    requires Inv(t, s, -1, NoSplit, -1) && i < |s.leaves| && Offset(t.nodes, s.leaves, i) == 0
    requires |Walk(t.nodes, s.leaves)| > 2 * t.order
    ensures i + 2 < |s.leaves|
  {
    EntriesOf(t.nodes, s.leaves);
    LeafNotOver(t, s, i);
    if i + 1 < |s.leaves| { LeafNotOver(t, s, i + 1); }
  }

  /** Only leaf m may have another size. */
  ghost predicate SameSizesBut(nodes: map<int, Node>, nodes': map<int, Node>, leaves: seq<int>, m: nat)
  {
    forall j :: 0 <= j < |leaves| && j != m ==> LeafSize(nodes', leaves[j]) == LeafSize(nodes, leaves[j])
  }

  lemma {:induction false} OffsetsShift(nodes: map<int, Node>, nodes': map<int, Node>, leaves: seq<int>, m: nat, k: nat)
    requires SameSizesBut(nodes, nodes', leaves, m) && m < |leaves| && k <= |leaves|
    ensures Offset(nodes', leaves, k) == Offset(nodes, leaves, k) +
              if k <= m then 0 else LeafSize(nodes', leaves[m]) - LeafSize(nodes, leaves[m])
  {
    if k > 0 { OffsetsShift(nodes, nodes', leaves, m, k - 1); }
  }

  /** The leaf after the first entries is empty and not the last one, so that a full scan must cross it. */
  lemma GapOpens(t: Tree, t': Tree, s: Shape, s': Shape, i: nat)
    requires Inv(t, s, -1, NoSplit, -1) && |Walk(t.nodes, s.leaves)| > 2 * t.order && s'.leaves == s.leaves
    requires i + 2 < |s.leaves| && Offset(t.nodes, s.leaves, i) == 0 && LeafSize(t.nodes, s.leaves[i]) > 0
    requires SameSizesBut(t.nodes, t'.nodes, s.leaves, i + 1) && LeafSize(t'.nodes, s.leaves[i + 1]) == 0
    ensures !GapFree(t', s', 0, |Walk(t'.nodes, s'.leaves)|)
  {
    EntriesOf(t.nodes, s.leaves);
    EntriesOf(t'.nodes, s.leaves);
    LeafNotOver(t, s, i);
    LeafNotOver(t, s, i + 1);
    OffsetsShift(t.nodes, t'.nodes, s.leaves, i + 1, |s.leaves|);
    OffsetsShift(t.nodes, t'.nodes, s.leaves, i + 1, i);
    assert Offset(t'.nodes, s'.leaves, i + 1) == LeafSize(t.nodes, s.leaves[i]);
    assert !CrossingOk(t', s', i);
  }

  lemma Shrinks(t: Tree, s: Shape, t': Tree, m: nat, key: int)
    requires Inv(t, s, -1, NoSplit, -1) && LeavesLose(t.nodes, t'.nodes, key)
    requires m < |s.leaves| && Holds(t, s.leaves[m], key) && !Holds(t', s.leaves[m], key)
    ensures SameSizesBut(t.nodes, t'.nodes, s.leaves, m)
    ensures LeafSize(t'.nodes, s.leaves[m]) == LeafSize(t.nodes, s.leaves[m]) - 1
  {
    var p := s.leaves[m];
    LeafNotOver(t, s, m);
    assert NodeOk(t, s, -1, p);
    forall j | 0 <= j < |s.leaves| && j != m ensures LeafSize(t'.nodes, s.leaves[j]) == LeafSize(t.nodes, s.leaves[j]) {
      LeafNotOver(t, s, j);
      if key in t.nodes[s.leaves[j]].keys {
        LeafUnique(t, s, -1, NoSplit, -1, p, s.leaves[j], key);
        ChainDistinct(t, s, j, m);
      }
    }
  }

  ghost predicate Submap(m: map<int, Rid>, m': map<int, Rid>)
  {
    forall k <- m :: k in m' && m[k] == m'[k]
  }

  /** Delete the entries of leaf m one by one. */
  method EmptyTheLeaf(ih: IndexHandle, p: int, ghost m: nat)
    requires ih.Valid() && m < |ih.shape.leaves| && ih.shape.leaves[m] == p
    modifies ih
    ensures ih.Valid() && ih.shape.leaves == old(ih.shape.leaves) && Submap(ih.contents, old(ih.contents))
    ensures SameSizesBut(old(ih.nodes), ih.nodes, ih.shape.leaves, m) && LeafSize(ih.nodes, p) == 0
  {
    LeafNotOver(ih.View(), ih.shape, m);
    while |ih.nodes[p].keys| > 0
      invariant ih.Valid() && ih.shape.leaves == old(ih.shape.leaves) && Submap(ih.contents, old(ih.contents))
      invariant p in ih.nodes && LeafSize(ih.nodes, p) == |ih.nodes[p].keys|
      invariant SameSizesBut(old(ih.nodes), ih.nodes, ih.shape.leaves, m)
      decreases |ih.nodes[p].keys|
    {
      DeleteFirst(ih, p, m);
    }
  }

  method DeleteFirst(ih: IndexHandle, p: int, ghost m: nat)
    requires ih.Valid() && m < |ih.shape.leaves| && ih.shape.leaves[m] == p && LeafSize(ih.nodes, p) > 0
    modifies ih
    ensures ih.Valid() && ih.shape.leaves == old(ih.shape.leaves) && Submap(ih.contents, old(ih.contents))
    ensures p in ih.nodes && SameSizesBut(old(ih.nodes), ih.nodes, ih.shape.leaves, m)
    ensures LeafSize(ih.nodes, p) == |ih.nodes[p].keys| == old(LeafSize(ih.nodes, p)) - 1
  {
    ghost var t, s := ih.View(), ih.shape;
    var key := ih.nodes[p].keys[0];
    LeafNotOver(t, s, m);
    assert EntryIn(t, ih.contents, p, 0);
    var _ := ih.DeleteEntry(key);
    LeafNotOver(ih.View(), ih.shape, m);
    AbsentKey(ih.View(), ih.contents, p, key);
    Shrinks(t, s, ih.View(), m, key);
  }

  lemma AbsentKey(t: Tree, m: map<int, Rid>, p: int, key: int)
    requires Agrees(t, m) && key !in m && (p in t.nodes ==> |t.nodes[p].keys| == |t.nodes[p].rids|)
    ensures !Holds(t, p, key)
  {
    if p in t.nodes && t.nodes[p].isLeaf {
      forall i | 0 <= i < |t.nodes[p].keys| ensures t.nodes[p].keys[i] != key { assert EntryIn(t, m, p, i); }
    }
  }

  /** From any index with more than two leaves' worth of entries, deletes lead to one that a full scan cannot pass. */
  method BreakScan(ih: IndexHandle)
    requires ih.Valid() && |ih.Entries()| > 2 * ih.order
    modifies ih
    ensures ih.Valid() && Submap(ih.contents, old(ih.contents))
    ensures !GapFree(ih.View(), ih.shape, 0, |ih.Entries()|)
  {
    ghost var t, s := ih.View(), ih.shape;
    var begin := ih.LeafBegin();
    ghost var i: nat :| At(t, s, begin, i, 0);
    AtBound(t, s, begin, i, 0);
    TwoLeavesFollow(t, s, i);
    LeafNotOver(t, s, i);
    EmptyTheLeaf(ih, ih.nodes[begin.pageNo].nextLeaf, i + 1);
    GapOpens(t, ih.View(), s, ih.shape, i);
  }

  lemma {:induction false} KeysAtMost(es: seq<Entry>)
    ensures |set e <- es :: e.key| <= |es|
  {
    if es != [] {
      var last, rest := es[|es| - 1], es[..|es| - 1];
      KeysAtMost(rest);
      assert es == rest + [last];
      assert (set e <- es :: e.key) == (set e <- rest :: e.key) + {last.key};
    }
  }

  lemma EntriesAtLeast(t: Tree, s: Shape, m: map<int, Rid>)
    requires Inv(t, s, -1, NoSplit, -1) && Agrees(t, m)
    ensures |m| <= |Walk(t.nodes, s.leaves)|
  {
    var es := Walk(t.nodes, s.leaves);
    var keys := set e <- es :: e.key;
    ChainComplete(t, s, m);
    forall k | k in m.Keys ensures k in keys { assert Entry(k, m[k]) in es; }
    assert keys == m.Keys + (keys - m.Keys);
    assert |m| == |m.Keys|;
    KeysAtMost(es);
  }

  /** An index on the schema, filled with n entries. */
  method Fill(schema: seq<ColType>, n: nat) returns (ih: IndexHandle)
    requires 1 <= KeyLength(schema) <= IX_MAX_COL_LEN && n <= KeySpace(schema)
    ensures fresh(ih) && ih.Valid() && ih.order == BtreeOrder(KeyLength(schema)) && ih.keySpace == KeySpace(schema)
    ensures |ih.contents| == n
  {
    OverfullNodeFits(KeyLength(schema));
    ih := new IndexHandle(BtreeOrder(KeyLength(schema)), KeySpace(schema));
    for key := 0 to n
      invariant fresh(ih) && ih.Valid() && |ih.contents| == key
      invariant forall k <- ih.contents :: k < key
    {
      var _ := ih.InsertEntry(key, Rid(1, key));
    }
  }

  /** For every schema with enough keys: fill a new index with 2 * order + 1 entries, delete the entries of one leaf,
      and a full scan ends in IndexEntryNotFoundError. */
  method EmptyLeafStopsScan(schema: seq<ColType>) returns (r: ScanResult)
    requires 1 <= KeyLength(schema) <= IX_MAX_COL_LEN && 2 * BtreeOrder(KeyLength(schema)) < KeySpace(schema)
    ensures r == EntryNotFound
  {
    OverfullNodeFits(KeyLength(schema));
    var ih := Fill(schema, 2 * BtreeOrder(KeyLength(schema)) + 1);
    EntriesAtLeast(ih.View(), ih.shape, ih.contents);
    BreakScan(ih);
    var begin := ih.LeafBegin();
    var end := ih.LeafEnd();
    r := Collect(ih, begin, end, 0, |ih.Entries()|);
  }

  /** The smallest order of all, 6, belongs to the longest keys; 13 entries are enough there. */
  lemma SmallestOrder()
    ensures KeyLength([TypeString(512)]) == 512 && BtreeOrder(512) == 6 && 12 < KeySpace([TypeString(512)])
  {
    assert [TypeString(512)][1..] == [];
    assert Radix(TypeString(512)) == Pow256(512) == 256 * Pow256(511);
    assert KeySpace([]) == 1;
  }
}
