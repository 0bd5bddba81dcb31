/** The B+ tree as a heap of pages, and the invariant every operation keeps.

    A ghost Shape gives each page a level and the half-open interval [lo, hi) of keys
    that the search can route to it. All conditions are local: they speak of one page,
    of one slot of a page, or of two pages. */
module BTree {
  import opened Common
  import opened IxNode

  datatype Tree = Tree(nodes: map<int, Node>, root: int, first: int, last: int,
                       numPages: int, order: int, keySpace: int)

  datatype Shape = Shape(level: map<int, int>, lo: map<int, int>, hi: map<int, int>, leaves: seq<int>)

  /** A page that was split and whose new right half has no slot in the parent yet. */
  datatype Pending = NoSplit | Split(left: int, right: int)

  predicate IsNew(pend: Pending, p: int)
  {
    pend.Split? && p == pend.right
  }

  /** The upper bound that the parent's slot of c sees: c together with its pending right half. */
  function SlotHi(s: Shape, pend: Pending, c: int): int
    requires c in s.hi && (pend.Split? ==> pend.right in s.hi)
  {
    if pend.Split? && c == pend.left then s.hi[pend.right] else s.hi[c]
  }

  ghost predicate Domain(t: Tree, s: Shape)
  {
    && s.level.Keys == s.lo.Keys == s.hi.Keys == t.nodes.Keys
    && t.root in t.nodes
    && 3 <= t.order && 0 < t.keySpace
    && IX_INIT_NUM_PAGES <= t.numPages
    && (forall p <- t.nodes :: IX_INIT_ROOT_PAGE <= p < t.numPages)
  }

  ghost predicate NodeOk(t: Tree, s: Shape, over: int, p: int)
    requires Domain(t, s) && p in t.nodes
  {
    var n := t.nodes[p];
    && |n.keys| == |n.rids|
    && |n.keys| <= t.order + (if p == over then 1 else 0)
    && 0 <= s.level[p] <= s.level[t.root]
    && 0 <= s.lo[p] < s.hi[p] <= t.keySpace
    && (n.isLeaf <==> s.level[p] == 0)
    && (n.isLeaf ==> Ascending(n.keys) && forall i :: 0 <= i < |n.keys| ==> s.lo[p] <= n.keys[i] < s.hi[p])
    && (!n.isLeaf ==> |n.keys| >= 1 && AscendingFromOne(n.keys) &&
                      forall i :: 1 <= i < |n.keys| ==> s.lo[p] < n.keys[i] < s.hi[p])
  }

  ghost predicate NodesOk(t: Tree, s: Shape, over: int)
    requires Domain(t, s)
  {
    forall p {:trigger NodeOk(t, s, over, p)} :: p in t.nodes ==> NodeOk(t, s, over, p)
  }

  ghost predicate PendOk(t: Tree, s: Shape, pend: Pending)
    requires Domain(t, s)
  {
    pend.Split? ==>
      && pend.left in t.nodes && pend.right in t.nodes && pend.left != pend.right && pend.right != t.root
      && s.level[pend.left] == s.level[pend.right]
      && s.hi[pend.left] == s.lo[pend.right]
      && t.nodes[pend.left].isLeaf == t.nodes[pend.right].isLeaf
      && t.nodes[pend.left].keys != []
      && t.nodes[pend.right].keys != []
      && t.nodes[pend.right].keys[0] == s.lo[pend.right]
  }

  /** Slot i of the internal page p: the child's bounds are the separators around the slot,
      and an internal child repeats in its own slot 0 the key the parent keeps for it. */
  ghost predicate SlotOk(t: Tree, s: Shape, pend: Pending, skip: int, p: int, i: int)
    requires Domain(t, s) && PendOk(t, s, pend)
    requires p in t.nodes && 0 <= i < |t.nodes[p].rids| == |t.nodes[p].keys|
  {
    var n := t.nodes[p];
    var c := n.rids[i].pageNo;
    && n.rids[i] == ChildRid(c)
    && c in t.nodes && !IsNew(pend, c)
    && s.level[c] + 1 == s.level[p]
    && t.nodes[c].parent == p
    && s.lo[c] == (if i == 0 then s.lo[p] else n.keys[i])
    && SlotHi(s, pend, c) == (if i + 1 < |n.keys| then n.keys[i + 1] else s.hi[p])
    && (c != skip && !t.nodes[c].isLeaf ==> t.nodes[c].keys != [] && t.nodes[c].keys[0] == n.keys[i])
  }

  ghost predicate SlotsOk(t: Tree, s: Shape, over: int, pend: Pending, skip: int)
    requires Domain(t, s) && PendOk(t, s, pend) && NodesOk(t, s, over)
  {
    forall p, i {:trigger SlotOk(t, s, pend, skip, p, i)} ::
      p in t.nodes && NodeOk(t, s, over, p) && !t.nodes[p].isLeaf && 0 <= i < |t.nodes[p].rids|
      ==> SlotOk(t, s, pend, skip, p, i)
  }

  ghost predicate ParentOk(t: Tree, s: Shape, c: int)
    requires Domain(t, s) && c in t.nodes
  {
    var p := t.nodes[c].parent;
    && p in t.nodes
    && s.level[p] == s.level[c] + 1
    && ChildRid(c) in t.nodes[p].rids
  }

  ghost predicate ParentsOk(t: Tree, s: Shape, pend: Pending)
    requires Domain(t, s)
  {
    && t.nodes[t.root].parent == IX_NO_PAGE
    && forall c {:trigger ParentOk(t, s, c)} ::
         c in t.nodes && c != t.root && !IsNew(pend, c) ==> ParentOk(t, s, c)
  }

  ghost predicate RootOk(t: Tree, s: Shape, pend: Pending)
    requires Domain(t, s) && PendOk(t, s, pend)
  {
    s.lo[t.root] == 0 && SlotHi(s, pend, t.root) == t.keySpace
  }

  /** Two pages are disjoint, or the deeper one lies inside the other. */
  ghost predicate Nested(s: Shape, p: int, q: int)
    requires p in s.level && q in s.level && s.level.Keys == s.lo.Keys == s.hi.Keys
  {
    || s.hi[p] <= s.lo[q]
    || s.hi[q] <= s.lo[p]
    || (s.level[p] < s.level[q] && s.lo[q] <= s.lo[p] && s.hi[p] <= s.hi[q])
  }

  ghost predicate Laminar(t: Tree, s: Shape)
    requires Domain(t, s)
  {
    forall p, q {:trigger Nested(s, p, q)} ::
      p in t.nodes && q in t.nodes && p != q && s.level[p] <= s.level[q] ==> Nested(s, p, q)
  }

  ghost predicate LinkOk(t: Tree, s: Shape, i: int)
    requires Domain(t, s) && 0 <= i < |s.leaves|
  {
    var p := s.leaves[i];
    && p in t.nodes && t.nodes[p].isLeaf
    && t.nodes[p].nextLeaf == (if i + 1 < |s.leaves| then s.leaves[i + 1] else IX_LEAF_HEADER_PAGE)
    && t.nodes[p].prevLeaf == (if i > 0 then s.leaves[i - 1] else IX_LEAF_HEADER_PAGE)
    && s.lo[p] < s.hi[p]
    && (i == 0 ==> s.lo[p] == 0)
    && (i + 1 == |s.leaves| ==> s.hi[p] == t.keySpace)
    && (i + 1 < |s.leaves| ==> s.leaves[i + 1] in s.lo && s.hi[p] == s.lo[s.leaves[i + 1]])
  }

  /** The leaf chain: from first_leaf_ to last_leaf_ through every leaf, left to right. */
  ghost predicate ChainOk(t: Tree, s: Shape)
    requires Domain(t, s)
  {
    && |s.leaves| > 0
    && s.leaves[0] == t.first && s.leaves[|s.leaves| - 1] == t.last
    && (forall i {:trigger LinkOk(t, s, i)} :: 0 <= i < |s.leaves| ==> LinkOk(t, s, i))
    && (forall p <- t.nodes :: t.nodes[p].isLeaf ==> p in s.leaves)
  }

  /** `over` may hold one entry too many; the key that the parent keeps for `skip` may be out of date. */
  ghost predicate Inv(t: Tree, s: Shape, over: int, pend: Pending, skip: int)
  {
    && Domain(t, s)
    && PendOk(t, s, pend)
    && NodesOk(t, s, over)
    && SlotsOk(t, s, over, pend, skip)
    && ParentsOk(t, s, pend)
    && RootOk(t, s, pend)
    && Laminar(t, s)
    && ChainOk(t, s)
  }

  ghost predicate Holds(t: Tree, p: int, k: int)
  {
    p in t.nodes && t.nodes[p].isLeaf && k in t.nodes[p].keys
  }

  ghost predicate EntryIn(t: Tree, m: map<int, Rid>, p: int, i: int)
    requires p in t.nodes && 0 <= i < |t.nodes[p].keys| == |t.nodes[p].rids|
  {
    t.nodes[p].keys[i] in m && m[t.nodes[p].keys[i]] == t.nodes[p].rids[i]
  }

  /** The leaf entries are exactly the map m. */
  ghost predicate Agrees(t: Tree, m: map<int, Rid>)
  {
    && (forall p, i {:trigger EntryIn(t, m, p, i)} ::
          p in t.nodes && t.nodes[p].isLeaf && 0 <= i < |t.nodes[p].keys| == |t.nodes[p].rids| ==> EntryIn(t, m, p, i))
    && (forall k <- m :: 0 <= k < t.keySpace && exists p :: Holds(t, p, k))
  }

  // ---------- lookups ----------

  lemma RootIffNoParent(t: Tree, s: Shape, over: int, pend: Pending, skip: int, p: int)
    requires Inv(t, s, over, pend, skip) && p in t.nodes && !IsNew(pend, p)
    ensures t.nodes[p].parent == IX_NO_PAGE <==> p == t.root
  {
    if p != t.root { assert ParentOk(t, s, p); }
  }

  /** At most one leaf can hold a key. */
  lemma LeafUnique(t: Tree, s: Shape, over: int, pend: Pending, skip: int, p: int, q: int, k: int)
    requires Inv(t, s, over, pend, skip)
    requires p in t.nodes && t.nodes[p].isLeaf && s.lo[p] <= k < s.hi[p]
    requires Holds(t, q, k)
    ensures p == q
  {
    assert NodeOk(t, s, over, p) && NodeOk(t, s, over, q);
    assert p != q ==> Nested(s, p, q);
  }

  lemma LookupAgrees(t: Tree, s: Shape, over: int, p: int, k: int, m: map<int, Rid>)
    requires Inv(t, s, over, NoSplit, -1) && Agrees(t, m)
    requires p in t.nodes && t.nodes[p].isLeaf && s.lo[p] <= k < s.hi[p]
    ensures k in m <==> k in t.nodes[p].keys
    ensures forall i :: 0 <= i < |t.nodes[p].keys| == |t.nodes[p].rids| && t.nodes[p].keys[i] == k
                        ==> k in m && m[k] == t.nodes[p].rids[i]
  {
    assert NodeOk(t, s, over, p);
    if k in m {
      var q :| Holds(t, q, k);
      LeafUnique(t, s, over, NoSplit, -1, p, q, k);
    }
    forall i | 0 <= i < |t.nodes[p].keys| == |t.nodes[p].rids| && t.nodes[p].keys[i] == k
      ensures k in m && m[k] == t.nodes[p].rids[i]
    {
      assert EntryIn(t, m, p, i);
    }
  }

  // ---------- a leaf's entries change ----------

  /** The tree after the entries of page p are replaced. */
  function WithEntries(t: Tree, p: int, keys: seq<int>, rids: seq<Rid>): Tree
    requires p in t.nodes
  {
    t.(nodes := t.nodes[p := t.nodes[p].(keys := keys, rids := rids)])
  }

  lemma LeafEntriesKeepInv(t: Tree, s: Shape, p: int, keys: seq<int>, rids: seq<Rid>, over: int)
    requires Inv(t, s, -1, NoSplit, -1)
    requires p in t.nodes && t.nodes[p].isLeaf
    requires |keys| == |rids| <= t.order + (if over == p then 1 else 0)
    requires Ascending(keys) && forall i :: 0 <= i < |keys| ==> s.lo[p] <= keys[i] < s.hi[p]
    ensures Inv(WithEntries(t, p, keys, rids), s, over, NoSplit, -1)
  {
    var t' := WithEntries(t, p, keys, rids);
    assert t'.nodes.Keys == t.nodes.Keys;
    forall q | q in t'.nodes ensures NodeOk(t', s, over, q) {
      assert NodeOk(t, s, -1, q);
    }
    forall q, i | q in t'.nodes && !t'.nodes[q].isLeaf && 0 <= i < |t'.nodes[q].rids|
      ensures SlotOk(t', s, NoSplit, -1, q, i)
    {
      assert NodeOk(t, s, -1, q);
      assert SlotOk(t, s, NoSplit, -1, q, i);
    }
    forall c | c in t'.nodes && c != t'.root ensures ParentOk(t', s, c) {
      assert ParentOk(t, s, c);
      assert NodeOk(t, s, -1, c) && NodeOk(t, s, -1, t.nodes[c].parent);
    }
    forall i | 0 <= i < |s.leaves| ensures LinkOk(t', s, i) {
      assert LinkOk(t, s, i);
    }
  }

  // ---------- split ----------

  ghost function SplitShape(s: Shape, p: int, y: int, m: int, leaves: seq<int>): Shape
    requires p in s.level && p in s.hi
  {
    Shape(s.level[y := s.level[p]], s.lo[y := m], s.hi[y := s.hi[p]][p := m], leaves)
  }

  /** Cutting an interval at m keeps the nesting when no deeper page straddles m. */
  lemma SplitKeepsLaminar(t: Tree, s: Shape, t': Tree, p: int, y: int, m: int, leaves: seq<int>)
    requires Domain(t, s) && Laminar(t, s)
    requires p in t.nodes && y !in t.nodes && t'.nodes.Keys == t.nodes.Keys + {y}
    requires s.lo[p] < m < s.hi[p]
    requires forall q <- t.nodes :: s.level[q] < s.level[p] ==> s.hi[q] <= m || m <= s.lo[q]
    requires Domain(t', SplitShape(s, p, y, m, leaves))
    ensures Laminar(t', SplitShape(s, p, y, m, leaves))
  {
    var s' := SplitShape(s, p, y, m, leaves);
    forall a, b | a in t'.nodes && b in t'.nodes && a != b && s'.level[a] <= s'.level[b]
      ensures Nested(s', a, b)
    {
      var a0 := if a == y then p else a;
      var b0 := if b == y then p else b;
      if a0 != b0 { assert Nested(s, a0, b0); }
    }
  }

  /** IxIndexHandle::split on a leaf: the right half moves to the new page y,
      which enters the chain between p and its successor. */
  function SplitLeaf(t: Tree, p: int): (r: Tree)
    requires p in t.nodes && |t.nodes[p].keys| == |t.nodes[p].rids|
    requires t.nodes[p].nextLeaf == IX_LEAF_HEADER_PAGE || t.nodes[p].nextLeaf in t.nodes
  {
    var n := t.nodes[p];
    var mid := |n.keys| / 2;
    var y := t.numPages;
    var nodes1 := t.nodes[y := Node(n.parent, true, p, n.nextLeaf, n.keys[mid..], n.rids[mid..])];
    var nodes2 := if n.nextLeaf == IX_LEAF_HEADER_PAGE then nodes1
                  else nodes1[n.nextLeaf := nodes1[n.nextLeaf].(prevLeaf := y)];
    t.(nodes := nodes2[p := n.(keys := n.keys[..mid], rids := n.rids[..mid], nextLeaf := y)],
       last := if t.last == p then y else t.last,
       numPages := y + 1)
  }

  lemma ChainNeighbour(t: Tree, s: Shape, p: int) returns (k: nat)
    requires Domain(t, s) && ChainOk(t, s) && p in t.nodes && t.nodes[p].isLeaf
    ensures k < |s.leaves| && s.leaves[k] == p && LinkOk(t, s, k)
    ensures t.nodes[p].nextLeaf == IX_LEAF_HEADER_PAGE <==> k + 1 == |s.leaves|
    ensures k + 1 < |s.leaves| ==> LinkOk(t, s, k + 1) && t.nodes[p].nextLeaf == s.leaves[k + 1]
  {
    k :| 0 <= k < |s.leaves| && s.leaves[k] == p;
    assert LinkOk(t, s, k);
    if k + 1 < |s.leaves| { assert LinkOk(t, s, k + 1); }
  }

  /** The chain visits leaves in ascending key order. */
  lemma {:induction false} ChainAscending(t: Tree, s: Shape, i: int, j: int)
    requires Domain(t, s) && ChainOk(t, s) && 0 <= i < j < |s.leaves|
    ensures s.leaves[i] in t.nodes && s.leaves[j] in t.nodes
    ensures s.hi[s.leaves[i]] <= s.lo[s.leaves[j]]
    decreases j - i
  {
    assert LinkOk(t, s, i) && LinkOk(t, s, j);
    if i + 1 < j {
      assert LinkOk(t, s, i + 1);
      ChainAscending(t, s, i + 1, j);
    }
  }

  lemma ChainDistinct(t: Tree, s: Shape, i: int, j: int)
    requires Domain(t, s) && ChainOk(t, s) && 0 <= i < |s.leaves| && 0 <= j < |s.leaves|
    requires s.leaves[i] == s.leaves[j]
    ensures i == j
  {
    assert LinkOk(t, s, i);
    if i < j { ChainAscending(t, s, i, j); }
    if j < i { ChainAscending(t, s, j, i); }
  }

  lemma InsertedLeaf(leaves: seq<int>, k: nat, y: int, i: nat)
    requires k < |leaves| && i <= |leaves|
    ensures InsertAt(leaves, k + 1, y)[i] == if i <= k then leaves[i] else if i == k + 1 then y else leaves[i - 1]
  {
  }

  /** What the split of leaf p does to the leaf links. */
  ghost predicate Relinked(t: Tree, t': Tree, p: int)
    requires p in t.nodes
  {
    var y := t.numPages;
    && y !in t.nodes && t'.nodes.Keys == t.nodes.Keys + {y} && t'.keySpace == t.keySpace
    && t'.nodes[y].isLeaf && t'.nodes[y].prevLeaf == p && t'.nodes[y].nextLeaf == t.nodes[p].nextLeaf
    && (forall q <- t.nodes ::
          && t'.nodes[q].isLeaf == t.nodes[q].isLeaf
          && t'.nodes[q].nextLeaf == (if q == p then y else t.nodes[q].nextLeaf)
          && t'.nodes[q].prevLeaf == (if q != p && q == t.nodes[p].nextLeaf then y else t.nodes[q].prevLeaf))
  }

  lemma SplitLeafRelinks(t: Tree, s: Shape, p: int)
    requires Domain(t, s) && p in t.nodes && |t.nodes[p].keys| == |t.nodes[p].rids| && t.nodes[p].isLeaf
    requires t.nodes[p].nextLeaf == IX_LEAF_HEADER_PAGE || t.nodes[p].nextLeaf in t.nodes
    ensures Relinked(t, SplitLeaf(t, p), p)
  {
    assert SplitLeaf(t, p).nodes.Keys == t.nodes.Keys + {t.numPages};
  }

  lemma SplitLeafLink(t: Tree, s: Shape, p: int, k: nat, t': Tree, s': Shape, m: int, i: nat)
    requires Domain(t, s) && ChainOk(t, s) && p in t.nodes && Relinked(t, t', p)
    requires k < |s.leaves| && s.leaves[k] == p && s.lo[p] < m < s.hi[p]
    requires t.nodes[p].nextLeaf == if k + 1 < |s.leaves| then s.leaves[k + 1] else IX_LEAF_HEADER_PAGE
    requires s' == SplitShape(s, p, t.numPages, m, InsertAt(s.leaves, k + 1, t.numPages))
    requires Domain(t', s') && i < |s'.leaves|
    ensures LinkOk(t', s', i)
  {
    var i0 := if i <= k then i else i - 1;
    assert LinkOk(t, s, i0);
    InsertedLeaf(s.leaves, k, t.numPages, i);
    if i > 0 { InsertedLeaf(s.leaves, k, t.numPages, i - 1); }
    if i + 1 < |s'.leaves| { InsertedLeaf(s.leaves, k, t.numPages, i + 1); }
    if i0 + 1 < |s.leaves| { assert LinkOk(t, s, i0 + 1); }
    if i0 > 0 { assert LinkOk(t, s, i0 - 1); }
    if s.leaves[i0] == p { ChainDistinct(t, s, i0, k); }
    if k + 1 < |s.leaves| && s.leaves[i0] == s.leaves[k + 1] { ChainDistinct(t, s, i0, k + 1); }
    if i0 + 1 < |s.leaves| && s.leaves[i0 + 1] == p { ChainDistinct(t, s, i0 + 1, k); }
  }

  lemma SplitLeafKeepsChain(t: Tree, s: Shape, p: int, k: nat, s': Shape)
    requires Domain(t, s) && ChainOk(t, s)
    requires p in t.nodes && t.nodes[p].isLeaf && |t.nodes[p].keys| == |t.nodes[p].rids| == t.order + 1
    requires k < |s.leaves| && s.leaves[k] == p
    requires t.nodes[p].nextLeaf == if k + 1 < |s.leaves| then s.leaves[k + 1] else IX_LEAF_HEADER_PAGE
    requires k + 1 < |s.leaves| ==> s.leaves[k + 1] in t.nodes
    requires s.lo[p] < t.nodes[p].keys[(t.order + 1) / 2] < s.hi[p]
    requires s' == SplitShape(s, p, t.numPages, t.nodes[p].keys[(t.order + 1) / 2],
                              InsertAt(s.leaves, k + 1, t.numPages))
    requires Domain(SplitLeaf(t, p), s')
    ensures ChainOk(SplitLeaf(t, p), s')
  {
    SplitLeafRelinks(t, s, p);
    RelinkedChain(t, s, p, k, SplitLeaf(t, p), s', t.nodes[p].keys[(t.order + 1) / 2]);
  }

  lemma RelinkedChain(t: Tree, s: Shape, p: int, k: nat, t': Tree, s': Shape, m: int)
    requires Domain(t, s) && ChainOk(t, s) && p in t.nodes && Relinked(t, t', p)
    requires k < |s.leaves| && s.leaves[k] == p && s.lo[p] < m < s.hi[p]
    requires t.nodes[p].nextLeaf == if k + 1 < |s.leaves| then s.leaves[k + 1] else IX_LEAF_HEADER_PAGE
    requires t'.first == t.first && t'.last == if t.last == p then t.numPages else t.last
    requires s' == SplitShape(s, p, t.numPages, m, InsertAt(s.leaves, k + 1, t.numPages)) && Domain(t', s')
    ensures ChainOk(t', s')
  {
    forall i | 0 <= i < |s'.leaves| ensures LinkOk(t', s', i) {
      SplitLeafLink(t, s, p, k, t', s', m, i);
    }
    if t.last == p { ChainDistinct(t, s, |s.leaves| - 1, k); }
    forall q | q in t'.nodes && t'.nodes[q].isLeaf ensures q in s'.leaves {
      if q == t.numPages {
        assert s'.leaves[k + 1] == q;
      } else {
        var j :| 0 <= j < |s.leaves| && s.leaves[j] == q;
        assert s'.leaves[if j <= k then j else j + 1] == q;
      }
    }
  }

  lemma HalvesAscending(keys: seq<int>, mid: nat, lo: int, hi: int)
    requires mid < |keys| && Ascending(keys) && forall i :: 0 <= i < |keys| ==> lo <= keys[i] < hi
    ensures Ascending(keys[..mid]) && forall i :: 0 <= i < mid ==> lo <= keys[..mid][i] < keys[mid]
    ensures Ascending(keys[mid..]) && forall i :: 0 <= i < |keys| - mid ==> keys[mid] <= keys[mid..][i] < hi
  {
  }

  lemma SplitLeafNode(t: Tree, s: Shape, p: int, s': Shape, q: int)
    requires Domain(t, s) && NodesOk(t, s, p)
    requires p in t.nodes && NodeOk(t, s, p, p) && t.nodes[p].isLeaf && |t.nodes[p].keys| == t.order + 1
    requires t.nodes[p].nextLeaf == IX_LEAF_HEADER_PAGE || t.nodes[p].nextLeaf in t.nodes
    requires s' == SplitShape(s, p, t.numPages, t.nodes[p].keys[(t.order + 1) / 2], s'.leaves)
    requires Domain(SplitLeaf(t, p), s') && q in SplitLeaf(t, p).nodes
    ensures NodeOk(SplitLeaf(t, p), s', -1, q)
  {
    var n := t.nodes[p];
    assert NodeOk(t, s, p, t.root);
    if q == p || q == t.numPages {
      assert n.keys[0] < n.keys[(t.order + 1) / 2];
      HalvesAscending(n.keys, (t.order + 1) / 2, s.lo[p], s.hi[p]);
    } else {
      assert NodeOk(t, s, p, q);
    }
  }

  lemma SplitLeafKeepsNodes(t: Tree, s: Shape, p: int, s': Shape)
    requires Domain(t, s) && NodesOk(t, s, p)
    requires p in t.nodes && NodeOk(t, s, p, p) && t.nodes[p].isLeaf && |t.nodes[p].keys| == t.order + 1
    requires t.nodes[p].nextLeaf == IX_LEAF_HEADER_PAGE || t.nodes[p].nextLeaf in t.nodes
    requires s' == SplitShape(s, p, t.numPages, t.nodes[p].keys[(t.order + 1) / 2], s'.leaves)
    ensures SplitLeaf(t, p).nodes.Keys == t.nodes.Keys + {t.numPages}
    ensures Domain(SplitLeaf(t, p), s') && NodesOk(SplitLeaf(t, p), s', -1)
    ensures PendOk(SplitLeaf(t, p), s', Split(p, t.numPages))
  {
    assert SplitLeaf(t, p).nodes.Keys == t.nodes.Keys + {t.numPages};
    forall q | q in SplitLeaf(t, p).nodes ensures NodeOk(SplitLeaf(t, p), s', -1, q) {
      SplitLeafNode(t, s, p, s', q);
    }
  }

  ghost predicate SplitLeafRel(t: Tree, s: Shape, p: int, s': Shape, t': Tree)
  {
    && Domain(t, s) && Domain(t', s') && t'.nodes.Keys == t.nodes.Keys + {t.numPages}
    && p in t.nodes && t.nodes[p].isLeaf && |t.nodes[p].rids| == |t.nodes[p].keys| == t.order + 1
    && s' == SplitShape(s, p, t.numPages, t.nodes[p].keys[(t.order + 1) / 2], s'.leaves)
    && t'.root == t.root && t'.order == t.order && t'.keySpace == t.keySpace
    && t'.nodes[t.numPages].isLeaf
    && (forall c <- t.nodes :: t'.nodes[c].isLeaf == t.nodes[c].isLeaf && t'.nodes[c].parent == t.nodes[c].parent)
    && (forall c <- t.nodes :: !t.nodes[c].isLeaf ==>
        t'.nodes[c].keys == t.nodes[c].keys && t'.nodes[c].rids == t.nodes[c].rids)
  }

  lemma SplitLeafSlot(t: Tree, s: Shape, p: int, s': Shape, t': Tree, q: int, i: nat)
    requires SplitLeafRel(t, s, p, s', t') && PendOk(t', s', Split(p, t.numPages))
    requires q in t.nodes && !t.nodes[q].isLeaf && i < |t.nodes[q].rids| == |t.nodes[q].keys|
    requires SlotOk(t, s, NoSplit, -1, q, i)
    ensures i < |t'.nodes[q].rids| == |t'.nodes[q].keys| && SlotOk(t', s', Split(p, t.numPages), -1, q, i)
  {
  }

  lemma SplitLeafKeepsLinks(t: Tree, s: Shape, p: int, s': Shape, t': Tree)
    requires Inv(t, s, p, NoSplit, -1) && SplitLeafRel(t, s, p, s', t')
    requires NodesOk(t', s', -1) && PendOk(t', s', Split(p, t.numPages))
    ensures SlotsOk(t', s', -1, Split(p, t.numPages), -1)
    ensures ParentsOk(t', s', Split(p, t.numPages))
  {
    forall q, i | q in t'.nodes && NodeOk(t', s', -1, q) && !t'.nodes[q].isLeaf && 0 <= i < |t'.nodes[q].rids|
      ensures SlotOk(t', s', Split(p, t.numPages), -1, q, i)
    {
      assert NodeOk(t, s, p, q);
      assert SlotOk(t, s, NoSplit, -1, q, i);
      SplitLeafSlot(t, s, p, s', t', q, i);
    }
    forall c | c in t'.nodes && c != t'.root && c != t.numPages ensures ParentOk(t', s', c) {
      assert ParentOk(t, s, c);
      assert NodeOk(t, s, p, c) && NodeOk(t, s, p, t.nodes[c].parent);
    }
  }

  lemma SplitLeafKeepsInv(t: Tree, s: Shape, p: int) returns (s': Shape)
    requires Inv(t, s, p, NoSplit, -1)
    requires p in t.nodes && t.nodes[p].isLeaf && |t.nodes[p].keys| == t.order + 1
    ensures |t.nodes[p].keys| == |t.nodes[p].rids|
    ensures t.nodes[p].nextLeaf == IX_LEAF_HEADER_PAGE || t.nodes[p].nextLeaf in t.nodes
    ensures Inv(SplitLeaf(t, p), s', -1, Split(p, t.numPages), -1)
    ensures s'.level == s.level[t.numPages := s.level[p]] && SplitLeaf(t, p).nodes[p].parent == t.nodes[p].parent
  {
    assert NodeOk(t, s, p, p);
    var k := ChainNeighbour(t, s, p);
    var m := t.nodes[p].keys[(t.order + 1) / 2];
    s' := SplitShape(s, p, t.numPages, m, InsertAt(s.leaves, k + 1, t.numPages));
    SplitLeafKeepsNodes(t, s, p, s');
    SplitLeafRelates(t, s, p, s');
    SplitLeafKeepsLinks(t, s, p, s', SplitLeaf(t, p));
    assert s.lo[p] < m < s.hi[p] by { assert t.nodes[p].keys[0] < m; }
    SplitLeafLaminar(t, s, p, m, s');
    SplitLeafKeepsChain(t, s, p, k, s');
  }

  lemma SplitLeafRelates(t: Tree, s: Shape, p: int, s': Shape)
    requires Domain(t, s) && NodesOk(t, s, p)
    requires p in t.nodes && NodeOk(t, s, p, p) && t.nodes[p].isLeaf && |t.nodes[p].keys| == t.order + 1
    requires t.nodes[p].nextLeaf == IX_LEAF_HEADER_PAGE || t.nodes[p].nextLeaf in t.nodes
    requires t.nodes[p].nextLeaf in t.nodes ==> t.nodes[t.nodes[p].nextLeaf].isLeaf
    requires s' == SplitShape(s, p, t.numPages, t.nodes[p].keys[(t.order + 1) / 2], s'.leaves)
    requires Domain(SplitLeaf(t, p), s') && SplitLeaf(t, p).nodes.Keys == t.nodes.Keys + {t.numPages}
    ensures SplitLeafRel(t, s, p, s', SplitLeaf(t, p))
  {
  }

  lemma SplitLeafLaminar(t: Tree, s: Shape, p: int, m: int, s': Shape)
    requires Inv(t, s, p, NoSplit, -1) && p in t.nodes && NodeOk(t, s, p, p) && t.nodes[p].isLeaf
    requires |t.nodes[p].keys| == t.order + 1
    requires s.lo[p] < m < s.hi[p] && s' == SplitShape(s, p, t.numPages, m, s'.leaves)
    requires t.nodes[p].nextLeaf == IX_LEAF_HEADER_PAGE || t.nodes[p].nextLeaf in t.nodes
    requires Domain(SplitLeaf(t, p), s') && SplitLeaf(t, p).nodes.Keys == t.nodes.Keys + {t.numPages}
    ensures Laminar(SplitLeaf(t, p), s')
  {
    assert forall q <- t.nodes :: NodeOk(t, s, p, q) ==> s.level[q] >= s.level[p];
    SplitKeepsLaminar(t, s, SplitLeaf(t, p), p, t.numPages, m, s'.leaves);
  }

  /** maintain_child over a run of slots: each listed child gets the new parent. */
  function Adopt(nodes: map<int, Node>, kids: seq<Rid>, parent: int): (r: map<int, Node>)
    ensures r.Keys == nodes.Keys
  {
    map q | q in nodes :: if ChildRid(q) in kids then nodes[q].(parent := parent) else nodes[q]
  }

  /** IxIndexHandle::split on an internal page. */
  function SplitInternal(t: Tree, p: int): (r: Tree)
    requires p in t.nodes && |t.nodes[p].keys| == |t.nodes[p].rids|
  {
    var n := t.nodes[p];
    var mid := |n.keys| / 2;
    var y := t.numPages;
    var nodes1 := t.nodes[y := Node(n.parent, false, IX_NO_PAGE, IX_NO_PAGE, n.keys[mid..], n.rids[mid..])];
    var nodes2 := nodes1[p := n.(keys := n.keys[..mid], rids := n.rids[..mid])];
    t.(nodes := Adopt(nodes2, n.rids[mid..], y), numPages := y + 1)
  }

  lemma SlotDistinct(t: Tree, s: Shape, over: int, skip: int, p: int, i: nat, j: nat)
    requires Inv(t, s, over, NoSplit, skip) && p in t.nodes && NodeOk(t, s, over, p) && !t.nodes[p].isLeaf
    requires i < |t.nodes[p].rids| && j < |t.nodes[p].rids| && t.nodes[p].rids[i] == t.nodes[p].rids[j]
    ensures i == j
  {
    assert SlotOk(t, s, NoSplit, skip, p, i) && SlotOk(t, s, NoSplit, skip, p, j);
  }

  /** A page is moved by the split exactly when it is a child of p in the right half. */
  predicate Moved(t: Tree, p: int, c: int)
    requires p in t.nodes && |t.nodes[p].rids| >= (t.order + 1) / 2 >= 0
  {
    ChildRid(c) in t.nodes[p].rids[(t.order + 1) / 2..]
  }

  lemma MovedChild(t: Tree, s: Shape, p: int, c: int)
    requires Inv(t, s, p, NoSplit, -1)
    requires p in t.nodes && NodeOk(t, s, p, p) && !t.nodes[p].isLeaf && |t.nodes[p].keys| == t.order + 1
    ensures Moved(t, p, c) ==>
              && c in t.nodes && t.nodes[c].parent == p && c != p
              && ChildRid(c) !in t.nodes[p].rids[..(t.order + 1) / 2]
  {
    var n := t.nodes[p];
    var mid := (t.order + 1) / 2;
    if Moved(t, p, c) {
      var j :| 0 <= j < |n.rids| - mid && n.rids[mid..][j] == ChildRid(c);
      assert SlotOk(t, s, NoSplit, -1, p, mid + j);
      forall i | 0 <= i < mid ensures n.rids[..mid][i] != ChildRid(c) {
        if n.rids[i] == ChildRid(c) { SlotDistinct(t, s, p, -1, p, i, mid + j); }
      }
    }
  }

  /** The pages after the split, one by one. */
  ghost predicate SplitInternalRel(t: Tree, s: Shape, p: int, s': Shape, t': Tree)
  {
    && Domain(t, s) && Domain(t', s') && t'.nodes.Keys == t.nodes.Keys + {t.numPages}
    && p in t.nodes && |t.nodes[p].rids| == |t.nodes[p].keys| == t.order + 1
    && s' == SplitShape(s, p, t.numPages, t.nodes[p].keys[(t.order + 1) / 2], s.leaves)
    && (var n := t.nodes[p]; var mid := (t.order + 1) / 2;
        && t'.nodes[p] == n.(keys := n.keys[..mid], rids := n.rids[..mid])
        && t'.nodes[t.numPages] == Node(n.parent, false, IX_NO_PAGE, IX_NO_PAGE, n.keys[mid..], n.rids[mid..]))
    && (forall c <- t.nodes :: c != p ==>
          t'.nodes[c] == if Moved(t, p, c) then t.nodes[c].(parent := t.numPages) else t.nodes[c])
    && t' == t.(nodes := t'.nodes, numPages := t.numPages + 1)
  }

  lemma SplitInternalPages(t: Tree, p: int, t': Tree)
    requires p in t.nodes && |t.nodes[p].rids| == |t.nodes[p].keys| == t.order + 1 && 3 <= t.order
    requires t' == SplitInternal(t, p) && t.numPages !in t.nodes
    requires !Moved(t, p, p) && !Moved(t, p, t.numPages)
    ensures t'.nodes.Keys == t.nodes.Keys + {t.numPages}
    ensures var n := t.nodes[p]; var mid := (t.order + 1) / 2;
            && t'.nodes[p] == n.(keys := n.keys[..mid], rids := n.rids[..mid])
            && t'.nodes[t.numPages] == Node(n.parent, false, IX_NO_PAGE, IX_NO_PAGE, n.keys[mid..], n.rids[mid..])
    ensures forall c <- t.nodes :: c != p ==>
              t'.nodes[c] == if Moved(t, p, c) then t.nodes[c].(parent := t.numPages) else t.nodes[c]
  {
    assert t'.nodes.Keys == t.nodes.Keys + {t.numPages};
  }

  lemma SplitInternalAt(t: Tree, s: Shape, p: int, s': Shape, t': Tree)
    requires Inv(t, s, p, NoSplit, -1)
    requires p in t.nodes && NodeOk(t, s, p, p) && !t.nodes[p].isLeaf && |t.nodes[p].keys| == t.order + 1
    requires t' == SplitInternal(t, p)
    requires s' == SplitShape(s, p, t.numPages, t.nodes[p].keys[(t.order + 1) / 2], s.leaves)
    ensures SplitInternalRel(t, s, p, s', t')
  {
    MovedChild(t, s, p, t.numPages);
    MovedChild(t, s, p, p);
    SplitInternalPages(t, p, t');
  }

  lemma HalvesSeparate(keys: seq<int>, mid: nat, lo: int, hi: int)
    requires 1 <= mid < |keys| && AscendingFromOne(keys) && forall i :: 1 <= i < |keys| ==> lo < keys[i] < hi
    ensures AscendingFromOne(keys[..mid]) && forall i :: 1 <= i < mid ==> lo < keys[..mid][i] < keys[mid]
    ensures AscendingFromOne(keys[mid..]) && forall i :: 1 <= i < |keys| - mid ==> keys[mid] < keys[mid..][i] < hi
  {
  }

  lemma SplitInternalNode(t: Tree, s: Shape, p: int, s': Shape, t': Tree, q: int)
    requires SplitInternalRel(t, s, p, s', t') && NodeOk(t, s, p, p) && !t.nodes[p].isLeaf
    requires 0 <= s.level[p] <= s.level[t.root]
    requires q in t'.nodes && (q in t.nodes ==> NodeOk(t, s, p, q))
    ensures NodeOk(t', s', -1, q)
  {
    HalvesSeparate(t.nodes[p].keys, (t.order + 1) / 2, s.lo[p], s.hi[p]);
  }

  /** Slots of the left half. */
  lemma SplitInternalLeftSlot(t: Tree, s: Shape, p: int, s': Shape, t': Tree, i: nat)
    requires SplitInternalRel(t, s, p, s', t') && PendOk(t', s', Split(p, t.numPages))
    requires i < (t.order + 1) / 2 && SlotOk(t, s, NoSplit, -1, p, i)
    requires !Moved(t, p, t.nodes[p].rids[i].pageNo)
    ensures SlotOk(t', s', Split(p, t.numPages), -1, p, i)
  {
    assert t'.nodes[p].rids[i] == t.nodes[p].rids[i];
  }

  /** Slots of the right half: slot i was slot mid + i of p. */
  lemma SplitInternalRightSlot(t: Tree, s: Shape, p: int, s': Shape, t': Tree, i: nat)
    requires SplitInternalRel(t, s, p, s', t') && PendOk(t', s', Split(p, t.numPages))
    requires i < |t'.nodes[t.numPages].rids| && SlotOk(t, s, NoSplit, -1, p, (t.order + 1) / 2 + i)
    requires t.nodes[p].rids[(t.order + 1) / 2 + i].pageNo != p
    ensures SlotOk(t', s', Split(p, t.numPages), -1, t.numPages, i)
  {
    var mid := (t.order + 1) / 2;
    assert t'.nodes[t.numPages].rids[i] == t.nodes[p].rids[mid + i] == t.nodes[p].rids[mid..][i];
    assert Moved(t, p, t.nodes[p].rids[mid + i].pageNo);
  }

  lemma SplitInternalOtherSlot(t: Tree, s: Shape, p: int, s': Shape, t': Tree, q: int, i: nat)
    requires SplitInternalRel(t, s, p, s', t') && PendOk(t', s', Split(p, t.numPages))
    requires q in t.nodes && q != p && i < |t.nodes[q].rids| == |t.nodes[q].keys|
    requires SlotOk(t, s, NoSplit, -1, q, i) && !Moved(t, p, t.nodes[q].rids[i].pageNo)
    ensures i < |t'.nodes[q].rids| == |t'.nodes[q].keys|
    ensures SlotOk(t', s', Split(p, t.numPages), -1, q, i)
  {
  }

  lemma SplitInternalParent(t: Tree, s: Shape, p: int, s': Shape, t': Tree, c: int)
    requires SplitInternalRel(t, s, p, s', t')
    requires c in t.nodes && ParentOk(t, s, c)
    requires Moved(t, p, c) ==> t.nodes[c].parent == p && c != p
    ensures ParentOk(t', s', c)
  {
    var n := t.nodes[p];
    var mid := (t.order + 1) / 2;
    if t.nodes[c].parent == p {
      assert n.rids == n.rids[..mid] + n.rids[mid..];
    }
  }

  lemma SplitInternalKeepsNodes(t: Tree, s: Shape, p: int, s': Shape, t': Tree)
    requires SplitInternalRel(t, s, p, s', t') && NodeOk(t, s, p, p) && !t.nodes[p].isLeaf
    requires NodesOk(t, s, p)
    ensures NodesOk(t', s', -1) && PendOk(t', s', Split(p, t.numPages))
  {
    assert NodeOk(t, s, p, t.root);
    forall q | q in t'.nodes ensures NodeOk(t', s', -1, q) {
      if q in t.nodes { assert NodeOk(t, s, p, q); }
      SplitInternalNode(t, s, p, s', t', q);
    }
  }

  lemma SplitInternalKeepsSlot(t: Tree, s: Shape, p: int, s': Shape, t': Tree, q: int, i: nat)
    requires Inv(t, s, p, NoSplit, -1)
    requires SplitInternalRel(t, s, p, s', t') && NodeOk(t, s, p, p) && !t.nodes[p].isLeaf
    requires PendOk(t', s', Split(p, t.numPages))
    requires q in t'.nodes && !t'.nodes[q].isLeaf && i < |t'.nodes[q].rids| == |t'.nodes[q].keys|
    ensures SlotOk(t', s', Split(p, t.numPages), -1, q, i)
  {
    var mid := (t.order + 1) / 2;
    if q == t.numPages {
      assert SlotOk(t, s, NoSplit, -1, p, mid + i);
      SplitInternalRightSlot(t, s, p, s', t', i);
    } else {
      assert NodeOk(t, s, p, q);
      assert SlotOk(t, s, NoSplit, -1, q, i);
      MovedChild(t, s, p, t.nodes[q].rids[i].pageNo);
      if q == p {
        assert t.nodes[p].rids[..mid][i] == t.nodes[p].rids[i];
        SplitInternalLeftSlot(t, s, p, s', t', i);
      } else {
        SplitInternalOtherSlot(t, s, p, s', t', q, i);
      }
    }
  }

  lemma SplitInternalKeepsLinks(t: Tree, s: Shape, p: int, s': Shape, t': Tree)
    requires Inv(t, s, p, NoSplit, -1)
    requires SplitInternalRel(t, s, p, s', t') && NodeOk(t, s, p, p) && !t.nodes[p].isLeaf
    requires NodesOk(t', s', -1) && PendOk(t', s', Split(p, t.numPages))
    ensures SlotsOk(t', s', -1, Split(p, t.numPages), -1) && ParentsOk(t', s', Split(p, t.numPages))
  {
    forall q, i | q in t'.nodes && NodeOk(t', s', -1, q) && !t'.nodes[q].isLeaf && 0 <= i < |t'.nodes[q].rids|
      ensures SlotOk(t', s', Split(p, t.numPages), -1, q, i)
    {
      SplitInternalKeepsSlot(t, s, p, s', t', q, i);
    }
    forall c | c in t'.nodes && c != t'.root && c != t.numPages ensures ParentOk(t', s', c) {
      assert ParentOk(t, s, c);
      MovedChild(t, s, p, c);
      SplitInternalParent(t, s, p, s', t', c);
    }
    MovedChild(t, s, p, t.root);
  }

  lemma SplitInternalKeepsLaminar(t: Tree, s: Shape, p: int, s': Shape, t': Tree)
    requires Inv(t, s, p, NoSplit, -1)
    requires SplitInternalRel(t, s, p, s', t') && NodeOk(t, s, p, p) && !t.nodes[p].isLeaf
    ensures Laminar(t', s')
  {
    var mid := (t.order + 1) / 2;
    var m := t.nodes[p].keys[mid];
    assert SlotOk(t, s, NoSplit, -1, p, mid);
    var c := t.nodes[p].rids[mid].pageNo;
    forall q | q in t.nodes && s.level[q] < s.level[p] ensures s.hi[q] <= m || m <= s.lo[q] {
      if q != c { assert Nested(s, q, c); }
    }
    SplitKeepsLaminar(t, s, t', p, t.numPages, m, s.leaves);
  }

  lemma SplitInternalKeepsChain(t: Tree, s: Shape, p: int, s': Shape, t': Tree)
    requires ChainRel(t, s, t', s') && ChainOk(t, s) && t'.nodes.Keys == t.nodes.Keys + {t.numPages}
    requires !t'.nodes[t.numPages].isLeaf
    ensures ChainOk(t', s')
  {
    forall i | 0 <= i < |s.leaves| ensures LinkOk(t', s', i) {
      assert LinkOk(t, s, i);
      if i + 1 < |s.leaves| { assert LinkOk(t, s, i + 1); }
    }
  }

  /** The leaves keep their links and bounds. */
  ghost predicate ChainRel(t: Tree, s: Shape, t': Tree, s': Shape)
  {
    && Domain(t, s) && Domain(t', s') && t.nodes.Keys <= t'.nodes.Keys && s'.leaves == s.leaves
    && t'.first == t.first && t'.last == t.last && t'.keySpace == t.keySpace
    && (forall q <- t.nodes :: t'.nodes[q].isLeaf == t.nodes[q].isLeaf)
    && (forall q <- t.nodes :: t.nodes[q].isLeaf ==>
          && t'.nodes[q].nextLeaf == t.nodes[q].nextLeaf && t'.nodes[q].prevLeaf == t.nodes[q].prevLeaf
          && s'.lo[q] == s.lo[q] && s'.hi[q] == s.hi[q])
  }

  lemma SplitInternalKeepsInv(t: Tree, s: Shape, p: int) returns (s': Shape)
    requires Inv(t, s, p, NoSplit, -1)
    requires p in t.nodes && !t.nodes[p].isLeaf && |t.nodes[p].keys| == t.order + 1
    ensures |t.nodes[p].keys| == |t.nodes[p].rids|
    ensures Inv(SplitInternal(t, p), s', -1, Split(p, t.numPages), -1)
    ensures s'.level == s.level[t.numPages := s.level[p]] && SplitInternal(t, p).nodes[p].parent == t.nodes[p].parent
  {
    assert NodeOk(t, s, p, p);
    s' := SplitShape(s, p, t.numPages, t.nodes[p].keys[(t.order + 1) / 2], s.leaves);
    var t' := SplitInternal(t, p);
    SplitInternalAt(t, s, p, s', t');
    SplitInternalKeepsNodes(t, s, p, s', t');
    SplitInternalKeepsLinks(t, s, p, s', t');
    SplitInternalKeepsLaminar(t, s, p, s', t');
    SplitInternalKeepsChain(t, s, p, s', t');
  }

  lemma OverUnused(t: Tree, s: Shape, p: int)
    requires Inv(t, s, p, NoSplit, -1) && p in t.nodes && |t.nodes[p].keys| <= t.order
    ensures Inv(t, s, -1, NoSplit, -1)
  {
    forall q | q in t.nodes ensures NodeOk(t, s, -1, q) { assert NodeOk(t, s, p, q); }
    forall q, i | q in t.nodes && NodeOk(t, s, -1, q) && !t.nodes[q].isLeaf && 0 <= i < |t.nodes[q].rids|
      ensures SlotOk(t, s, NoSplit, -1, q, i)
    {
      assert NodeOk(t, s, p, q);
    }
  }

  // ---------- the new right half enters the parent ----------

  /** insert_into_parent, below the root: the right half gets the slot after its left half. */
  function LinkRight(t: Tree, left: int, right: int, rank: nat): (r: Tree)
    requires left in t.nodes && right in t.nodes && t.nodes[left].parent in t.nodes && t.nodes[right].keys != []
    requires rank < |t.nodes[t.nodes[left].parent].keys| == |t.nodes[t.nodes[left].parent].rids|
  {
    var p := t.nodes[left].parent;
    var n := t.nodes[p];
    var nodes1 := t.nodes[p := n.(keys := InsertAt(n.keys, rank + 1, t.nodes[right].keys[0]),
                                  rids := InsertAt(n.rids, rank + 1, ChildRid(right)))];
    t.(nodes := nodes1[right := nodes1[right].(parent := p)])
  }

  ghost predicate LinkRightRel(t: Tree, s: Shape, left: int, right: int, p: int, rank: nat, t': Tree)
  {
    && Domain(t, s) && PendOk(t, s, Split(left, right)) && p in t.nodes && p != right
    && rank < |t.nodes[p].keys| == |t.nodes[p].rids|
    && Domain(t', s)
    && t' == t.(nodes := t'.nodes)
    && t'.nodes[p] == t.nodes[p].(keys := InsertAt(t.nodes[p].keys, rank + 1, s.lo[right]),
                                  rids := InsertAt(t.nodes[p].rids, rank + 1, ChildRid(right)))
    && t'.nodes[right] == t.nodes[right].(parent := p)
    && (forall q <- t.nodes :: q != p && q != right ==> t'.nodes[q] == t.nodes[q])
  }

  lemma LinkRightNode(t: Tree, s: Shape, left: int, right: int, p: int, rank: nat, t': Tree)
    requires LinkRightRel(t, s, left, right, p, rank, t')
    requires NodeOk(t, s, -1, p) && !t.nodes[p].isLeaf && NodeOk(t, s, -1, left) && NodeOk(t, s, -1, right)
    requires SlotOk(t, s, Split(left, right), -1, p, rank) && t.nodes[p].rids[rank].pageNo == left
    ensures NodeOk(t', s, p, p)
  {
    var keys, keys' := t.nodes[p].keys, t'.nodes[p].keys;
    assert |keys'| == |keys| + 1 && keys'[rank + 1] == s.lo[right];
    forall i | 1 <= i < |keys'|
      ensures s.lo[p] < keys'[i] < s.hi[p] && (i <= rank ==> keys'[i] < s.lo[right])
              && (i > rank + 1 ==> s.lo[right] < keys'[i]) {
      assert keys'[i] == if i <= rank then keys[i] else if i == rank + 1 then s.lo[right] else keys[i - 1];
    }
    forall i, j | 1 <= i < j < |keys'| ensures keys'[i] < keys'[j] {
      assert keys'[i] == if i <= rank then keys[i] else if i == rank + 1 then s.lo[right] else keys[i - 1];
      assert keys'[j] == if j <= rank then keys[j] else if j == rank + 1 then s.lo[right] else keys[j - 1];
    }
  }

  lemma LinkRightSlot(t: Tree, s: Shape, left: int, right: int, p: int, rank: nat, t': Tree, i: nat, i0: nat)
    requires LinkRightRel(t, s, left, right, p, rank, t')
    requires NodeOk(t', s, p, p) && NodeOk(t, s, -1, p) && !t.nodes[p].isLeaf && s.level[left] + 1 == s.level[p]
    requires t.nodes[right].isLeaf <==> s.level[right] == 0
    requires SlotOk(t, s, Split(left, right), -1, p, rank) && t.nodes[p].rids[rank].pageNo == left
    requires i < |t'.nodes[p].rids| && i0 == if i <= rank then i else i - 1
    requires SlotOk(t, s, Split(left, right), -1, p, i0)
    requires i0 != rank ==> t.nodes[p].rids[i0].pageNo != left
    ensures SlotOk(t', s, NoSplit, -1, p, i)
  {
    var n, n' := t.nodes[p], t'.nodes[p];
    assert |n'.keys| == |n.keys| + 1;
    assert n'.rids[i] == if i <= rank then n.rids[i] else if i == rank + 1 then ChildRid(right) else n.rids[i - 1];
    assert n'.keys[i] == if i <= rank then n.keys[i] else if i == rank + 1 then s.lo[right] else n.keys[i - 1];
    if i + 1 < |n'.keys| {
      assert n'.keys[i + 1] == if i + 1 <= rank then n.keys[i + 1] else if i == rank then s.lo[right] else n.keys[i];
    }
  }

  lemma LinkRightOtherSlot(t: Tree, s: Shape, left: int, right: int, p: int, rank: nat, t': Tree, q: int, i: nat)
    requires LinkRightRel(t, s, left, right, p, rank, t')
    requires q in t.nodes && q != p && i < |t.nodes[q].rids| == |t.nodes[q].keys|
    requires SlotOk(t, s, Split(left, right), -1, q, i) && t.nodes[left].parent == p
    requires t.nodes[p].keys != []
    ensures i < |t'.nodes[q].rids| == |t'.nodes[q].keys| && SlotOk(t', s, NoSplit, -1, q, i)
  {
    assert InsertAt(t.nodes[p].keys, rank + 1, s.lo[right])[0] == t.nodes[p].keys[0];
  }

  lemma LinkRightParent(t: Tree, s: Shape, left: int, right: int, p: int, rank: nat, t': Tree, c: int)
    requires LinkRightRel(t, s, left, right, p, rank, t') && s.level[left] + 1 == s.level[p]
    requires c in t.nodes && (c != right ==> ParentOk(t, s, c))
    ensures ParentOk(t', s, c)
  {
    if c == right {
      assert t'.nodes[p].rids[rank + 1] == ChildRid(right);
    } else if t.nodes[c].parent == p {
      var j :| 0 <= j < |t.nodes[p].rids| && t.nodes[p].rids[j] == ChildRid(c);
      assert t'.nodes[p].rids[if j <= rank then j else j + 1] == ChildRid(c);
    }
  }

  lemma LinkRightKeepsSlots(t: Tree, s: Shape, left: int, right: int, p: int, rank: nat, t': Tree)
    requires Inv(t, s, -1, Split(left, right), -1)
    requires LinkRightRel(t, s, left, right, p, rank, t') && NodesOk(t', s, p)
    requires NodeOk(t, s, -1, p) && !t.nodes[p].isLeaf
    requires SlotOk(t, s, Split(left, right), -1, p, rank) && t.nodes[p].rids[rank].pageNo == left
    ensures SlotsOk(t', s, p, NoSplit, -1)
  {
    forall q, i | q in t'.nodes && NodeOk(t', s, p, q) && !t'.nodes[q].isLeaf && 0 <= i < |t'.nodes[q].rids|
      ensures SlotOk(t', s, NoSplit, -1, q, i)
    {
      assert NodeOk(t, s, -1, q) && NodeOk(t, s, -1, right);
      if q == p {
        var i0 := if i <= rank then i else i - 1;
        assert SlotOk(t, s, Split(left, right), -1, p, i0);
        LinkRightSlot(t, s, left, right, p, rank, t', i, i0);
      } else {
        assert SlotOk(t, s, Split(left, right), -1, q, i);
        LinkRightOtherSlot(t, s, left, right, p, rank, t', q, i);
      }
    }
  }

  lemma LinkRightKeepsParents(t: Tree, s: Shape, left: int, right: int, p: int, rank: nat, t': Tree)
    requires Inv(t, s, -1, Split(left, right), -1)
    requires LinkRightRel(t, s, left, right, p, rank, t') && s.level[left] + 1 == s.level[p]
    ensures ParentsOk(t', s, NoSplit)
  {
    forall c | c in t'.nodes && c != t'.root ensures ParentOk(t', s, c) {
      if c != right { assert ParentOk(t, s, c); }
      LinkRightParent(t, s, left, right, p, rank, t', c);
    }
  }

  lemma LinkRightKeepsInv(t: Tree, s: Shape, left: int, right: int, rank: nat)
    requires Inv(t, s, -1, Split(left, right), -1) && left != t.root
    requires t.nodes[left].parent in t.nodes
    requires rank < |t.nodes[t.nodes[left].parent].keys| == |t.nodes[t.nodes[left].parent].rids|
    requires t.nodes[t.nodes[left].parent].rids[rank].pageNo == left
    ensures Inv(LinkRight(t, left, right, rank), s, t.nodes[left].parent, NoSplit, -1)
  {
    var t' := LinkRight(t, left, right, rank);
    var p := t.nodes[left].parent;
    assert ParentOk(t, s, left);
    assert NodeOk(t, s, -1, p) && NodeOk(t, s, -1, left) && NodeOk(t, s, -1, right);
    assert SlotOk(t, s, Split(left, right), -1, p, rank);
    assert t'.nodes.Keys == t.nodes.Keys;
    assert LinkRightRel(t, s, left, right, p, rank, t');
    LinkRightNode(t, s, left, right, p, rank, t');
    forall q | q in t'.nodes ensures NodeOk(t', s, p, q) {
      assert NodeOk(t, s, -1, q);
    }
    LinkRightKeepsSlots(t, s, left, right, p, rank, t');
    LinkRightKeepsParents(t, s, left, right, p, rank, t');
    forall i | 0 <= i < |s.leaves| ensures LinkOk(t', s, i) { assert LinkOk(t, s, i); }
  }

  /** insert_into_parent at the root: a new root over the two halves. */
  function GrowRoot(t: Tree, left: int, right: int): (r: Tree)
    requires left in t.nodes && right in t.nodes && t.nodes[left].keys != [] && t.nodes[right].keys != []
  {
    var y := t.numPages;
    var nodes1 := t.nodes[y := Node(IX_NO_PAGE, false, IX_NO_PAGE, IX_NO_PAGE,
                                    [t.nodes[left].keys[0], t.nodes[right].keys[0]],
                                    [ChildRid(left), ChildRid(right)])];
    var nodes2 := nodes1[left := nodes1[left].(parent := y)];
    t.(nodes := nodes2[right := nodes2[right].(parent := y)], root := y, numPages := y + 1)
  }

  ghost function GrowShape(t: Tree, s: Shape): Shape
    requires t.root in s.level
  {
    Shape(s.level[t.numPages := s.level[t.root] + 1], s.lo[t.numPages := 0], s.hi[t.numPages := t.keySpace], s.leaves)
  }

  lemma GrowRootKeepsNodes(t: Tree, s: Shape, left: int, right: int, t': Tree, s': Shape)
    requires Inv(t, s, -1, Split(left, right), -1) && left == t.root
    requires t' == GrowRoot(t, left, right) && s' == GrowShape(t, s)
    ensures Domain(t', s') && NodesOk(t', s', -1)
  {
    var y := t.numPages;
    assert t'.nodes.Keys == t.nodes.Keys + {y};
    assert NodeOk(t, s, -1, left) && NodeOk(t, s, -1, right);
    forall q | q in t'.nodes ensures NodeOk(t', s', -1, q) {
      if q != y { assert NodeOk(t, s, -1, q); }
    }
  }

  lemma GrowRootKeepsLaminar(t: Tree, s: Shape, t': Tree, s': Shape)
    requires Domain(t, s) && NodesOk(t, s, -1) && Laminar(t, s) && s' == GrowShape(t, s)
    requires t'.nodes.Keys == t.nodes.Keys + {t.numPages} && Domain(t', s')
    ensures Laminar(t', s')
  {
    var y := t.numPages;
    forall a, b | a in t'.nodes && b in t'.nodes && a != b && s'.level[a] <= s'.level[b]
      ensures Nested(s', a, b)
    {
      if a != y { assert NodeOk(t, s, -1, a); }
      if b != y { assert NodeOk(t, s, -1, b); }
      if a != y && b != y { assert Nested(s, a, b); }
    }
  }

  lemma GrowRootSlot(t: Tree, s: Shape, left: int, right: int, t': Tree, s': Shape, q: int, i: nat)
    requires Inv(t, s, -1, Split(left, right), -1) && left == t.root
    requires t' == GrowRoot(t, left, right) && s' == GrowShape(t, s) && Domain(t', s')
    requires q in t'.nodes && NodeOk(t', s', -1, q) && !t'.nodes[q].isLeaf && i < |t'.nodes[q].rids|
    ensures SlotOk(t', s', NoSplit, -1, q, i)
  {
    if q != t.numPages {
      assert NodeOk(t, s, -1, q);
      assert SlotOk(t, s, Split(left, right), -1, q, i);
    } else {
      assert NodeOk(t, s, -1, left) && NodeOk(t, s, -1, right);
    }
  }

  lemma GrowRootParent(t: Tree, s: Shape, left: int, right: int, t': Tree, s': Shape, c: int)
    requires Inv(t, s, -1, Split(left, right), -1) && left == t.root
    requires t' == GrowRoot(t, left, right) && s' == GrowShape(t, s) && Domain(t', s')
    requires c in t'.nodes && c != t'.root
    ensures ParentOk(t', s', c)
  {
    assert t'.nodes[t.numPages].rids[0] == ChildRid(left) && t'.nodes[t.numPages].rids[1] == ChildRid(right);
    if c != left && c != right { assert ParentOk(t, s, c); }
  }

  lemma GrowRootChain(t: Tree, s: Shape, left: int, right: int, t': Tree, s': Shape)
    requires Inv(t, s, -1, Split(left, right), -1) && left == t.root
    requires t' == GrowRoot(t, left, right) && s' == GrowShape(t, s) && Domain(t', s')
    ensures ChainOk(t', s')
  {
    forall i | 0 <= i < |s.leaves| ensures LinkOk(t', s', i) { assert LinkOk(t, s, i); }
  }

  lemma GrowRootKeepsInv(t: Tree, s: Shape, left: int, right: int)
    requires Inv(t, s, -1, Split(left, right), -1) && left == t.root
    ensures Inv(GrowRoot(t, left, right), GrowShape(t, s), -1, NoSplit, -1)
  {
    var t' := GrowRoot(t, left, right);
    var s' := GrowShape(t, s);
    GrowRootKeepsNodes(t, s, left, right, t', s');
    GrowRootKeepsLaminar(t, s, t', s');
    forall q, i | q in t'.nodes && NodeOk(t', s', -1, q) && !t'.nodes[q].isLeaf && 0 <= i < |t'.nodes[q].rids|
      ensures SlotOk(t', s', NoSplit, -1, q, i)
    {
      GrowRootSlot(t, s, left, right, t', s', q, i);
    }
    forall c | c in t'.nodes && c != t'.root ensures ParentOk(t', s', c) {
      GrowRootParent(t, s, left, right, t', s', c);
    }
    GrowRootChain(t, s, left, right, t', s');
  }

  // ---------- maintain_parent ----------

  /** One round of maintain_parent: slot `rank` of page g takes the key k. */
  function SetKey(t: Tree, g: int, rank: nat, k: int): (r: Tree)
    requires g in t.nodes && rank < |t.nodes[g].keys|
  {
    t.(nodes := t.nodes[g := t.nodes[g].(keys := t.nodes[g].keys[rank := k])])
  }

  lemma SkipAny(t: Tree, s: Shape, c: int)
    requires Inv(t, s, -1, NoSplit, -1)
    ensures Inv(t, s, -1, NoSplit, c)
  {
    forall q, i | q in t.nodes && NodeOk(t, s, -1, q) && !t.nodes[q].isLeaf && 0 <= i < |t.nodes[q].rids|
      ensures SlotOk(t, s, NoSplit, c, q, i)
    {
      assert SlotOk(t, s, NoSplit, -1, q, i);
    }
  }

  /** The walk may stop at the root, or where the parent already keeps the child's first key. */
  lemma SkipDone(t: Tree, s: Shape, c: int, rank: nat)
    requires Inv(t, s, -1, NoSplit, c) && c in t.nodes && t.nodes[c].keys != []
    requires c != t.root ==>
      && t.nodes[c].parent in t.nodes && rank < |t.nodes[t.nodes[c].parent].rids| == |t.nodes[t.nodes[c].parent].keys|
      && t.nodes[t.nodes[c].parent].rids[rank] == ChildRid(c)
      && t.nodes[t.nodes[c].parent].keys[rank] == t.nodes[c].keys[0]
    ensures Inv(t, s, -1, NoSplit, -1)
  {
    forall q, i | q in t.nodes && NodeOk(t, s, -1, q) && !t.nodes[q].isLeaf && 0 <= i < |t.nodes[q].rids|
      ensures SlotOk(t, s, NoSplit, -1, q, i)
    {
      assert SlotOk(t, s, NoSplit, c, q, i);
      if t.nodes[q].rids[i].pageNo == c && c != t.root {
        SlotDistinct(t, s, -1, c, q, i, rank);
      }
    }
  }

  lemma SetFirstKeySlot(t: Tree, s: Shape, c: int, g: int, q: int, i: nat)
    requires Inv(t, s, -1, NoSplit, c) && g in t.nodes && NodeOk(t, s, -1, g) && !t.nodes[g].isLeaf
    requires t.nodes[g].rids[0] == ChildRid(c) && c in t.nodes && t.nodes[c].keys != []
    requires Domain(SetKey(t, g, 0, t.nodes[c].keys[0]), s)
    requires q in t.nodes && NodeOk(t, s, -1, q) && !t.nodes[q].isLeaf && i < |t.nodes[q].rids|
    ensures SlotOk(SetKey(t, g, 0, t.nodes[c].keys[0]), s, NoSplit, g, q, i)
  {
    assert SlotOk(t, s, NoSplit, c, q, i);
    assert SlotOk(t, s, NoSplit, c, g, 0);
    if t.nodes[q].rids[i].pageNo == c { SlotDistinct(t, s, -1, c, q, i, 0); }
  }

  /** Slot 0: no separator changes; the exception moves up to g. */
  lemma SetFirstKeyKeepsInv(t: Tree, s: Shape, c: int, g: int)
    requires Inv(t, s, -1, NoSplit, c) && g in t.nodes && NodeOk(t, s, -1, g) && !t.nodes[g].isLeaf
    requires t.nodes[g].rids[0] == ChildRid(c) && c in t.nodes && t.nodes[c].keys != []
    ensures Inv(SetKey(t, g, 0, t.nodes[c].keys[0]), s, -1, NoSplit, g)
  {
    var t' := SetKey(t, g, 0, t.nodes[c].keys[0]);
    assert t'.nodes.Keys == t.nodes.Keys;
    forall q | q in t'.nodes ensures NodeOk(t', s, -1, q) { assert NodeOk(t, s, -1, q); }
    forall q, i | q in t'.nodes && NodeOk(t', s, -1, q) && !t'.nodes[q].isLeaf && 0 <= i < |t'.nodes[q].rids|
      ensures SlotOk(t', s, NoSplit, g, q, i)
    {
      assert NodeOk(t, s, -1, q);
      SetFirstKeySlot(t, s, c, g, q, i);
    }
    forall d | d in t'.nodes && d != t'.root ensures ParentOk(t', s, d) { assert ParentOk(t, s, d); }
    forall i | 0 <= i < |s.leaves| ensures LinkOk(t', s, i) { assert LinkOk(t, s, i); }
  }

  /** In the walk from a leaf, a slot other than slot 0 holds the leaf's lower bound. */
  lemma RaiseReady(t: Tree, s: Shape, leaf: int, c: int, g: int, rank: nat)
    requires Inv(t, s, -1, NoSplit, c)
    requires leaf in t.nodes && t.nodes[leaf].isLeaf && t.nodes[leaf].keys != []
    requires g in t.nodes && NodeOk(t, s, -1, g) && !t.nodes[g].isLeaf && 1 <= rank < |t.nodes[g].keys|
    requires c in t.nodes && t.nodes[g].rids[rank] == ChildRid(c)
    requires t.nodes[c].keys != [] && t.nodes[c].keys[0] == t.nodes[leaf].keys[0] && s.lo[c] == s.lo[leaf]
    requires t.nodes[g].keys[rank] != t.nodes[leaf].keys[0]
    ensures CanRaise(t, s, leaf, c, g, rank, s.lo[leaf], t.nodes[leaf].keys[0])
  {
    assert NodeOk(t, s, -1, leaf);
    assert SlotOk(t, s, NoSplit, c, g, rank);
  }

  // A separator b is raised to k, the first key of the leaf that starts at b: every bound
  // equal to b moves with it.

  function Raise(b: int, k: int, x: int): int
  {
    if x == b then k else x
  }

  ghost function RaiseShape(s: Shape, b: int, k: int): Shape
  {
    Shape(s.level, map q | q in s.lo :: Raise(b, k, s.lo[q]), map q | q in s.hi :: Raise(b, k, s.hi[q]), s.leaves)
  }

  ghost predicate Clear(b: int, k: int, x: int)
  {
    x <= b || k < x
  }

  ghost predicate CanRaise(t: Tree, s: Shape, leaf: int, c: int, g: int, rank: nat, b: int, k: int)
  {
    && Inv(t, s, -1, NoSplit, c)
    && leaf in t.nodes && t.nodes[leaf].isLeaf && NodeOk(t, s, -1, leaf) && t.nodes[leaf].keys != []
    && b == s.lo[leaf] && k == t.nodes[leaf].keys[0] && b < k
    && g in t.nodes && NodeOk(t, s, -1, g) && !t.nodes[g].isLeaf && 1 <= rank < |t.nodes[g].keys|
    && c in t.nodes && t.nodes[g].rids[rank] == ChildRid(c) && s.lo[c] == b
    && t.nodes[c].keys != [] && t.nodes[c].keys[0] == k
    && 0 < b < t.keySpace
  }

  /** No bound lies in (b, k]. */
  lemma BoundsClear(t: Tree, s: Shape, leaf: int, c: int, g: int, rank: nat, b: int, k: int, q: int)
    requires CanRaise(t, s, leaf, c, g, rank, b, k) && q in t.nodes
    ensures Clear(b, k, s.lo[q]) && Clear(b, k, s.hi[q])
    ensures q != leaf && t.nodes[q].isLeaf ==> s.lo[q] != b
  {
    assert NodeOk(t, s, -1, q);
    if q != leaf { assert Nested(s, leaf, q); }
  }

  /** Only the raised slot holds b as a separator. */
  lemma SeparatorUnique(t: Tree, s: Shape, leaf: int, c: int, g: int, rank: nat, b: int, k: int, q: int, i: nat)
    requires CanRaise(t, s, leaf, c, g, rank, b, k)
    requires q in t.nodes && NodeOk(t, s, -1, q) && !t.nodes[q].isLeaf && 1 <= i < |t.nodes[q].keys|
    ensures Clear(b, k, t.nodes[q].keys[i])
    ensures t.nodes[q].keys[i] == b <==> q == g && i == rank
  {
    assert SlotOk(t, s, NoSplit, c, q, i);
    assert SlotOk(t, s, NoSplit, c, g, rank);
    var d := t.nodes[q].rids[i].pageNo;
    BoundsClear(t, s, leaf, c, g, rank, b, k, d);
    if s.level[q] <= s.level[c] && q != c { assert Nested(s, q, c); }
    if s.level[g] <= s.level[d] && g != d { assert Nested(s, g, d); }
    if s.level[q] == s.level[g] && q != g { assert Nested(s, q, g); }
  }

  lemma RaiseNode(t: Tree, s: Shape, leaf: int, c: int, g: int, rank: nat, b: int, k: int, q: int)
    requires CanRaise(t, s, leaf, c, g, rank, b, k) && q in t.nodes
    requires Domain(SetKey(t, g, rank, k), RaiseShape(s, b, k))
    ensures NodeOk(SetKey(t, g, rank, k), RaiseShape(s, b, k), -1, q)
  {
    var t' := SetKey(t, g, rank, k);
    assert NodeOk(t, s, -1, q);
    BoundsClear(t, s, leaf, c, g, rank, b, k, q);
    if !t.nodes[q].isLeaf {
      forall i | 1 <= i < |t.nodes[q].keys|
        ensures Clear(b, k, t.nodes[q].keys[i]) && t'.nodes[q].keys[i] == Raise(b, k, t.nodes[q].keys[i])
      {
        SeparatorUnique(t, s, leaf, c, g, rank, b, k, q, i);
      }
      forall i, j | 1 <= i < j < |t.nodes[q].keys| ensures t'.nodes[q].keys[i] < t'.nodes[q].keys[j] {
        assert t.nodes[q].keys[i] < t.nodes[q].keys[j];
      }
    }
  }

  lemma RaiseSlot(t: Tree, s: Shape, leaf: int, c: int, g: int, rank: nat, b: int, k: int, q: int, i: nat)
    requires CanRaise(t, s, leaf, c, g, rank, b, k)
    requires Domain(SetKey(t, g, rank, k), RaiseShape(s, b, k))
    requires q in t.nodes && NodeOk(t, s, -1, q) && !t.nodes[q].isLeaf && i < |t.nodes[q].rids|
    ensures i < |SetKey(t, g, rank, k).nodes[q].rids| == |SetKey(t, g, rank, k).nodes[q].keys|
    ensures SlotOk(SetKey(t, g, rank, k), RaiseShape(s, b, k), NoSplit, -1, q, i)
  {
    assert SlotOk(t, s, NoSplit, c, q, i);
    if i >= 1 { SeparatorUnique(t, s, leaf, c, g, rank, b, k, q, i); }
    if i + 1 < |t.nodes[q].keys| { SeparatorUnique(t, s, leaf, c, g, rank, b, k, q, i + 1); }
    if t.nodes[q].rids[i].pageNo == c {
      assert SlotOk(t, s, NoSplit, c, g, rank);
      SlotDistinct(t, s, -1, c, q, i, rank);
    }
  }

  lemma RaiseKeepsOrder(t: Tree, s: Shape, leaf: int, c: int, g: int, rank: nat, b: int, k: int)
    requires CanRaise(t, s, leaf, c, g, rank, b, k)
    requires Domain(SetKey(t, g, rank, k), RaiseShape(s, b, k))
    ensures Laminar(SetKey(t, g, rank, k), RaiseShape(s, b, k))
    ensures ChainOk(SetKey(t, g, rank, k), RaiseShape(s, b, k))
  {
    var t', s' := SetKey(t, g, rank, k), RaiseShape(s, b, k);
    forall p, q | p in t'.nodes && q in t'.nodes && p != q && s'.level[p] <= s'.level[q] ensures Nested(s', p, q) {
      assert Nested(s, p, q);
      BoundsClear(t, s, leaf, c, g, rank, b, k, p);
      BoundsClear(t, s, leaf, c, g, rank, b, k, q);
    }
    forall i | 0 <= i < |s'.leaves| ensures LinkOk(t', s', i) {
      assert LinkOk(t, s, i);
      BoundsClear(t, s, leaf, c, g, rank, b, k, s.leaves[i]);
    }
  }

  lemma RaiseKeepsInv(t: Tree, s: Shape, leaf: int, c: int, g: int, rank: nat, b: int, k: int)
    requires CanRaise(t, s, leaf, c, g, rank, b, k)
    ensures Inv(SetKey(t, g, rank, k), RaiseShape(s, b, k), -1, NoSplit, -1)
  {
    var t', s' := SetKey(t, g, rank, k), RaiseShape(s, b, k);
    assert t'.nodes.Keys == t.nodes.Keys;
    assert Domain(t', s');
    forall q | q in t'.nodes ensures NodeOk(t', s', -1, q) { RaiseNode(t, s, leaf, c, g, rank, b, k, q); }
    forall q, i | q in t'.nodes && NodeOk(t', s', -1, q) && !t'.nodes[q].isLeaf && 0 <= i < |t'.nodes[q].rids|
      ensures SlotOk(t', s', NoSplit, -1, q, i)
    {
      assert NodeOk(t, s, -1, q);
      RaiseSlot(t, s, leaf, c, g, rank, b, k, q, i);
    }
    forall d | d in t'.nodes && d != t'.root ensures ParentOk(t', s', d) { assert ParentOk(t, s, d); }
    RaiseKeepsOrder(t, s, leaf, c, g, rank, b, k);
  }

  // ---------- the map the leaves hold ----------

  ghost predicate SameLeaf(t: Tree, t': Tree, p: int)
  {
    && (p in t.nodes && t.nodes[p].isLeaf <==> p in t'.nodes && t'.nodes[p].isLeaf)
    && (p in t.nodes && t.nodes[p].isLeaf && p in t'.nodes ==>
          t'.nodes[p].keys == t.nodes[p].keys && t'.nodes[p].rids == t.nodes[p].rids)
  }

  lemma SameLeavesAgree(t: Tree, t': Tree, m: map<int, Rid>)
    requires Agrees(t, m) && t'.keySpace == t.keySpace && forall p :: SameLeaf(t, t', p)
    ensures Agrees(t', m)
  {
    forall p, i | p in t'.nodes && t'.nodes[p].isLeaf && 0 <= i < |t'.nodes[p].keys| == |t'.nodes[p].rids|
      ensures EntryIn(t', m, p, i)
    {
      assert SameLeaf(t, t', p);
      assert EntryIn(t, m, p, i);
    }
    forall k | k in m ensures 0 <= k < t'.keySpace && exists p :: Holds(t', p, k) {
      var p :| Holds(t, p, k);
      assert SameLeaf(t, t', p);
      assert Holds(t', p, k);
    }
  }

  lemma SplitInternalAgrees(t: Tree, s: Shape, p: int, m: map<int, Rid>)
    requires Domain(t, s) && Agrees(t, m)
    requires p in t.nodes && !t.nodes[p].isLeaf && |t.nodes[p].keys| == |t.nodes[p].rids|
    ensures Agrees(SplitInternal(t, p), m)
  {
    SameLeavesAgree(t, SplitInternal(t, p), m);
  }

  lemma GrowRootAgrees(t: Tree, s: Shape, left: int, right: int, m: map<int, Rid>)
    requires Domain(t, s) && Agrees(t, m) && left in t.nodes && right in t.nodes
    requires t.nodes[left].keys != [] && t.nodes[right].keys != []
    ensures Agrees(GrowRoot(t, left, right), m)
  {
    SameLeavesAgree(t, GrowRoot(t, left, right), m);
  }

  lemma LinkRightAgrees(t: Tree, left: int, right: int, rank: nat, m: map<int, Rid>)
    requires Agrees(t, m)
    requires left in t.nodes && right in t.nodes && t.nodes[left].parent in t.nodes && t.nodes[right].keys != []
    requires rank < |t.nodes[t.nodes[left].parent].keys| == |t.nodes[t.nodes[left].parent].rids|
    requires !t.nodes[t.nodes[left].parent].isLeaf
    ensures Agrees(LinkRight(t, left, right, rank), m)
  {
    SameLeavesAgree(t, LinkRight(t, left, right, rank), m);
  }

  lemma InsertAgrees(t: Tree, s: Shape, p: int, pos: nat, k: int, r: Rid, m: map<int, Rid>)
    requires Inv(t, s, -1, NoSplit, -1) && Agrees(t, m)
    requires p in t.nodes && t.nodes[p].isLeaf && s.lo[p] <= k < s.hi[p] && k !in t.nodes[p].keys
    requires pos <= |t.nodes[p].keys| == |t.nodes[p].rids|
    ensures k !in m
    ensures Agrees(WithEntries(t, p, InsertAt(t.nodes[p].keys, pos, k), InsertAt(t.nodes[p].rids, pos, r)), m[k := r])
  {
    var n := t.nodes[p];
    var t' := WithEntries(t, p, InsertAt(n.keys, pos, k), InsertAt(n.rids, pos, r));
    var m' := m[k := r];
    LookupAgrees(t, s, -1, p, k, m);
    assert NodeOk(t, s, -1, p);
    forall q, i | q in t'.nodes && t'.nodes[q].isLeaf && 0 <= i < |t'.nodes[q].keys| == |t'.nodes[q].rids|
      ensures EntryIn(t', m', q, i)
    {
      if q != p {
        assert EntryIn(t, m, q, i);
      } else if i != pos {
        assert EntryIn(t, m, p, if i < pos then i else i - 1);
      }
    }
    assert t'.nodes[p].keys[pos] == k;
    forall k' | k' in m' ensures 0 <= k' < t'.keySpace && exists q :: Holds(t', q, k') {
      if k' == k {
        assert Holds(t', p, k);
      } else {
        var q :| Holds(t, q, k');
        if q == p {
          var j :| 0 <= j < |n.keys| && n.keys[j] == k';
          assert t'.nodes[p].keys[if j < pos then j else j + 1] == k';
        }
        assert Holds(t', q, k');
      }
    }
  }

  lemma EraseAgrees(t: Tree, s: Shape, p: int, pos: nat, m: map<int, Rid>)
    requires Inv(t, s, -1, NoSplit, -1) && Agrees(t, m)
    requires p in t.nodes && t.nodes[p].isLeaf && pos < |t.nodes[p].keys| == |t.nodes[p].rids|
    ensures Agrees(WithEntries(t, p, RemoveAt(t.nodes[p].keys, pos), RemoveAt(t.nodes[p].rids, pos)),
                   m - {t.nodes[p].keys[pos]})
  {
    var n := t.nodes[p];
    var k := n.keys[pos];
    var t' := WithEntries(t, p, RemoveAt(n.keys, pos), RemoveAt(n.rids, pos));
    assert NodeOk(t, s, -1, p);
    forall q, i | q in t'.nodes && t'.nodes[q].isLeaf && 0 <= i < |t'.nodes[q].keys| == |t'.nodes[q].rids|
      ensures EntryIn(t', m - {k}, q, i)
    {
      if q != p {
        assert EntryIn(t, m, q, i);
        if t.nodes[q].keys[i] == k { LeafUnique(t, s, -1, NoSplit, -1, p, q, k); }
      } else {
        assert EntryIn(t, m, p, if i < pos then i else i + 1);
      }
    }
    forall k' | k' in m - {k} ensures 0 <= k' < t'.keySpace && exists q :: Holds(t', q, k') {
      var q :| Holds(t, q, k');
      if q == p {
        var j :| 0 <= j < |n.keys| && n.keys[j] == k';
        assert t'.nodes[p].keys[if j < pos then j else j - 1] == k';
      }
      assert Holds(t', q, k');
    }
  }

  lemma SplitLeafAgrees(t: Tree, s: Shape, p: int, m: map<int, Rid>)
    requires Inv(t, s, p, NoSplit, -1) && Agrees(t, m)
    requires p in t.nodes && t.nodes[p].isLeaf && |t.nodes[p].keys| == |t.nodes[p].rids| == t.order + 1
    requires t.nodes[p].nextLeaf == IX_LEAF_HEADER_PAGE || t.nodes[p].nextLeaf in t.nodes
    ensures Agrees(SplitLeaf(t, p), m)
  {
    var t' := SplitLeaf(t, p);
    var n := t.nodes[p];
    var mid := |n.keys| / 2;
    forall q, i | q in t'.nodes && t'.nodes[q].isLeaf && 0 <= i < |t'.nodes[q].keys| == |t'.nodes[q].rids|
      ensures EntryIn(t', m, q, i)
    {
      if q == t.numPages {
        assert EntryIn(t, m, p, mid + i);
      } else {
        assert EntryIn(t, m, q, i);
      }
    }
    forall k | k in m ensures 0 <= k < t'.keySpace && exists q :: Holds(t', q, k) {
      var q :| Holds(t, q, k);
      if q == p {
        var j :| 0 <= j < |n.keys| && n.keys[j] == k;
        if j < mid {
          assert t'.nodes[p].keys[j] == k;
          assert Holds(t', p, k);
        } else {
          assert t'.nodes[t.numPages].keys[j - mid] == k;
          assert Holds(t', t.numPages, k);
        }
      } else {
        assert Holds(t', q, k);
      }
    }
  }
}
