/** The index handle: search, insert with recursive split, delete, repair of parent keys,
    and range positions. Pages live in `nodes`, keyed by page number. */
module IxIndexHandle {
  import opened Common
  import opened IxNode
  import opened BTree
  import opened LeafChain

  datatype Op = Insert(key: int, rid: Rid) | Delete(key: int) | Get(key: int)

  datatype Reply = Inserted | Rejected | Deleted(found: bool) | Value(rid: Option<Rid>)

  /** What a finite map answers to one request. */
  function Answer(m: map<int, Rid>, op: Op): (r: (map<int, Rid>, Reply))
  {
    match op
    case Insert(k, rid) => if k in m then (m, Rejected) else (m[k := rid], Inserted)
    case Delete(k) => (m - {k}, Deleted(k in m))
    case Get(k) => (m, Value(if k in m then Some(m[k]) else None))
  }

  function AnswerAll(m: map<int, Rid>, ops: seq<Op>): (r: (map<int, Rid>, seq<Reply>))
    ensures |r.1| == |ops|
  {
    if ops == [] then (m, [])
    else
      var (m1, replies) := AnswerAll(m, ops[..|ops| - 1]);
      var (m2, reply) := Answer(m1, ops[|ops| - 1]);
      (m2, replies + [reply])
  }

  class IndexHandle {
    const order: int
    const keySpace: int
    var nodes: map<int, Node>
    var rootPage: int
    var firstLeaf: int
    var lastLeaf: int
    var numPages: int
    ghost var shape: Shape
    ghost var contents: map<int, Rid>

    ghost function View(): Tree
      reads this
    {
      Tree(nodes, rootPage, firstLeaf, lastLeaf, numPages, order, keySpace)
    }

    /** The tree is well formed and its leaves hold exactly `contents`. */
    ghost predicate Valid()
      reads this
    {
      Inv(View(), shape, -1, NoSplit, -1) && Agrees(View(), contents)
    }

    ghost function Entries(): seq<Entry>
      reads this
    {
      Walk(nodes, shape.leaves)
    }

    /** IxManager::create_index: one empty leaf, page 2, which is root, first and last leaf. */
    constructor (btreeOrder: int, space: int)
      requires 3 <= btreeOrder && 0 < space
      ensures Valid() && contents == map[] && order == btreeOrder && keySpace == space
      ensures firstLeaf == lastLeaf == rootPage == IX_INIT_ROOT_PAGE
    {
      order, keySpace := btreeOrder, space;
      nodes := map[IX_INIT_ROOT_PAGE := Node(IX_NO_PAGE, true, IX_LEAF_HEADER_PAGE, IX_LEAF_HEADER_PAGE, [], [])];
      rootPage, firstLeaf, lastLeaf := IX_INIT_ROOT_PAGE, IX_INIT_ROOT_PAGE, IX_INIT_ROOT_PAGE;
      numPages := IX_INIT_NUM_PAGES;
      shape := Shape(map[IX_INIT_ROOT_PAGE := 0], map[IX_INIT_ROOT_PAGE := 0],
                     map[IX_INIT_ROOT_PAGE := space], [IX_INIT_ROOT_PAGE]);
      contents := map[];
    }

    /** The leaf whose interval holds the key. */
    method FindLeafPage(key: int) returns (p: int)
      requires Valid() && 0 <= key < keySpace
      ensures p in nodes && nodes[p].isLeaf && NodeOk(View(), shape, -1, p)
      ensures shape.lo[p] <= key < shape.hi[p]
    {
      p := rootPage;
      ghost var t := View();
      assert NodeOk(t, shape, -1, p);
      while !nodes[p].isLeaf
        invariant p in nodes && NodeOk(t, shape, -1, p) && shape.lo[p] <= key < shape.hi[p]
        decreases shape.level[p]
      {
        var pos := NodeUpperBound(nodes[p].keys, false, key);
        assert SlotOk(t, shape, NoSplit, -1, p, pos - 1);
        p := nodes[p].rids[pos - 1].pageNo;
        assert NodeOk(t, shape, -1, p);
      }
    }

    method GetValue(key: int) returns (result: Option<Rid>)
      requires Valid() && 0 <= key < keySpace
      ensures result == if key in contents then Some(contents[key]) else None
    {
      var p := FindLeafPage(key);
      LookupAgrees(View(), shape, -1, p, key, contents);
      var pos := NodeLowerBound(nodes[p].keys, key);
      if pos < |nodes[p].keys| && nodes[p].keys[pos] == key {
        result := Some(nodes[p].rids[pos]);
      } else {
        result := None;
      }
    }

    method SplitLeafPage(p: int)
      requires p in nodes && |nodes[p].keys| == |nodes[p].rids| && nodes[p].isLeaf
      requires nodes[p].nextLeaf == IX_LEAF_HEADER_PAGE || nodes[p].nextLeaf in nodes
      modifies this
      ensures View() == old(SplitLeaf(View(), p)) && shape == old(shape) && contents == old(contents)
    {
      var n, y := nodes[p], numPages;
      var moveStart := |n.keys| / 2;
      numPages := numPages + 1;
      nodes := nodes[y := Node(n.parent, true, p, n.nextLeaf, n.keys[moveStart..], n.rids[moveStart..])];
      if n.nextLeaf != IX_LEAF_HEADER_PAGE {
        nodes := nodes[n.nextLeaf := nodes[n.nextLeaf].(prevLeaf := y)];
      }
      nodes := nodes[p := n.(keys := n.keys[..moveStart], rids := n.rids[..moveStart], nextLeaf := y)];
      if lastLeaf == p {
        lastLeaf := y;
      }
    }

    method SplitInternalPage(p: int)
      requires p in nodes && |nodes[p].keys| == |nodes[p].rids| && !nodes[p].isLeaf
      requires forall r <- nodes[p].rids :: r == ChildRid(r.pageNo) && r.pageNo in nodes
      modifies this
      ensures View() == old(SplitInternal(View(), p)) && shape == old(shape) && contents == old(contents)
    {
      var n, y := nodes[p], numPages;
      var moveStart := |n.keys| / 2;
      numPages := numPages + 1;
      nodes := nodes[y := Node(n.parent, false, IX_NO_PAGE, IX_NO_PAGE, n.keys[moveStart..], n.rids[moveStart..])];
      nodes := nodes[p := n.(keys := n.keys[..moveStart], rids := n.rids[..moveStart])];
      nodes := MaintainChildren(nodes, n.rids[moveStart..], y);
    }

    /** split: page p, one entry too large, gives its right half to the new page y. */
    method SplitNode(p: int) returns (y: int)
      requires Inv(View(), shape, p, NoSplit, -1) && Agrees(View(), contents)
      requires p in nodes && |nodes[p].keys| == order + 1
      modifies this
      ensures y == old(numPages) && rootPage == old(rootPage) && p in nodes && y in nodes
      ensures Inv(View(), shape, -1, Split(p, y), -1) && Agrees(View(), contents)
      ensures contents == old(contents) && firstLeaf == old(firstLeaf)
      ensures shape.level[rootPage] == old(shape.level[rootPage]) && shape.level[p] == old(shape.level[p])
      ensures nodes[p].parent == old(nodes[p].parent)
    {
      ghost var t := View();
      y := numPages;
      if nodes[p].isLeaf {
        ghost var s' := SplitLeafKeepsInv(t, shape, p);
        SplitLeafAgrees(t, shape, p, contents);
        SplitLeafPage(p);
        shape := s';
      } else {
        assert NodeOk(t, shape, p, p);
        forall r | r in nodes[p].rids ensures r == ChildRid(r.pageNo) && r.pageNo in nodes {
          var i :| 0 <= i < |nodes[p].rids| && nodes[p].rids[i] == r;
          assert SlotOk(t, shape, NoSplit, -1, p, i);
        }
        ghost var s' := SplitInternalKeepsInv(t, shape, p);
        SplitInternalAgrees(t, shape, p, contents);
        SplitInternalPage(p);
        shape := s';
      }
    }

    method NewRoot(left: int, right: int)
      requires Inv(View(), shape, -1, Split(left, right), -1) && Agrees(View(), contents) && left == rootPage
      modifies this
      ensures Valid() && contents == old(contents) && firstLeaf == old(firstLeaf)
    {
      ghost var t := View();
      GrowRootKeepsInv(t, shape, left, right);
      GrowRootAgrees(t, shape, left, right, contents);
      var y := numPages;
      numPages := numPages + 1;
      nodes := nodes[y := Node(IX_NO_PAGE, false, IX_NO_PAGE, IX_NO_PAGE,
                               [nodes[left].keys[0], nodes[right].keys[0]], [ChildRid(left), ChildRid(right)])];
      nodes := nodes[left := nodes[left].(parent := y)];
      nodes := nodes[right := nodes[right].(parent := y)];
      rootPage := y;
      shape := GrowShape(t, shape);
    }

    method LinkIntoParent(left: int, key: int, right: int) returns (p: int)
      requires Inv(View(), shape, -1, Split(left, right), -1) && Agrees(View(), contents) && left != rootPage
      requires key == nodes[right].keys[0]
      modifies this
      ensures p in nodes && Inv(View(), shape, p, NoSplit, -1) && Agrees(View(), contents) && contents == old(contents)
      ensures firstLeaf == old(firstLeaf) && rootPage == old(rootPage) && shape == old(shape)
      ensures shape.level[p] == shape.level[left] + 1 <= shape.level[rootPage]
      ensures |nodes[p].keys| <= order + 1
    {
      ghost var t := View();
      assert ParentOk(t, shape, left);
      p := nodes[left].parent;
      assert NodeOk(t, shape, -1, p) && NodeOk(t, shape, -1, left);
      var rank := FindChild(nodes[p].rids, left);
      LinkRightKeepsInv(t, shape, left, right, rank);
      LinkRightAgrees(t, left, right, rank, contents);
      nodes := nodes[p := nodes[p].(keys := InsertAt(nodes[p].keys, rank + 1, key),
                                    rids := InsertAt(nodes[p].rids, rank + 1, ChildRid(right)))];
      nodes := nodes[right := nodes[right].(parent := p)];
      assert NodeOk(View(), shape, p, p);
    }

    /** insert_into_parent: the new right half gets a slot in the parent, which may split in turn;
        the recursion climbs one level each time. */
    method InsertIntoParent(left: int, key: int, right: int)
      requires Inv(View(), shape, -1, Split(left, right), -1) && Agrees(View(), contents)
      requires key == nodes[right].keys[0]
      modifies this
      ensures Valid() && contents == old(contents) && firstLeaf == old(firstLeaf)
      decreases shape.level[rootPage] - shape.level[left]
    {
      RootIffNoParent(View(), shape, -1, Split(left, right), -1, left);
      if nodes[left].parent == IX_NO_PAGE {
        NewRoot(left, right);
      } else {
        var p := LinkIntoParent(left, key, right);
        if |nodes[p].keys| >= order + 1 {
          var y := SplitNode(p);
          InsertIntoParent(p, nodes[y].keys[0], y);
        } else {
          OverUnused(View(), shape, p);
        }
      }
    }

    /** One round of maintain_parent. A slot other than slot 0 is a separator: raising it ends the repair. */
    method TakeFirstKey(leaf: int, curr: int, p: int, rank: nat) returns (ghost done: bool)
      requires Inv(View(), shape, -1, NoSplit, curr) && Agrees(View(), contents)
      requires leaf in nodes && nodes[leaf].isLeaf && nodes[leaf].keys != []
      requires curr in nodes && nodes[curr].keys != [] && nodes[curr].keys[0] == nodes[leaf].keys[0]
      requires shape.lo[curr] == shape.lo[leaf]
      requires p in nodes && NodeOk(View(), shape, -1, p) && !nodes[p].isLeaf && rank < |nodes[p].keys|
      requires nodes[p].rids[rank] == ChildRid(curr) && nodes[p].keys[rank] != nodes[leaf].keys[0]
      modifies this`nodes, this`shape
      ensures Inv(View(), shape, -1, NoSplit, p) && Agrees(View(), contents)
      ensures leaf in nodes && nodes[leaf] == old(nodes[leaf])
      ensures shape.level == old(shape.level) && shape.leaves == old(shape.leaves)
      ensures p in nodes && nodes[p].keys != [] && !nodes[p].isLeaf
      ensures done ==> Inv(View(), shape, -1, NoSplit, -1)
      ensures !done ==> nodes[p].keys[0] == nodes[leaf].keys[0] && shape.lo[p] == shape.lo[leaf]
      ensures nodes == SetKey(old(View()), p, rank, old(nodes[leaf].keys[0])).nodes
    {
      ghost var t := View();
      assert SlotOk(t, shape, NoSplit, curr, p, rank);
      if rank == 0 {
        SetFirstKeyKeepsInv(t, shape, curr, p);
      } else {
        RaiseReady(t, shape, leaf, curr, p, rank);
        RaiseKeepsInv(t, shape, leaf, curr, p, rank, shape.lo[leaf], nodes[leaf].keys[0]);
        shape := RaiseShape(shape, shape.lo[leaf], nodes[leaf].keys[0]);
      }
      nodes := nodes[p := nodes[p].(keys := nodes[p].keys[rank := nodes[curr].keys[0]])];
      SameLeavesAgree(t, View(), contents);
      done := rank != 0;
      if done { SkipAny(View(), shape, p); }
    }

    /** The parent of a page and the page's slot in it. */
    method ParentSlot(curr: int) returns (p: int, rank: nat)
      requires Inv(View(), shape, -1, NoSplit, curr) && curr in nodes && curr != rootPage
      ensures p == nodes[curr].parent && p in nodes && NodeOk(View(), shape, -1, p) && !nodes[p].isLeaf
      ensures shape.level[p] == shape.level[curr] + 1 <= shape.level[rootPage]
      ensures rank < |nodes[p].keys| == |nodes[p].rids| && nodes[p].rids[rank] == ChildRid(curr)
    {
      assert ParentOk(View(), shape, curr) && NodeOk(View(), shape, -1, curr);
      p := nodes[curr].parent;
      assert NodeOk(View(), shape, -1, p);
      rank := FindChild(nodes[p].rids, curr);
      assert SlotOk(View(), shape, NoSplit, curr, p, rank);
    }

    method PassUp(leaf: int, curr: int, p: int, rank: nat, ghost start: map<int, Node>) returns (ghost done: bool)
      requires Climbing(View(), shape, leaf, curr, false) && Agrees(View(), contents)
      requires OnlySeparators(start, nodes) && leaf != rootPage
      requires p == nodes[curr].parent && p in nodes && NodeOk(View(), shape, -1, p) && !nodes[p].isLeaf
      requires shape.level[p] == shape.level[curr] + 1
      requires rank < |nodes[p].keys| == |nodes[p].rids| && nodes[p].rids[rank] == ChildRid(curr)
      requires nodes[p].keys[rank] != nodes[curr].keys[0]
      modifies this`nodes, this`shape
      ensures Climbing(View(), shape, leaf, p, done) && Agrees(View(), contents) && OnlySeparators(start, nodes)
      ensures shape.level == old(shape.level) && shape.leaves == old(shape.leaves)
    {
      KeyTaken(View(), shape, start, leaf, curr, p, rank);
      done := TakeFirstKey(leaf, curr, p, rank);
      RootIffNoParent(View(), shape, -1, NoSplit, p, p);
    }

    /** maintain_parent: from a leaf upwards, the parent takes over the child's first key
        until a parent already has it. */
    method MaintainParent(leaf: int)
      requires Valid() && leaf in nodes && nodes[leaf].isLeaf && nodes[leaf].keys != []
      modifies this`nodes, this`shape
      ensures Valid() && ParentKeeps(nodes, leaf) && OnlySeparators(old(nodes), nodes)
      ensures shape.leaves == old(shape.leaves)
    {
      SkipAny(View(), shape, leaf);
      var curr := leaf;
      ghost var done := false;
      RootIffNoParent(View(), shape, -1, NoSplit, curr, curr);
      while nodes[curr].parent != IX_NO_PAGE
        invariant Agrees(View(), contents) && OnlySeparators(old(nodes), nodes)
        invariant Climbing(View(), shape, leaf, curr, done) && shape.leaves == old(shape.leaves)
        decreases shape.level[rootPage] - shape.level[curr]
      {
        var p, rank := ParentSlot(curr);
        RaisedStops(View(), shape, leaf, curr, done, p, rank);
        if nodes[p].keys[rank] == nodes[curr].keys[0] {
          StopHere(View(), shape, leaf, curr, done, p, rank);
          return;
        }
        done := PassUp(leaf, curr, p, rank, old(nodes));
        curr := p;
      }
      AtTop(View(), shape, leaf, curr, done);
    }

    /** insert_entry: IX_NO_PAGE exactly on a key that is present. */
    method InsertEntry(key: int, rid: Rid) returns (pageNo: int)
      requires Valid() && 0 <= key < keySpace
      modifies this
      ensures Valid() && firstLeaf == old(firstLeaf)
      ensures pageNo == IX_NO_PAGE <==> key in old(contents)
      ensures key in old(contents) ==> View() == old(View()) && contents == old(contents)
      ensures key !in old(contents) ==> contents == old(contents)[key := rid]
      ensures pageNo != IX_NO_PAGE ==> pageNo in old(nodes) && FrontKept(old(nodes)[pageNo], nodes, pageNo, order, key)
    {
      var p := FindLeafPage(key);
      LookupAgrees(View(), shape, -1, p, key, contents);
      var n := nodes[p];
      var pos := NodeLowerBound(n.keys, key);
      if pos < |n.keys| && n.keys[pos] == key {
        return IX_NO_PAGE;
      }
      InsertAgrees(View(), shape, p, pos, key, rid, contents);
      LeafEntriesKeepInv(View(), shape, p, InsertAt(n.keys, pos, key), InsertAt(n.rids, pos, rid), p);
      nodes := nodes[p := n.(keys := InsertAt(n.keys, pos, key), rids := InsertAt(n.rids, pos, rid))];
      contents := contents[key := rid];
      SettleLeaf(p, pos == 0);
      pageNo := p;
    }

    /** After an insert: split an overfull leaf, or pass a new first key on to the parents. */
    method SettleLeaf(p: int, atFront: bool)
      requires Inv(View(), shape, p, NoSplit, -1) && Agrees(View(), contents)
      requires p in nodes && nodes[p].isLeaf && nodes[p].keys != [] && |nodes[p].keys| <= order + 1
      modifies this
      ensures Valid() && firstLeaf == old(firstLeaf) && contents == old(contents)
      ensures old(|nodes[p].keys|) <= order && atFront ==> ParentKeeps(nodes, p)
      ensures old(|nodes[p].keys|) <= order ==> p in nodes && nodes[p] == old(nodes[p])
    {
      if |nodes[p].keys| >= order + 1 {
        var y := SplitNode(p);
        InsertIntoParent(p, nodes[y].keys[0], y);
      } else {
        OverUnused(View(), shape, p);
        if atFront {
          MaintainParent(p);
        }
      }
    }

    /** delete_entry: true exactly on a key that is present. Pages are never merged. */
    method DeleteEntry(key: int) returns (deleted: bool)
      requires Valid() && 0 <= key < keySpace
      modifies this
      ensures Valid() && firstLeaf == old(firstLeaf)
      ensures deleted <==> key in old(contents)
      ensures contents == old(contents) - {key}
      ensures deleted ==>
                exists p :: old(Holds(View(), p, key)) && p in nodes && (nodes[p].keys == [] || ParentKeeps(nodes, p))
      ensures shape.leaves == old(shape.leaves) && LeavesLose(old(nodes), nodes, key)
    {
      var p := FindLeafPage(key);
      LookupAgrees(View(), shape, -1, p, key, contents);
      var n := nodes[p];
      var pos := NodeLowerBound(n.keys, key);
      deleted := pos < |n.keys| && n.keys[pos] == key;
      if deleted {
        EraseAgrees(View(), shape, p, pos, contents);
        LeafEntriesKeepInv(View(), shape, p, RemoveAt(n.keys, pos), RemoveAt(n.rids, pos), -1);
        nodes := nodes[p := n.(keys := RemoveAt(n.keys, pos), rids := RemoveAt(n.rids, pos))];
        contents := contents - {key};
        if |nodes[p].keys| > 0 {
          MaintainParent(p);
        }
      }
    }

    /** Any run of requests from any valid tree answers exactly as a finite map would. */
    method Run(ops: seq<Op>) returns (replies: seq<Reply>)
      requires Valid() && forall op <- ops :: 0 <= op.key < keySpace
      modifies this
      ensures Valid() && firstLeaf == old(firstLeaf)
      ensures (contents, replies) == AnswerAll(old(contents), ops)
    {
      replies := [];
      for i := 0 to |ops|
        invariant Valid() && firstLeaf == old(firstLeaf)
        invariant (contents, replies) == AnswerAll(old(contents), ops[..i])
      {
        assert ops[..i + 1][..i] == ops[..i];
        var reply;
        match ops[i] {
          case Insert(k, rid) =>
            var page := InsertEntry(k, rid);
            reply := if page == IX_NO_PAGE then Rejected else Inserted;
          case Delete(k) =>
            var found := DeleteEntry(k);
            reply := Deleted(found);
          case Get(k) =>
            var value := GetValue(k);
            reply := Value(value);
        }
        replies := replies + [reply];
      }
      assert ops[..|ops|] == ops;
    }

    // ---------- positions ----------

    /** lower_bound: the first entry with key >= target, across any number of empty leaves. */
    method LowerBound(key: int) returns (iid: Iid)
      requires Valid() && 0 <= key < keySpace
      ensures BoundOf(View(), shape, iid, key)
    {
      iid := Seek(key, false);
    }

    /** upper_bound: the first entry with key > target. */
    method UpperBound(key: int) returns (iid: Iid)
      requires Valid() && 0 <= key < keySpace
      ensures BoundOf(View(), shape, iid, key + 1)
    {
      iid := Seek(key, true);
    }

    /** The walk that lower_bound and upper_bound share; they differ in the search inside a leaf. */
    method Seek(key: int, after: bool) returns (iid: Iid)
      requires Valid() && 0 <= key < keySpace
      ensures BoundOf(View(), shape, iid, if after then key + 1 else key)
    {
      var p := FindLeafPage(key);
      ghost var t := View();
      ghost var target := if after then key + 1 else key;
      ghost var i: nat := ChainNeighbour(t, shape, p);
      LeavesBelow(t, shape, i, target);
      var slot: nat := SeekInLeaf(p, key, after, i, target);
      while slot == |nodes[p].keys| && p != lastLeaf
        invariant Seeking(t, shape, i, slot, target) && p == shape.leaves[i]
        decreases |shape.leaves| - i
      {
        SeekNext(t, shape, i, slot, target);
        i := i + 1;
        p := nodes[p].nextLeaf;
        slot := SeekInLeaf(p, key, after, i, target);
      }
      SeekDone(t, shape, i, slot, target);
      iid := Iid(p, slot);
    }

    method SeekInLeaf(p: int, key: int, after: bool, ghost i: nat, ghost target: int) returns (slot: nat)
      requires p in nodes && nodes[p].isLeaf && Ascending(nodes[p].keys) && |nodes[p].keys| == |nodes[p].rids|
      requires target == if after then key + 1 else key
      requires i < |shape.leaves| && shape.leaves[i] == p && Below(Entries(), Offset(nodes, shape.leaves, i), target)
      ensures Seeking(View(), shape, i, slot, target)
    {
      if after {
        slot := NodeUpperBound(nodes[p].keys, true, key);
      } else {
        slot := NodeLowerBound(nodes[p].keys, key);
      }
    }

    /** leaf_begin: the first entry, past any empty leaves. */
    method LeafBegin() returns (iid: Iid)
      requires Valid()
      ensures Position(View(), shape, iid, 0)
    {
      ghost var t := View();
      ghost var i: nat := 0;
      var p := firstLeaf;
      assert LinkOk(t, shape, 0) && NodeOk(t, shape, -1, p);
      while |nodes[p].keys| == 0 && p != lastLeaf
        invariant i < |shape.leaves| && p == shape.leaves[i] && p in nodes && NodeOk(t, shape, -1, p)
        invariant Offset(nodes, shape.leaves, i) == 0
        decreases |shape.leaves| - i
      {
        NextLeaf(t, shape, i);
        i := i + 1;
        p := nodes[p].nextLeaf;
      }
      if p == lastLeaf { ChainDistinct(t, shape, i, |shape.leaves| - 1); }
      iid := Iid(p, 0);
      assert At(t, shape, iid, i, 0);
    }

    /** leaf_end: one past the last entry. */
    method LeafEnd() returns (iid: Iid)
      requires Valid()
      ensures Position(View(), shape, iid, |Entries()|)
    {
      ghost var n := |shape.leaves| - 1;
      assert LinkOk(View(), shape, n) && NodeOk(View(), shape, -1, lastLeaf);
      iid := Iid(lastLeaf, |nodes[lastLeaf].keys|);
      WalkPrefix(nodes, shape.leaves, n + 1);
      assert shape.leaves[..n + 1] == shape.leaves;
      assert At(View(), shape, iid, n, |Entries()|);
    }
  }

  /** The parent of c, if it has one, keeps c's first key in the slot of c. */
  ghost predicate ParentKeeps(nodes: map<int, Node>, c: int)
  {
    c in nodes && nodes[c].keys != [] &&
    (nodes[c].parent in nodes ==>
       exists rank: nat ::
         && rank < |nodes[nodes[c].parent].rids| && rank < |nodes[nodes[c].parent].keys|
         && nodes[nodes[c].parent].rids[rank] == ChildRid(c)
         && nodes[nodes[c].parent].keys[rank] == nodes[c].keys[0])
  }

  /** A key that went to the front of a leaf with room is the key that the leaf's parent keeps. */
  ghost predicate FrontKept(before: Node, nodes: map<int, Node>, p: int, order: int, key: int)
  {
    |before.keys| < order ==> p in nodes && nodes[p].keys != [] && (nodes[p].keys[0] == key ==> ParentKeeps(nodes, p))
  }

  /** Leaves are as before, and internal pages up to their keys. */
  ghost predicate OnlySeparators(nodes: map<int, Node>, nodes': map<int, Node>)
  {
    && nodes'.Keys == nodes.Keys
    && forall q :: q in nodes ==>
      if nodes[q].isLeaf then nodes'[q] == nodes[q] else nodes'[q].(keys := []) == nodes[q].(keys := [])
  }

  /** Every leaf is as before, or lost one entry with the key. */
  ghost predicate LeavesLose(nodes: map<int, Node>, nodes': map<int, Node>, key: int)
  {
    forall q :: q in nodes && nodes[q].isLeaf ==>
      q in nodes' && (nodes'[q] == nodes[q] ||
                      (key in nodes[q].keys && |nodes'[q].keys| == |nodes'[q].rids| == |nodes[q].keys| - 1))
  }

  /** The walk has just begun, or it is above the leaf's parent, which keeps the leaf's first key. */
  ghost predicate KeptBelow(nodes: map<int, Node>, s: Shape, leaf: int, curr: int)
  {
    curr == leaf || (curr in s.level && 1 <= s.level[curr] && ParentKeeps(nodes, leaf))
  }

  /** One more round of maintain_parent begins at curr; once a separator has been raised the repair is done. */
  ghost predicate Climbing(t: Tree, s: Shape, leaf: int, curr: int, done: bool)
  {
    && Inv(t, s, -1, NoSplit, curr) && curr in t.nodes && t.nodes[curr].keys != []
    && leaf in t.nodes && t.nodes[leaf].isLeaf && t.nodes[leaf].keys != []
    && (t.nodes[curr].parent == IX_NO_PAGE <==> curr == t.root)
    && (done ==> Inv(t, s, -1, NoSplit, -1) && !t.nodes[curr].isLeaf)
    && (!done ==> t.nodes[curr].keys[0] == t.nodes[leaf].keys[0] && s.lo[curr] == s.lo[leaf])
    && KeptBelow(t.nodes, s, leaf, curr)
  }

  lemma StopHere(t: Tree, s: Shape, leaf: int, curr: int, done: bool, p: int, rank: nat)
    requires Climbing(t, s, leaf, curr, done) && curr != t.root && p == t.nodes[curr].parent && p in t.nodes
    requires rank < |t.nodes[p].keys| == |t.nodes[p].rids| && t.nodes[p].rids[rank] == ChildRid(curr)
    requires t.nodes[p].keys[rank] == t.nodes[curr].keys[0]
    ensures Inv(t, s, -1, NoSplit, -1) && ParentKeeps(t.nodes, leaf)
  {
    SkipDone(t, s, curr, rank);
  }

  /** A separator that was raised is kept one level up, so the walk then stops at once. */
  lemma RaisedStops(t: Tree, s: Shape, leaf: int, curr: int, done: bool, p: int, rank: nat)
    requires Climbing(t, s, leaf, curr, done) && curr != t.root && p == t.nodes[curr].parent
    requires p in t.nodes && NodeOk(t, s, -1, p) && !t.nodes[p].isLeaf
    requires rank < |t.nodes[p].keys| == |t.nodes[p].rids| && t.nodes[p].rids[rank] == ChildRid(curr)
    ensures leaf != t.root && (done ==> t.nodes[p].keys[rank] == t.nodes[curr].keys[0])
  {
    if done { assert SlotOk(t, s, NoSplit, -1, p, rank); }
    assert NodeOk(t, s, -1, leaf) && NodeOk(t, s, -1, t.root);
    assert ParentOk(t, s, curr) && NodeOk(t, s, -1, curr);
  }

  lemma AtTop(t: Tree, s: Shape, leaf: int, curr: int, done: bool)
    requires Climbing(t, s, leaf, curr, done) && t.nodes[curr].parent == IX_NO_PAGE
    ensures Inv(t, s, -1, NoSplit, -1) && ParentKeeps(t.nodes, leaf)
  {
    SkipDone(t, s, curr, 0);
  }

  lemma KeyTaken(t: Tree, s: Shape, start: map<int, Node>, leaf: int, curr: int, p: int, rank: nat)
    requires Inv(t, s, -1, NoSplit, curr) && OnlySeparators(start, t.nodes) && KeptBelow(t.nodes, s, leaf, curr)
    requires leaf in t.nodes && t.nodes[leaf].isLeaf && t.nodes[leaf].keys != [] && leaf != t.root
    requires curr in t.nodes && t.nodes[curr].parent == p && p in t.nodes && !t.nodes[p].isLeaf
    requires s.level[p] == s.level[curr] + 1
    requires rank < |t.nodes[p].keys| == |t.nodes[p].rids| && t.nodes[p].rids[rank] == ChildRid(curr)
    ensures var nodes' := SetKey(t, p, rank, t.nodes[leaf].keys[0]).nodes;
            OnlySeparators(start, nodes') && KeptBelow(nodes', s, leaf, p)
  {
    var nodes' := SetKey(t, p, rank, t.nodes[leaf].keys[0]).nodes;
    assert NodeOk(t, s, -1, leaf) && ParentOk(t, s, leaf) && NodeOk(t, s, -1, curr);
    var g := t.nodes[leaf].parent;
    if curr == leaf {
      assert nodes'[p].keys[rank] == t.nodes[leaf].keys[0];
    } else {
      assert s.level[g] == 1 && s.level[p] >= 2;
      assert nodes'[g] == t.nodes[g];
    }
  }

  /** maintain_child for each slot of the new page. */
  method MaintainChildren(nodes: map<int, Node>, kids: seq<Rid>, parent: int) returns (r: map<int, Node>)
    requires forall i :: 0 <= i < |kids| ==> kids[i] == ChildRid(kids[i].pageNo) && kids[i].pageNo in nodes
    ensures r == Adopt(nodes, kids, parent)
  {
    r := nodes;
    for i := 0 to |kids|
      invariant r == Adopt(nodes, kids[..i], parent)
    {
      var c := kids[i].pageNo;
      assert kids[..i + 1] == kids[..i] + [ChildRid(c)];
      r := r[c := r[c].(parent := parent)];
    }
    assert kids[..|kids|] == kids;
  }
}
