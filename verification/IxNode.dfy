/** One page of the B+ tree index: IxNodeHandle of src/index.

    Keys are integers: module KeyOrder shows that the column-by-column
    comparison of index keys is the order of their integer codes. */
module IxNode {
  import opened Common

  const IX_NO_PAGE: int := -1
  const IX_LEAF_HEADER_PAGE: int := 1
  const IX_INIT_ROOT_PAGE: int := 2
  const IX_INIT_NUM_PAGES: int := 3

  /** A page: the header fields, then the first num_key keys and rids.
      In an internal node the rid of slot i holds the page of child i. */
  datatype Node = Node(parent: int, isLeaf: bool, prevLeaf: int, nextLeaf: int,
                       keys: seq<int>, rids: seq<Rid>)

  // ---------- page layout: create_index and IxNodeHandle ----------

  const IX_MAX_COL_LEN: int := 512
  /** sizeof(IxPageHdr) and sizeof(Rid) */
  const PAGE_HDR_SIZE: int := 24
  const RID_SIZE: int := 8

  function BtreeOrder(colTotLen: int): int
    requires 1 <= colTotLen <= IX_MAX_COL_LEN
  {
    (PAGE_SIZE - PAGE_HDR_SIZE) / (colTotLen + RID_SIZE) - 1
  }

  /** For every legal key length a page has room for one entry more than the order, so that a node may overflow
      before it is split, and not for two; the order is at least 6. */
  lemma OverfullNodeFits(colTotLen: int)
    requires 1 <= colTotLen <= IX_MAX_COL_LEN
    ensures BtreeOrder(colTotLen) >= 6
    ensures PAGE_HDR_SIZE + (BtreeOrder(colTotLen) + 1) * (colTotLen + RID_SIZE) <= PAGE_SIZE
    ensures PAGE_HDR_SIZE + (BtreeOrder(colTotLen) + 2) * (colTotLen + RID_SIZE) > PAGE_SIZE
  {
    var d := colTotLen + RID_SIZE;
    var q := 4072 / d;
    Quotient(4072, d, q);
    assert d <= 520 && 7 * d <= 3640;
    if q < 7 { Scale(q + 1, 7, d); }
  }

  lemma Scale(a: int, b: int, d: int)
    requires a <= b && 0 <= d
    ensures a * d <= b * d
  {
  }

  ghost predicate Ascending(s: seq<int>)
  {
    forall i, j :: 0 <= i < j < |s| ==> s[i] < s[j]
  }

  /** Slot 0 of an internal node is not a separator. */
  ghost predicate AscendingFromOne(s: seq<int>)
  {
    forall i, j :: 1 <= i < j < |s| ==> s[i] < s[j]
  }

  function ChildRid(page: int): Rid
  {
    Rid(page, -1)
  }

  function InsertAt<T>(s: seq<T>, pos: nat, x: T): (r: seq<T>)
    requires pos <= |s|
  {
    s[..pos] + [x] + s[pos..]
  }

  function RemoveAt<T>(s: seq<T>, pos: nat): (r: seq<T>)
    requires pos < |s|
  {
    s[..pos] + s[pos + 1..]
  }

  /** Node::lower_bound: binary search for the first key >= target. */
  method NodeLowerBound(keys: seq<int>, target: int) returns (pos: nat)
    requires Ascending(keys)
    ensures pos <= |keys|
    ensures forall i :: 0 <= i < pos ==> keys[i] < target
    ensures forall i :: pos <= i < |keys| ==> target <= keys[i]
  {
    var left, right := 0, |keys|;
    while left < right
      invariant 0 <= left <= right <= |keys|
      invariant forall i :: 0 <= i < left ==> keys[i] < target
      invariant forall i :: right <= i < |keys| ==> target <= keys[i]
    {
      var mid := (left + right) / 2;
      if keys[mid] < target {
        left := mid + 1;
      } else {
        right := mid;
      }
    }
    pos := left;
  }

  /** Node::upper_bound: the first key > target; an internal node searches from slot 1,
      so its slot 0 may hold any key. */
  method NodeUpperBound(keys: seq<int>, isLeaf: bool, target: int) returns (pos: nat)
    requires if isLeaf then Ascending(keys) else |keys| >= 1 && AscendingFromOne(keys)
    ensures pos <= |keys| && (!isLeaf ==> 1 <= pos)
    ensures forall i :: (if isLeaf then 0 else 1) <= i < pos ==> keys[i] <= target
    ensures forall i :: pos <= i < |keys| ==> target < keys[i]
  {
    var first := if isLeaf then 0 else 1;
    var left, right := first, |keys|;
    while left < right
      invariant first <= left <= right <= |keys|
      invariant forall i :: first <= i < left ==> keys[i] <= target
      invariant forall i :: right <= i < |keys| ==> target < keys[i]
    {
      var mid := (left + right) / 2;
      if keys[mid] <= target {
        left := mid + 1;
      } else {
        right := mid;
      }
    }
    pos := left;
  }

  /** Node::find_child: the slot of a child page in its parent. */
  method FindChild(rids: seq<Rid>, child: int) returns (rank: nat)
    requires ChildRid(child) in rids
    ensures rank < |rids| && rids[rank].pageNo == child
    ensures forall i :: 0 <= i < rank ==> rids[i].pageNo != child
  {
    rank := 0;
    while rids[rank].pageNo != child
      invariant rank < |rids|
      invariant forall i :: 0 <= i < rank ==> rids[i].pageNo != child
      decreases |rids| - rank
    {
      assert ChildRid(child) in rids[rank + 1..] by {
        var k :| 0 <= k < |rids| && rids[k] == ChildRid(child);
        assert k > rank;
        assert rids[rank + 1..][k - rank - 1] == rids[k];
      }
      rank := rank + 1;
    }
  }
}
