/** LRUReplacer of src/replacer: the frames that may be evicted, most recently released first. */
module LruReplacer {
  import opened Common

  /** s without its (only) occurrence of x. */
  function Without<T(==)>(s: seq<T>, x: T): (r: seq<T>)
  {
    if s == [] then [] else if s[0] == x then s[1..] else [s[0]] + Without(s[1..], x)
  }

  lemma {:induction false} WithoutElements<T>(s: seq<T>, x: T)
    requires NoDuplicates(s)
    ensures NoDuplicates(Without(s, x))
    ensures forall y :: y in Without(s, x) <==> y in s && y != x
    ensures x !in s ==> Without(s, x) == s
  {
    if s != [] {
      if s[0] == x {
        assert s == [x] + s[1..];
      } else {
        WithoutElements(s[1..], x);
        assert s[0] !in s[1..];
        assert s == [s[0]] + s[1..];
        assert forall y :: y in Without(s, x) <==> y == s[0] || y in Without(s[1..], x);
      }
    }
  }

  /** What is left keeps its order. */
  lemma {:induction false} WithoutAt<T>(s: seq<T>, x: T, i: nat)
    requires NoDuplicates(s) && i < |s| && s[i] == x
    ensures Without(s, x) == s[..i] + s[i + 1..]
  {
    if i > 0 {
      WithoutAt(s[1..], x, i - 1);
      assert s[..i] == [s[0]] + s[1..][..i - 1] && s[1..][i..] == s[i + 1..];
    }
  }

  class Replacer {
    var lruList: seq<int>
    var lruHash: set<int>
    var isPinned: seq<bool>

    /** list, hash table and pin flags tell the same story */
    ghost predicate Valid()
      reads this
    {
      && NoDuplicates(lruList)
      && (forall f :: f in lruHash <==> f in lruList)
      && (forall f <- lruList :: 0 <= f < |isPinned|)
      && (forall f :: 0 <= f < |isPinned| ==> (isPinned[f] <==> f !in lruList))
    }

    constructor (numPages: nat)
      ensures Valid() && lruList == [] && |isPinned| == numPages
    {
      lruList, lruHash := [], {};
      isPinned := seq(numPages, _ => true);
    }

    /** victim: the frame released longest ago. */
    method Victim() returns (found: bool, frame: int)
      requires Valid()
      modifies this
      ensures Valid() && |isPinned| == old(|isPinned|)
      ensures found <==> old(lruList) != []
      ensures !found ==> lruList == []
      ensures found ==> old(lruList) == lruList + [frame] && frame in old(lruList)
    {
      if lruList == [] {
        return false, -1;
      }
      frame := lruList[|lruList| - 1];
      assert frame in lruList;
      isPinned := isPinned[frame := true];
      lruHash := lruHash - {frame};
      lruList := lruList[..|lruList| - 1];
      found := true;
    }

    method Pin(f: int)
      requires Valid() && 0 <= f < |isPinned|
      modifies this
      ensures Valid() && |isPinned| == old(|isPinned|)
      ensures lruList == Without(old(lruList), f)
    {
      WithoutElements(lruList, f);
      if isPinned[f] {
        return;
      }
      isPinned := isPinned[f := true];
      if f in lruHash {
        lruList := Without(lruList, f);
        lruHash := lruHash - {f};
      }
    }

    method Unpin(f: int)
      requires Valid() && 0 <= f < |isPinned|
      modifies this
      ensures Valid() && |isPinned| == old(|isPinned|)
      ensures lruList == if f in old(lruList) then old(lruList) else [f] + old(lruList)
    {
      if isPinned[f] {
        isPinned := isPinned[f := false];
        lruList := [f] + lruList;
        lruHash := lruHash + {f};
      }
    }
  }
}
