/** What several parts of the system share (src/defs.h, src/common). */
module Common {

  const PAGE_SIZE: int := 4096
  const INVALID_LSN: int := -1
  const LOG_BUFFER_SIZE: int := 4194304
  const RM_FIRST_RECORD_PAGE: int := 1
  const INT_MIN: int := -0x8000_0000
  const INT_MAX: int := 0x7fff_ffff

  datatype Option<+T> = None | Some(value: T)

  datatype Rid = Rid(pageNo: int, slotNo: int)

  type Bytes = seq<int>

  predicate IsInt32(x: int)
  {
    INT_MIN <= x <= INT_MAX
  }

  ghost predicate NoDuplicates<T>(s: seq<T>)
  {
    forall i, j :: 0 <= i < j < |s| ==> s[i] != s[j]
  }

  function Pow256(n: nat): (r: nat)
    ensures r >= 1
  {
    if n == 0 then 1 else 256 * Pow256(n - 1)
  }

  lemma Product(a: int, b: int)
    requires 0 <= a && 0 <= b
    ensures 0 <= a * b
  {
  }

  lemma Quotient(a: int, d: int, q: int)
    requires 0 <= a && 0 < d && q == a / d
    ensures 0 <= q && q * d <= a < (q + 1) * d
  {
  }
}
