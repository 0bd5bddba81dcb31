/** Index keys and their order: ix_compare of src/index/ix_index_handle.h.

    A key is a tuple of columns. Integer columns compare as signed 32-bit numbers, string
    columns byte by byte over their fixed length. The integer code of a key orders keys the
    same way, so an index over integer codes is an index over keys. */
module KeyOrder {
  import opened Common

  datatype ColType = TypeInt | TypeString(len: nat)

  datatype Column = IntCol(value: int) | StringCol(bytes: seq<int>)

  type Key = seq<Column>

  predicate IsByte(b: int)
  {
    0 <= b < 256
  }

  predicate FitsCol(c: Column, t: ColType)
  {
    match t
    case TypeInt => c.IntCol? && -0x8000_0000 <= c.value < 0x8000_0000
    case TypeString(len) => c.StringCol? && |c.bytes| == len && forall b <- c.bytes :: IsByte(b)
  }

  predicate Fits(k: Key, schema: seq<ColType>)
  {
    |k| == |schema| && forall i :: 0 <= i < |k| ==> FitsCol(k[i], schema[i])
  }

  /** The length of a key in bytes. */
  function KeyLength(schema: seq<ColType>): (n: nat)
  {
    if schema == [] then 0 else (if schema[0].TypeInt? then 4 else schema[0].len) + KeyLength(schema[1..])
  }

  /** memcmp over equally long byte strings, as a sign. */
  function MemCmp(a: seq<int>, b: seq<int>): (r: int)
    requires |a| == |b|
  {
    if a == [] then 0
    else if a[0] < b[0] then -1
    else if a[0] > b[0] then 1
    else MemCmp(a[1..], b[1..])
  }

  function CompareCol(a: Column, b: Column, t: ColType): (r: int)
    requires FitsCol(a, t) && FitsCol(b, t)
  {
    match t
    case TypeInt => if a.value < b.value then -1 else if a.value > b.value then 1 else 0
    case TypeString(_) => MemCmp(a.bytes, b.bytes)
  }

  /** Lexicographic comparison: the first column that differs decides. */
  function Compare(a: Key, b: Key, schema: seq<ColType>): (r: int)
    requires Fits(a, schema) && Fits(b, schema)
  {
    if schema == [] then 0
    else
      var r := CompareCol(a[0], b[0], schema[0]);
      if r != 0 then r else Compare(a[1..], b[1..], schema[1..])
  }

  /** ix_compare as the source runs it: a loop over the columns that stops at the first difference. */
  method IxCompare(a: Key, b: Key, schema: seq<ColType>) returns (r: int)
    requires Fits(a, schema) && Fits(b, schema)
    ensures r == Compare(a, b, schema)
  {
    for i := 0 to |schema|
      invariant Compare(a, b, schema) == Compare(a[i..], b[i..], schema[i..])
    {
      var res := CompareCol(a[i], b[i], schema[i]);
      assert a[i..][1..] == a[i + 1..] && b[i..][1..] == b[i + 1..] && schema[i..][1..] == schema[i + 1..];
      if res != 0 { return res; }
    }
    return 0;
  }

  function BigEndian(bytes: seq<int>): (r: nat)
    requires forall b <- bytes :: IsByte(b)
    ensures r < Pow256(|bytes|)
  {
    if bytes == [] then 0
    else
      var rest := BigEndian(bytes[1..]);
      assert IsByte(bytes[0]);
      DigitBound(bytes[0], rest, 256, Pow256(|bytes| - 1));
      bytes[0] * Pow256(|bytes| - 1) + rest
  }

  function Radix(t: ColType): (r: nat)
    ensures r >= 1
  {
    match t
    case TypeInt => 0x1_0000_0000
    case TypeString(len) => Pow256(len)
  }

  function Digit(c: Column, t: ColType): (r: nat)
    requires FitsCol(c, t)
    ensures r < Radix(t)
  {
    match t
    case TypeInt => c.value + 0x8000_0000
    case TypeString(_) => BigEndian(c.bytes)
  }

  /** The number of keys of a schema. */
  function KeySpace(schema: seq<ColType>): (r: nat)
    ensures r >= 1
  {
    if schema == [] then 1
    else
      DigitBound(0, 0, Radix(schema[0]), KeySpace(schema[1..]));
      Radix(schema[0]) * KeySpace(schema[1..])
  }

  function Code(k: Key, schema: seq<ColType>): (r: nat)
    requires Fits(k, schema)
    ensures r < KeySpace(schema)
  {
    if schema == [] then 0
    else
      var rest := Code(k[1..], schema[1..]);
      DigitBound(Digit(k[0], schema[0]), rest, Radix(schema[0]), KeySpace(schema[1..]));
      Digit(k[0], schema[0]) * KeySpace(schema[1..]) + rest
  }

  lemma DigitBound(d: int, rest: int, radix: int, unit: int)
    requires 0 <= d < radix && 0 <= rest < unit
    ensures 0 <= d * unit + rest < radix * unit
  {
    assert (d + 1) * unit <= radix * unit by { assert (radix - d - 1) * unit >= 0; }
  }

  /** A larger leading digit wins whatever follows. */
  lemma DigitDecides(d: int, rest: int, d': int, rest': int, unit: int)
    requires 0 <= rest < unit && 0 <= rest' < unit && d < d'
    ensures d * unit + rest < d' * unit + rest'
  {
    var k := d' - d - 1;
    Product(k, unit);
    assert d' * unit == (d + 1 + k) * unit == d * unit + unit + k * unit;
  }

  lemma {:induction false} BigEndianOrders(a: seq<int>, b: seq<int>)
    requires |a| == |b| && (forall x <- a :: IsByte(x)) && (forall x <- b :: IsByte(x))
    ensures MemCmp(a, b) < 0 <==> BigEndian(a) < BigEndian(b)
    ensures MemCmp(a, b) == 0 <==> a == b
    ensures MemCmp(a, b) == 0 <==> BigEndian(a) == BigEndian(b)
  {
    if a != [] {
      var unit := Pow256(|a| - 1);
      var ra, rb := BigEndian(a[1..]), BigEndian(b[1..]);
      if a[0] < b[0] {
        DigitDecides(a[0], ra, b[0], rb, unit);
      } else if b[0] < a[0] {
        DigitDecides(b[0], rb, a[0], ra, unit);
      } else {
        BigEndianOrders(a[1..], b[1..]);
        assert a == [a[0]] + a[1..] && b == [b[0]] + b[1..];
      }
    }
  }

  lemma DigitOrders(a: Column, b: Column, t: ColType)
    requires FitsCol(a, t) && FitsCol(b, t)
    ensures CompareCol(a, b, t) < 0 <==> Digit(a, t) < Digit(b, t)
    ensures CompareCol(a, b, t) == 0 <==> a == b
    ensures CompareCol(a, b, t) == 0 <==> Digit(a, t) == Digit(b, t)
  {
    if t.TypeString? { BigEndianOrders(a.bytes, b.bytes); }
  }

  /** The code is an order isomorphism: comparison of keys is comparison of codes. */
  lemma {:induction false} CodeOrders(a: Key, b: Key, schema: seq<ColType>)
    requires Fits(a, schema) && Fits(b, schema)
    ensures Compare(a, b, schema) < 0 <==> Code(a, schema) < Code(b, schema)
    ensures Compare(a, b, schema) > 0 <==> Code(a, schema) > Code(b, schema)
    ensures Compare(a, b, schema) == 0 <==> a == b
  {
    if schema != [] {
      var unit := KeySpace(schema[1..]);
      var da, db := Digit(a[0], schema[0]), Digit(b[0], schema[0]);
      var ra, rb := Code(a[1..], schema[1..]), Code(b[1..], schema[1..]);
      DigitOrders(a[0], b[0], schema[0]);
      if da < db {
        DigitDecides(da, ra, db, rb, unit);
      } else if db < da {
        DigitDecides(db, rb, da, ra, unit);
      } else {
        CodeOrders(a[1..], b[1..], schema[1..]);
        assert a == [a[0]] + a[1..] && b == [b[0]] + b[1..];
      }
    }
  }
}
