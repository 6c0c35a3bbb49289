/** Octets, 16-bit words in Bluetooth (little-endian) order, and flattening.
    Go's `uint8(v)` and `uint8(v >> 8)` are `Low` and `High`. */
module Bytes {

  type byte = x: int | 0 <= x < 0x100
  type uint16 = x: int | 0 <= x < 0x1_0000
  type bytes = seq<byte>

  datatype Option<+T> = None | Some(value: T)

  function Low(v: nat): byte { v % 0x100 }

  function High(v: nat): byte { (v / 0x100) % 0x100 }

  function Le16(v: nat): (b: bytes)
    ensures |b| == 2
  {
    [Low(v), High(v)]
  }

  function Word(b: bytes): uint16
    requires |b| >= 2
  {
    (b[0] as int) + 0x100 * (b[1] as int)
  }

  lemma WordOfLe16(v: uint16)
    ensures Word(Le16(v)) == v
  {}

  /** Tests one flag; `bit` is a power of two. */
  predicate Has(flags: nat, bit: nat)
    requires bit > 0
  {
    (flags / bit) % 2 == 1
  }

  function Min(a: int, b: int): int { if a <= b then a else b }

  function Flatten<T>(ss: seq<seq<T>>): seq<T>
  {
    if ss == [] then [] else ss[0] + Flatten(ss[1..])
  }

  lemma {:induction false} FlattenConcat<T>(a: seq<seq<T>>, b: seq<seq<T>>)
    ensures Flatten(a + b) == Flatten(a) + Flatten(b)
  {
    if a == [] {
      assert a + b == b;
    } else {
      FlattenConcat(a[1..], b);
      assert (a + b)[0] == a[0] && (a + b)[1..] == a[1..] + b;
      Assoc(a[0], Flatten(a[1..]), Flatten(b));
    }
  }

  lemma FlattenAppend<T>(a: seq<seq<T>>, x: seq<T>)
    ensures Flatten(a + [x]) == Flatten(a) + x
  {
    FlattenConcat(a, [x]);
    assert Flatten([x]) == x + Flatten<T>([]);
  }

  lemma Assoc<T>(a: seq<T>, b: seq<T>, c: seq<T>)
    ensures (a + b) + c == a + (b + c)
  {}
}
