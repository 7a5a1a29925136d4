/** Fixed-width unsigned integers, their big-endian split, and flattening of lists of byte strings. */
module Bytes {

  type byte = x: int | 0 <= x < 0x100
  type uint16 = x: int | 0 <= x < 0x1_0000
  type uint32 = x: int | 0 <= x < 0x1_0000_0000

  // Shifts and masks of unsigned values are written as division and remainder.
  function Be16(hi: byte, lo: byte): uint16 { hi * 0x100 + lo }

  function High(n: uint16): byte { n / 0x100 }

  function Low(n: uint16): byte { n % 0x100 }

  function Be32(a: byte, b: byte, c: byte, d: byte): uint32 {
    Be16(a, b) * 0x1_0000 + Be16(c, d)
  }

  function Octets32(n: uint32): (o: seq<byte>)
    ensures |o| == 4
  {
    var high: uint16, low: uint16 := n / 0x1_0000, n % 0x1_0000;
    [High(high), Low(high), High(low), Low(low)]
  }

  function Wrap8(n: nat): byte { n % 0x100 }

  function Wrap16(n: nat): uint16 { n % 0x1_0000 }

  function Wrap32(n: nat): uint32 { n % 0x1_0000_0000 }

  function Min(a: nat, b: nat): nat { if a < b then a else b }

  function Zeros(n: nat): (z: seq<byte>)
    ensures |z| == n && forall i :: 0 <= i < n ==> z[i] == 0
  {
    seq(n, _ => 0)
  }

  function Flatten<T>(parts: seq<seq<T>>): seq<T> {
    if parts == [] then [] else parts[0] + Flatten(parts[1..])
  }

  lemma {:induction false} FlattenConcat<T>(a: seq<seq<T>>, b: seq<seq<T>>)
    ensures Flatten(a + b) == Flatten(a) + Flatten(b)
  {
    if a == [] {
      assert a + b == b;
    } else {
      assert (a + b)[1..] == a[1..] + b;
      FlattenConcat(a[1..], b);
    }
  }

  lemma Appended<T>(s: seq<T>, a: seq<T>, b: seq<T>)
    ensures s + a + b == s + (a + b)
  {
  }

  lemma AppendedFirst<T>(s: seq<T>, more: seq<T>)
    requires more != []
    ensures s + [more[0]] + more[1..] == s + more
  {
    assert [more[0]] + more[1..] == more;
    Appended(s, [more[0]], more[1..]);
  }

  lemma FlattenOne<T>(a: seq<T>)
    ensures Flatten([a]) == a
  {
    assert [a][1..] == [];
  }

  // Both directions of the big-endian splits used on the wire.
  lemma Halves(n: uint16, a: byte, b: byte)
    ensures Be16(High(n), Low(n)) == n
    ensures High(Be16(a, b)) == a && Low(Be16(a, b)) == b
  {
  }

  lemma HalvesOf(n: uint16, a: byte, b: byte)
    requires n == Be16(a, b)
    ensures High(n) == a && Low(n) == b
  {
    Halves(0, a, b);
  }

  lemma Octets32Decoded(n: uint32)
    ensures var o := Octets32(n); Be32(o[0], o[1], o[2], o[3]) == n
  {
    Halves(n / 0x1_0000, 0, 0);
    Halves(n % 0x1_0000, 0, 0);
  }

  lemma Joined(high: uint16, low: uint16)
    ensures (high * 0x1_0000 + low) / 0x1_0000 == high && (high * 0x1_0000 + low) % 0x1_0000 == low
  {
  }

  lemma Octets32OfHalves(n: uint32, high: uint16, low: uint16)
    requires n == high * 0x1_0000 + low
    ensures Octets32(n) == [High(high), Low(high), High(low), Low(low)]
  {
    Joined(high, low);
  }

  lemma Octets32Encoded(n: uint32, a: byte, b: byte, c: byte, d: byte)
    requires n == Be32(a, b, c, d)
    ensures Octets32(n) == [a, b, c, d]
  {
    var high, low := Be16(a, b), Be16(c, d);
    Octets32OfHalves(n, high, low);
    Halves(0, a, b);
    Halves(0, c, d);
  }
}
