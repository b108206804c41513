/**
 The C++ scalar types the program uses, and their little-endian byte order.

 Unsigned integers are mathematical integers within the range of their width; wherever the
 program computes modulo 2^32 or 2^64, or truncates a size, the model writes the `%` out.
 */
module Machine {
  type uint8 = x: int | 0 <= x < 0x100
  type uint16 = x: int | 0 <= x < 0x1_0000
  type uint32 = x: int | 0 <= x < 0x1_0000_0000
  type uint64 = x: int | 0 <= x < 0x1_0000_0000_0000_0000

  type Bytes = seq<uint8>

  const TWO_32 := 0x1_0000_0000
  const TWO_64 := 0x1_0000_0000_0000_0000

  datatype Option<+T> = None | Some(value: T)

  /** The number of values that `width` bytes can hold. */
  function Values(width: nat): (n: nat)
    ensures 1 <= n
  {
    if width == 0 then 1 else 0x100 * Values(width - 1)
  }

  /** The `width` low bytes of `value`, least significant first: a `memcpy` out of an integer. */
  function ToBytes(value: nat, width: nat): (bytes: Bytes)
    ensures |bytes| == width
  {
    if width == 0 then [] else [value % 0x100] + ToBytes(value / 0x100, width - 1)
  }

  /** One step of writing an integer: its low byte, then the rest. */
  lemma NextByte(value: nat, low: uint8, rest: nat, width: nat)
    requires value == low + 0x100 * rest && 1 <= width
    ensures ToBytes(value, width) == [low] + ToBytes(rest, width - 1)
  {}

  /** The integer whose bytes, least significant first, are `bytes`: a `memcpy` into an integer. */
  function FromBytes(bytes: Bytes): (value: nat)
    ensures value < Values(|bytes|)
  {
    if bytes == [] then 0 else bytes[0] + 0x100 * FromBytes(bytes[1..])
  }

  lemma ValuesOfWidths()
    ensures Values(1) == 0x100 && Values(2) == 0x1_0000
    ensures Values(4) == TWO_32 && Values(8) == TWO_64
  {
    assert Values(3) == 0x100 * Values(2);
    assert Values(5) == 0x100 * Values(4);
    assert Values(6) == 0x100 * Values(5);
    assert Values(7) == 0x100 * Values(6);
  }

  /** Byte `i` is the value divided by 256^i, modulo 256: least significant first. */
  lemma {:induction false} ByteAt(value: nat, width: nat, i: nat)
    requires i < width
    ensures ToBytes(value, width)[i] == (value / Values(i)) % 0x100
    decreases width
  {
    if i != 0 {
      ByteAt(value / 0x100, width - 1, i - 1);
      DivideTwice(value, Values(i - 1));
    }
  }

  lemma DivideTwice(value: nat, n: nat)
    requires 1 <= n
    ensures value / (0x100 * n) == (value / 0x100) / n
  {
    var q, m := value / 0x100, 0x100 * n;
    var a := q / n;
    assert value == m * a + (0x100 * (q % n) + value % 0x100) by {
      assert q == n * a + q % n;
    }
    ModuloUnique(value, m, a, 0x100 * (q % n) + value % 0x100);
    assert m * (value / m) == m * a;
    SameFactor(m, value / m, a);
  }

  lemma SameFactor(n: nat, a: int, b: int)
    requires 1 <= n && n * a == n * b
    ensures a == b
  {
    MultipleOfPositive(n, a - b);
    assert n * (a - b) == 0;
  }

  /** Reading back what was written gives the value modulo the width. */
  lemma {:induction false} WriteThenRead(value: nat, width: nat)
    ensures FromBytes(ToBytes(value, width)) == value % Values(width)
  {
    if width != 0 {
      WriteThenRead(value / 0x100, width - 1);
      assert ToBytes(value, width)[1..] == ToBytes(value / 0x100, width - 1);
      ModuloSplit(value, Values(width - 1));
    }
  }

  lemma ModuloSplit(value: nat, n: nat)
    requires 1 <= n
    ensures value % (0x100 * n) == value % 0x100 + 0x100 * ((value / 0x100) % n)
  {
    var q, r := value / 0x100, value % 0x100;
    var a, b := q / n, q % n;
    assert value == (0x100 * n) * a + (0x100 * b + r) by {
      assert q == n * a + b;
    }
    assert 0 <= 0x100 * b + r < 0x100 * n;
    ModuloUnique(value, 0x100 * n, a, 0x100 * b + r);
  }

  lemma ModuloUnique(value: int, n: nat, a: int, r: int)
    requires 1 <= n && value == n * a + r && 0 <= r < n
    ensures value % n == r
  {
    var d, m := value / n, value % n;
    assert n * (a - d) == m - r;
    MultipleOfPositive(n, a - d);
  }

  lemma MultipleOfPositive(n: nat, k: int)
    ensures 1 <= k ==> n <= n * k
    ensures k <= -1 ==> n * k <= 0 - n
  {
    if 1 <= k {
      assert n * k == n + n * (k - 1);
    } else if k <= -1 {
      assert n * k == n * (k + 1) - n;
    }
  }

  /** Writing back what was read gives the bytes. */
  lemma {:induction false} ReadThenWrite(bytes: Bytes)
    ensures ToBytes(FromBytes(bytes), |bytes|) == bytes
  {
    if bytes != [] {
      ReadThenWrite(bytes[1..]);
      var rest := FromBytes(bytes[1..]);
      assert (bytes[0] + 0x100 * rest) % 0x100 == bytes[0];
      assert (bytes[0] + 0x100 * rest) / 0x100 == rest;
      assert [bytes[0]] + bytes[1..] == bytes;
    }
  }
}
