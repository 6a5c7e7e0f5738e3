/** Machine integers and the big-endian byte encoding every wire format here uses. */
module Octets {
  type byte = b: int | 0 <= b < 0x100
  type u16 = n: int | 0 <= n < 0x1_0000
  type u32 = n: int | 0 <= n < 0x1_0000_0000
  type u64 = n: int | 0 <= n < 0x1_0000_0000_0000_0000

  const MAX_U64: u64 := 0xffff_ffff_ffff_ffff

  /** `u64::wrapping_add(1)`. */
  function WrappingSucc(n: u64): (r: u64) {
    if n == MAX_U64 then 0 else n + 1
  }

  /** A counter kept with `wrapping_add(1)` is the number of times it advanced, modulo 2^64. */
  lemma CountsOn(n: nat)
    ensures (n + 1) % 0x1_0000_0000_0000_0000 == WrappingSucc(n % 0x1_0000_0000_0000_0000)
  {
  }

  /** The number of values that fit in `width` bytes. */
  function Capacity(width: nat): (r: nat)
    ensures r > 0
  {
    if width == 0 then 1 else 0x100 * Capacity(width - 1)
  }

  /** `to_be_bytes`: the `width` low-order base-256 digits of `n`, most significant first. */
  function ToBigEndian(n: nat, width: nat): (r: seq<byte>)
    ensures |r| == width
  {
    if width == 0 then [] else ToBigEndian(n / 0x100, width - 1) + [n % 0x100]
  }

  /** `from_be_bytes`. */
  function FromBigEndian(bytes: seq<byte>): (n: nat)
    ensures n < Capacity(|bytes|)
  {
    if bytes == [] then 0
    else 0x100 * FromBigEndian(bytes[..|bytes| - 1]) + bytes[|bytes| - 1]
  }

  lemma {:induction false} DecodeEncode(n: nat, width: nat)
    requires n < Capacity(width)
    ensures FromBigEndian(ToBigEndian(n, width)) == n
  {
    if width > 0 {
      DecodeEncode(n / 0x100, width - 1);
      assert ToBigEndian(n, width)[..width - 1] == ToBigEndian(n / 0x100, width - 1);
    }
  }

  lemma {:induction false} EncodeDecode(bytes: seq<byte>)
    ensures ToBigEndian(FromBigEndian(bytes), |bytes|) == bytes
  {
    if bytes != [] {
      EncodeDecode(bytes[..|bytes| - 1]);
      assert bytes == bytes[..|bytes| - 1] + [bytes[|bytes| - 1]];
    }
  }

  /** Most significant byte first. */
  lemma FourBytes(n: u32)
    ensures ToBigEndian(n, 4) == [n / 0x100 / 0x100 / 0x100 % 0x100, n / 0x100 / 0x100 % 0x100, n / 0x100 % 0x100, n % 0x100]
  {
    var a, b, c := n / 0x100, n / 0x100 / 0x100, n / 0x100 / 0x100 / 0x100;
    assert ToBigEndian(c, 1) == ToBigEndian(c / 0x100, 0) + [c % 0x100] == [c % 0x100];
    assert ToBigEndian(b, 2) == ToBigEndian(c, 1) + [b % 0x100];
    assert ToBigEndian(a, 3) == ToBigEndian(b, 2) + [a % 0x100];
    assert ToBigEndian(n, 4) == ToBigEndian(a, 3) + [n % 0x100];
  }

  lemma Capacities()
    ensures Capacity(1) == 0x100
    ensures Capacity(2) == 0x1_0000
    ensures Capacity(4) == 0x1_0000_0000
    ensures Capacity(8) == 0x1_0000_0000_0000_0000
  {
    assert Capacity(2) == 0x100 * Capacity(1);
    assert Capacity(3) == 0x100 * Capacity(2);
    assert Capacity(4) == 0x100 * Capacity(3);
    assert Capacity(5) == 0x100 * Capacity(4);
    assert Capacity(6) == 0x100 * Capacity(5);
    assert Capacity(7) == 0x100 * Capacity(6);
    assert Capacity(8) == 0x100 * Capacity(7);
  }
}
