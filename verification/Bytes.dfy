/** Bytes, and the fixed-width integers the wire formats spell out in them. */
module Bytes {

  type u8 = bv8

  function Val(b: u8): (n: nat)
    ensures n < 256
  {
    b as nat
  }

  /** The byte of value `n`, found by counting: the solver need not relate integers and bit vectors. */
  function ByteOf(n: nat): (b: u8)
    requires n < 256
    ensures Val(b) == n
  {
    if n == 0 then 0 else ByteOf(n - 1) + 1
  }

  /** The low `k` bytes of `n`, least significant first. */
  function LittleEndian(n: nat, k: nat): (s: seq<u8>)
    ensures |s| == k
  {
    if k == 0 then [] else [ByteOf(n % 256)] + LittleEndian(n / 256, k - 1)
  }

  function FromLittleEndian(s: seq<u8>): nat {
    if s == [] then 0 else Val(s[0]) + 256 * FromLittleEndian(s[1..])
  }

  /** The low `k` bytes of `n`, most significant first. */
  function BigEndian(n: nat, k: nat): (s: seq<u8>)
    ensures |s| == k
  {
    if k == 0 then [] else BigEndian(n / 256, k - 1) + [ByteOf(n % 256)]
  }

  function FromBigEndian(s: seq<u8>): nat {
    if s == [] then 0 else 256 * FromBigEndian(s[..|s| - 1]) + Val(s[|s| - 1])
  }

  function Power256(k: nat): (p: nat)
    ensures p > 0
  {
    if k == 0 then 1 else 256 * Power256(k - 1)
  }

  lemma {:induction false} LittleEndianRoundTrip(n: nat, k: nat)
    requires n < Power256(k)
    ensures FromLittleEndian(LittleEndian(n, k)) == n
  {
    if k > 0 {
      LittleEndianRoundTrip(n / 256, k - 1);
      assert LittleEndian(n, k)[1..] == LittleEndian(n / 256, k - 1);
    }
  }

  lemma {:induction false} BigEndianRoundTrip(n: nat, k: nat)
    requires n < Power256(k)
    ensures FromBigEndian(BigEndian(n, k)) == n
  {
    if k > 0 {
      BigEndianRoundTrip(n / 256, k - 1);
      assert BigEndian(n, k)[..k - 1] == BigEndian(n / 256, k - 1);
    }
  }

  lemma Powers()
    ensures Power256(2) == 0x1_0000
    ensures Power256(4) == 0x1_0000_0000
  {
    assert Power256(1) == 256;
    assert Power256(3) == 256 * Power256(2);
  }

  /** `n` without its low `k` bytes. */
  function Shifted(n: nat, k: nat): nat { if k == 0 then n else Shifted(n / 256, k - 1) }

  /** The bytes of a number, the least significant first. */
  lemma {:induction false} LittleEndianAt(n: nat, size: nat, k: nat)
    requires k < size
    ensures Val(LittleEndian(n, size)[k]) == Shifted(n, k) % 256
  {
    if k > 0 {
      LittleEndianAt(n / 256, size - 1, k - 1);
    }
  }

  /** The bytes of a number, the most significant first. */
  lemma {:induction false} BigEndianAt(n: nat, size: nat, k: nat)
    requires k < size
    ensures Val(BigEndian(n, size)[k]) == Shifted(n, size - 1 - k) % 256
    decreases size
  {
    if k < size - 1 {
      BigEndianAt(n / 256, size - 1, k);
    }
  }
}
