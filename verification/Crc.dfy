/** CRC-32 as the PNG chunk writer computes it, and the polynomial division that defines it.

    `Step`, `Steps` and `Register` are the register of the bitwise loop.  `Remainder` is schoolbook long
    division over GF(2), and knows nothing of registers: a polynomial is the sequence of its coefficients,
    highest degree first. */
module Crc {

  import opened Bytes

  type u32 = bv32

  const POLYNOMIAL: u32 := 0xEDB8_8320

  function Half(x: u32): u32 { x >> 1 }

  predicate Low(x: u32) { x & 1 == 1 }

  function Xor(x: u32, y: u32): u32 { x ^ y }

  /** One pass of the inner loop. */
  function Step(crc: u32): u32 {
    Xor(Half(crc), if Low(crc) then POLYNOMIAL else 0)
  }

  function Steps(n: nat, crc: u32): u32
    decreases n
  {
    if n == 0 then crc else Step(Steps(n - 1, crc))
  }

  /** The register after one byte. */
  function Absorb(crc: u32, byte: u8): u32 {
    Steps(8, Xor(crc, byte as u32))
  }

  /** The register after the bytes of `data`. */
  function Register(crc: u32, data: seq<u8>): u32
    decreases |data|
  {
    if data == [] then crc else Register(Absorb(crc, data[0]), data[1..])
  }

  function Checksum(data: seq<u8>): u32 {
    !Register(0xFFFF_FFFF, data)
  }

  lemma LoopStep(crc: u32)
    ensures (crc >> 1) ^ (if crc & 1 != 0 then POLYNOMIAL else 0) == Step(crc)
  {
    assert crc & 1 == 0 || crc & 1 == 1;
  }

  method Crc32(data: seq<u8>) returns (result: u32)
    ensures result == Checksum(data)
  {
    hide Step;
    var crc: u32 := 0xFFFF_FFFF;
    for i := 0 to |data|
      invariant Register(0xFFFF_FFFF, data) == Register(crc, data[i..])
    {
      ghost var start := Xor(crc, data[i] as u32);
      crc := crc ^ data[i] as u32;
      for k := 0 to 8
        invariant crc == Steps(k, start)
      {
        LoopStep(crc);
        var mask: u32 := if crc & 1 != 0 then POLYNOMIAL else 0;
        crc := (crc >> 1) ^ mask;
      }
      assert data[i..][1..] == data[i + 1..];
    }
    return !crc;
  }

  // ----- The register loop is polynomial division -----

  type Polynomial = seq<bool>

  /** The exponents below 32 of the generator of RFC 2083, section 3.4. */
  const GENERATOR_EXPONENTS: set<int> := {26, 23, 22, 16, 12, 11, 10, 8, 7, 5, 4, 2, 1, 0}

  /** The generator without its leading x^32. */
  function Generator(): (g: Polynomial)
    ensures |g| == 32
  {
    seq(32, i => 31 - i in GENERATOR_EXPONENTS)
  }

  function Repeat(b: bool, n: nat): (p: Polynomial)
    ensures |p| == n
  {
    seq(n, i => b)
  }

  /** `p` with `q` added to its leading coefficients. */
  function AddLeading(p: Polynomial, q: Polynomial): (r: Polynomial)
    requires |q| <= |p|
    ensures |r| == |p|
    ensures forall i :: 0 <= i < |p| ==> r[i] == if i < |q| then p[i] != q[i] else p[i]
  {
    seq(|p|, i requires 0 <= i < |p| => if i < |q| then p[i] != q[i] else p[i])
  }

  /** The remainder of schoolbook long division by the generator. */
  function Remainder(p: Polynomial): (r: Polynomial)
    ensures |p| >= 32 ==> |r| == 32
    decreases |p|
  {
    if |p| <= 32 then p else Remainder(Reduce(p))
  }

  /** One row of the division: clear the leading coefficient. */
  function Reduce(p: Polynomial): (next: Polynomial)
    requires |p| > 32
    ensures |next| == |p| - 1
  {
    if p[0] then AddLeading(p[1..], Generator()) else p[1..]
  }

  function Quotient(p: Polynomial): (q: Polynomial)
    ensures |p| >= 32 ==> |q| == |p| - 32
    decreases |p|
  {
    if |p| <= 32 then [] else [p[0]] + Quotient(Reduce(p))
  }

  /** `q` times the generator, one shifted copy for each non-zero coefficient of `q`. */
  function TimesGenerator(q: Polynomial): (p: Polynomial)
    ensures |p| == |q| + 32
  {
    if q == [] then Repeat(false, 32) else
    var rest := TimesGenerator(q[1..]);
    [q[0]] + if q[0] then AddLeading(rest, Generator()) else rest
  }

  /** `r` as a polynomial of `n` more coefficients. */
  function Widen(n: nat, r: Polynomial): (p: Polynomial)
    ensures |p| == n + |r|
  {
    Repeat(false, n) + r
  }

  lemma DivisionStep(p: Polynomial, multiple: Polynomial, rest: Polynomial)
    requires |p| > 32
    requires |multiple| == |rest| && Reduce(p) == AddLeading(multiple, rest)
    ensures p == AddLeading([p[0]] + (if p[0] then AddLeading(multiple, Generator()) else multiple), [false] + rest)
  {
    var sum := AddLeading([p[0]] + (if p[0] then AddLeading(multiple, Generator()) else multiple), [false] + rest);
    forall i | 0 < i < |p|
      ensures p[i] == sum[i]
    {
      assert Reduce(p)[i - 1] == (multiple[i - 1] != rest[i - 1]);
    }
  }

  lemma WidenStep(n: nat, r: Polynomial)
    ensures Widen(n + 1, r) == [false] + Widen(n, r)
  {}

  lemma WidenZero(r: Polynomial)
    requires |r| == 32
    ensures r == AddLeading(TimesGenerator([]), Widen(0, r))
  {}

  /** Long division is division: p = q * g + r. */
  lemma {:induction false} DivisionIdentity(p: Polynomial)
    requires |p| >= 32
    ensures p == AddLeading(TimesGenerator(Quotient(p)), Widen(|p| - 32, Remainder(p)))
    decreases |p|
  {
    hide Reduce, AddLeading, Generator, Widen, Repeat;
    if |p| == 32 {
      WidenZero(Remainder(p));
    } else {
      var next := Reduce(p);
      DivisionIdentity(next);
      DivisionStep(p, TimesGenerator(Quotient(next)), Widen(|next| - 32, Remainder(next)));
      assert Quotient(p)[1..] == Quotient(next);
      WidenStep(|next| - 32, Remainder(next));
    }
  }

  /** The low `n` bits of `x`, least significant first. */
  function Bits(x: u32, n: nat): (s: seq<bool>)
    ensures |s| == n
    decreases n
  {
    if n == 0 then [] else [Low(x)] + Bits(Half(x), n - 1)
  }

  /** The message as a polynomial: each byte contributes its bits least significant first. */
  function MessageBits(data: seq<u8>): (s: seq<bool>)
    ensures |s| == 8 * |data|
  {
    if data == [] then [] else Bits(data[0] as u32, 8) + MessageBits(data[1..])
  }

  lemma XorShift(a: u32, b: u32)
    ensures Half(Xor(a, b)) == Xor(Half(a), Half(b))
    ensures Low(Xor(a, b)) == (Low(a) != Low(b))
  {}

  lemma {:induction false} BitsXor(a: u32, b: u32, n: nat)
    ensures Bits(Xor(a, b), n) == AddLeading(Bits(a, n), Bits(b, n))
    decreases n
  {
    hide Half, Low, Xor;
    if n > 0 {
      XorShift(a, b);
      BitsXor(Half(a), Half(b), n - 1);
    }
  }

  lemma {:induction false} BitsSplit(x: u32, m: nat, n: nat)
    ensures Bits(x, m + n) == Bits(x, m) + Bits(Halves(x, m), n)
    decreases m
  {
    hide Half, Low;
    if m > 0 {
      BitsSplit(Half(x), m - 1, n);
    }
  }

  function Halves(x: u32, n: nat): u32
    decreases n
  {
    if n == 0 then x else Halves(Half(x), n - 1)
  }

  /** The register shifted to the right is the remainder shifted one place up. */
  lemma BitsHalf(x: u32)
    ensures Bits(Half(x), 32) == Bits(x, 32)[1..] + [false]
  {
    hide Half, Low;
    BitsSplit(Half(x), 31, 1);
    TopBitClear(x);
  }

  lemma {:induction false} HalvesAdd(x: u32, m: nat, n: nat)
    ensures Halves(x, m + n) == Halves(Halves(x, m), n)
    decreases m
  {
    hide Half;
    if m > 0 {
      HalvesAdd(Half(x), m - 1, n);
    }
  }

  lemma HalvesByte(x: u32)
    ensures Halves(x, 8) == x >> 8
  {
    hide Halves;
    var y := x >> 4;
    var z := y >> 4;
    HalvesNibble(x);
    HalvesNibble(y);
    HalvesTwice(x, y, z);
    ShiftByte(x);
  }

  lemma HalvesTwice(x: u32, y: u32, z: u32)
    requires Halves(x, 4) == y && Halves(y, 4) == z
    ensures Halves(x, 8) == z
  {
    hide Halves;
    HalvesAdd(x, 4, 4);
  }

  lemma ShiftByte(x: u32)
    ensures (x >> 4) >> 4 == x >> 8
  {}

  lemma HalvesNibble(x: u32)
    ensures Halves(x, 4) == x >> 4
  {
    hide Half;
    ShiftNibble(x);
    assert Halves(x, 4) == Halves(Half(x), 3) == Halves(x >> 2, 2) == Halves(x >> 3, 1);
  }

  lemma ShiftNibble(x: u32)
    ensures Half(x) == x >> 1 && Half(x >> 1) == x >> 2 && Half(x >> 2) == x >> 3 && Half(x >> 3) == x >> 4
  {}

  lemma TopBitClear(x: u32)
    ensures !Low(Halves(Half(x), 31))
  {
    HalvesAdd(x, 8, 24);
    HalvesAdd(x >> 8, 8, 16);
    HalvesAdd(x >> 16, 8, 8);
    HalvesByte(x);
    HalvesByte(x >> 8);
    HalvesByte(x >> 16);
    HalvesByte(x >> 24);
    assert Halves(x, 32) == 0;
  }

  lemma BitsByte(x: u32)
    ensures Bits(x, 8) == NibbleBits(x) + NibbleBits(x >> 4)
  {
    hide Bits, Halves, NibbleBits;
    BitsSplit(x, 4, 4);
    BitsNibble(x);
    BitsNibble(x >> 4);
    HalvesNibble(x);
  }

  function NibbleBits(x: u32): seq<bool> {
    [x & 1 == 1, x & 2 == 2, x & 4 == 4, x & 8 == 8]
  }

  lemma BitsNibble(x: u32)
    ensures Bits(x, 4) == NibbleBits(x)
  {
    hide Half, Low, NibbleBits;
    ShiftNibble(x);
    LowNibble(x);
    assert Bits(x, 4) == [Low(x)] + Bits(x >> 1, 3);
    assert Bits(x >> 1, 3) == [Low(x >> 1)] + Bits(x >> 2, 2);
    assert Bits(x >> 2, 2) == [Low(x >> 2)] + Bits(x >> 3, 1);
    assert Bits(x >> 3, 1) == [Low(x >> 3)];
  }

  lemma LowNibble(x: u32)
    ensures NibbleBits(x) == [Low(x), Low(x >> 1), Low(x >> 2), Low(x >> 3)]
  {}

  lemma GeneratorBits()
    ensures Bits(POLYNOMIAL, 32) == Generator()
  {
    hide Bits, Halves;
    BitsSplit(POLYNOMIAL, 8, 24);
    HalvesByte(POLYNOMIAL);
    BitsSplit(0xED_B883, 8, 16);
    HalvesByte(0xED_B883);
    BitsSplit(0xEDB8, 8, 8);
    HalvesByte(0xEDB8);
    BitsByte(POLYNOMIAL);
    BitsByte(0xED_B883);
    BitsByte(0xEDB8);
    BitsByte(0xED);
  }

  /** One row of the division, on a register written out as coefficients. */
  function Row(register: Polynomial, b: bool): (next: Polynomial)
    requires |register| == 32
    ensures |next| == 32
  {
    AddLeading(register[1..] + [false], if register[0] != b then Generator() else Repeat(false, 32))
  }

  lemma RowReduces(register: Polynomial, rest: Polynomial, b: bool)
    requires |register| == 32 && |rest| >= 32
    ensures Reduce(AddLeading([b] + rest, register)) == AddLeading(rest, Row(register, b))
  {
    hide Generator;
    var p := AddLeading([b] + rest, register);
    assert p[0] == (register[0] != b);
    assert p[1..] == AddLeading(rest, register[1..]);
  }

  lemma StepIsRow(crc: u32, b: bool)
    ensures Bits(Step(Xor(crc, if b then 1 else 0)), 32) == Row(Bits(crc, 32), b)
  {
    hide Half, Low, Xor, Bits, Generator, AddLeading, Repeat;
    var mixed := Xor(crc, if b then 1 else 0);
    MixBit(crc, b);
    BitsHalf(mixed);
    GeneratorBits();
    BitsXor(Half(mixed), if Low(mixed) then POLYNOMIAL else 0, 32);
    ZeroBits();
  }

  lemma ZeroBits()
    ensures Bits(0, 32) == Repeat(false, 32)
  {
    hide Bits, Halves;
    BitsSplit(0, 8, 24);
    HalvesByte(0);
    BitsSplit(0, 8, 16);
    BitsSplit(0, 8, 8);
    BitsByte(0);
  }

  lemma MixBit(crc: u32, b: bool)
    ensures Bits(Xor(crc, if b then 1 else 0), 32) == [Bits(crc, 32)[0] != b] + Bits(crc, 32)[1..]
    ensures Low(Xor(crc, if b then 1 else 0)) == (Bits(crc, 32)[0] != b)
  {
  }

  /** The message polynomial times x^32. */
  function Padded(bits: seq<bool>): (p: Polynomial)
    ensures |p| == |bits| + 32
  {
    bits + Repeat(false, 32)
  }

  /** The register fed one message bit at a time. */
  function FeedBits(crc: u32, bits: seq<bool>): u32
    decreases |bits|
  {
    if bits == [] then crc else FeedBits(Step(Xor(crc, if bits[0] then 1 else 0)), bits[1..])
  }

  lemma PaddedFirst(bits: seq<bool>)
    requires bits != []
    ensures Padded(bits) == [bits[0]] + Padded(bits[1..])
  {}

  lemma NothingLeft(register: Polynomial)
    requires |register| == 32
    ensures Remainder(AddLeading(Padded([]), register)) == register
  {
    assert AddLeading(Padded([]), register) == register;
  }

  lemma RemainderStep(p: Polynomial)
    requires |p| > 32
    ensures Remainder(p) == Remainder(Reduce(p))
  {}

  lemma {:induction false} FeedIsDivision(crc: u32, bits: seq<bool>)
    ensures Bits(FeedBits(crc, bits), 32) == Remainder(AddLeading(Padded(bits), Bits(crc, 32)))
    decreases |bits|
  {
    hide Step, Xor, Bits, Reduce, Row, AddLeading, Padded, Remainder;
    if bits == [] {
      NothingLeft(Bits(crc, 32));
    } else {
      var next := Step(Xor(crc, if bits[0] then 1 else 0));
      RowReduces(Bits(crc, 32), Padded(bits[1..]), bits[0]);
      StepIsRow(crc, bits[0]);
      FeedIsDivision(next, bits[1..]);
      PaddedFirst(bits);
      RemainderStep(AddLeading(Padded(bits), Bits(crc, 32)));
    }
  }

  lemma {:induction false} StepsCommute(n: nat, crc: u32)
    ensures Steps(n, Step(crc)) == Step(Steps(n, crc))
    decreases n
  {
    hide Step;
    if n > 0 {
      StepsCommute(n - 1, crc);
    }
  }

  lemma StepMixed(crc: u32, w: u32)
    ensures Step(Xor(crc, w)) == Xor(Step(Xor(crc, if Low(w) then 1 else 0)), Half(w))
  {
    hide Half, Low, Xor;
    var one: u32 := if Low(w) then 1 else 0;
    XorShift(crc, w);
    XorShift(crc, one);
    OneBit();
    XorZero(Half(crc));
    XorSwap(Half(crc), Half(w), if Low(Xor(crc, w)) then POLYNOMIAL else 0);
  }

  lemma OneBit()
    ensures Half(1) == Half(0) == 0 && Low(1) && !Low(0)
  {}

  lemma XorSwap(a: u32, b: u32, c: u32)
    ensures Xor(Xor(a, b), c) == Xor(Xor(a, c), b)
  {
    XorAssoc(a, b, c);
    XorAssoc(a, c, b);
    hide Xor;
    assert Xor(b, c) == Xor(c, b) by { XorCommutes(b, c); }
  }

  lemma XorCommutes(a: u32, b: u32)
    ensures Xor(a, b) == Xor(b, a)
  {}

  lemma {:induction false} FeedWord(crc: u32, w: u32, n: nat)
    requires Halves(w, n) == 0
    ensures FeedBits(crc, Bits(w, n)) == Steps(n, Xor(crc, w))
    decreases n
  {
    hide Step, Half, Low, Xor;
    if n == 0 {
      XorZero(crc);
    } else {
      FeedWord(Step(Xor(crc, if Low(w) then 1 else 0)), Half(w), n - 1);
      StepMixed(crc, w);
      StepsCommute(n - 1, Xor(crc, w));
    }
  }

  lemma XorZero(crc: u32)
    ensures Xor(crc, 0) == crc
  {}

  lemma {:induction false} FeedAppend(crc: u32, a: seq<bool>, b: seq<bool>)
    ensures FeedBits(crc, a + b) == FeedBits(FeedBits(crc, a), b)
    decreases |a|
  {
    hide Step, Xor;
    if a == [] {
      assert a + b == b;
    } else {
      FeedAppend(Step(Xor(crc, if a[0] then 1 else 0)), a[1..], b);
      assert (a + b)[1..] == a[1..] + b;
    }
  }

  lemma {:induction false} RegisterFeedsBits(crc: u32, data: seq<u8>)
    ensures Register(crc, data) == FeedBits(crc, MessageBits(data))
    decreases |data|
  {
    hide Step, Xor, Bits, Halves;
    if data != [] {
      var w := data[0] as u32;
      ByteFits(data[0]);
      FeedWord(crc, w, 8);
      FeedAppend(crc, Bits(w, 8), MessageBits(data[1..]));
      RegisterFeedsBits(Absorb(crc, data[0]), data[1..]);
    }
  }

  lemma ByteFits(b: u8)
    ensures Halves(b as u32, 8) == 0
  {
    HalvesByte(b as u32);
  }

  lemma AllOnes(crc: u32)
    ensures Bits(0xFFFF_FFFF, 32) == Repeat(true, 32)
    ensures !crc == Xor(crc, 0xFFFF_FFFF)
  {
    hide Bits, Halves;
    BitsSplit(0xFFFF_FFFF, 8, 24);
    HalvesByte(0xFFFF_FFFF);
    BitsSplit(0xFF_FFFF, 8, 16);
    HalvesByte(0xFF_FFFF);
    BitsSplit(0xFFFF, 8, 8);
    HalvesByte(0xFFFF);
    BitsByte(0xFFFF_FFFF);
    BitsByte(0xFF_FFFF);
    BitsByte(0xFFFF);
    BitsByte(0xFF);
  }

  lemma ChecksumXor(data: seq<u8>)
    ensures Checksum(data) == Xor(Register(0xFFFF_FFFF, data), 0xFFFF_FFFF)
  {
    AllOnes(Register(0xFFFF_FFFF, data));
  }

  /** RFC 2083, section 3.4: invert the first 32 coefficients of the padded message, divide by the
      generator, and invert the remainder. */
  lemma ChecksumIsRemainder(data: seq<u8>)
    ensures Bits(Checksum(data), 32)
         == AddLeading(Remainder(AddLeading(Padded(MessageBits(data)), Repeat(true, 32))), Repeat(true, 32))
  {
    hide Xor, Bits, Register, FeedBits, Remainder, AddLeading, Padded, MessageBits, Repeat, Checksum;
    ChecksumXor(data);
    var register := Register(0xFFFF_FFFF, data);
    RegisterFeedsBits(0xFFFF_FFFF, data);
    FeedIsDivision(0xFFFF_FFFF, MessageBits(data));
    AllOnes(register);
    BitsXor(register, 0xFFFF_FFFF, 32);
  }

  // ----- Short bursts are always detected -----

  /** Each bit step is linear over GF(2). */
  lemma StepLinear(a: u32, b: u32)
    ensures Step(Xor(a, b)) == Xor(Step(a), Step(b))
  {
    hide Half, Low, Xor;
    XorShift(a, b);
    XorMiddle(Half(a), Half(b), if Low(a) then POLYNOMIAL else 0, if Low(b) then POLYNOMIAL else 0);
    XorItself(POLYNOMIAL);
  }

  lemma XorMiddle(a: u32, b: u32, c: u32, d: u32)
    ensures Xor(Xor(a, b), Xor(c, d)) == Xor(Xor(a, c), Xor(b, d))
  {
    hide Xor;
    XorAssoc(Xor(a, b), c, d);
    XorSwap(a, b, c);
    XorAssoc(Xor(a, c), b, d);
  }

  lemma XorItself(x: u32)
    ensures Xor(x, x) == 0 && Xor(x, 0) == x && Xor(0, x) == x && Xor(0, 0) == 0
  {}

  /** So is any number of steps: the register of a difference is the difference of the registers. */
  lemma {:induction false} StepsLinear(n: nat, a: u32, b: u32)
    ensures Steps(n, Xor(a, b)) == Xor(Steps(n, a), Steps(n, b))
    decreases n
  {
    hide Step, Xor;
    if n > 0 {
      StepsLinear(n - 1, a, b);
      StepLinear(Steps(n - 1, a), Steps(n - 1, b));
    }
  }

  lemma StepInjective(a: u32, b: u32)
    requires Step(a) == Step(b)
    ensures a == b
  {}

  lemma {:induction false} StepsInjective(n: nat, a: u32, b: u32)
    requires Steps(n, a) == Steps(n, b)
    ensures a == b
    decreases n
  {
    hide Step;
    if n > 0 {
      StepInjective(Steps(n - 1, a), Steps(n - 1, b));
      StepsInjective(n - 1, a, b);
    }
  }

  /** Every 32-bit state is reached: with `StepInjective`, each bit step is a bijection. */
  lemma StepSurjective(y: u32) returns (x: u32)
    ensures Step(x) == y
  {
    x := if y & 0x8000_0000 != 0 then ((y ^ POLYNOMIAL) << 1) | 1 else y << 1;
  }

  lemma {:induction false} RegisterInjective(a: u32, b: u32, data: seq<u8>)
    requires Register(a, data) == Register(b, data)
    ensures a == b
    decreases |data|
  {
    hide Steps, Xor;
    if data != [] {
      RegisterInjective(Absorb(a, data[0]), Absorb(b, data[0]), data[1..]);
      StepsInjective(8, Xor(a, data[0] as u32), Xor(b, data[0] as u32));
      XorCancel(a, b, data[0] as u32);
    }
  }

  lemma XorCancel(a: u32, b: u32, w: u32)
    ensures Xor(a, w) == Xor(b, w) <==> a == b
    ensures Xor(w, a) == Xor(w, b) <==> a == b
  {}

  lemma {:induction false} RegisterAppend(crc: u32, x: seq<u8>, y: seq<u8>)
    ensures Register(crc, x + y) == Register(Register(crc, x), y)
    decreases |x|
  {
    hide Absorb;
    if x == [] {
      assert x + y == y;
    } else {
      RegisterAppend(Absorb(crc, x[0]), x[1..], y);
      assert (x + y)[1..] == x[1..] + y;
    }
  }

  /** Up to four bytes as one word, first byte least significant. */
  function Word(bytes: seq<u8>): u32
    decreases |bytes|
  {
    if bytes == [] then 0 else Join(bytes[0], Word(bytes[1..]))
  }

  function Join(b: u8, w: u32): u32 { Xor(b as u32, w << 8) }

  /** `w` doubled `n` times, without losing a bit. */
  predicate Doubles(w: u32, n: nat, d: u32)
    decreases n
  {
    if n == 0 then d == w else w <= 0x7FFF_FFFF && Doubles(w << 1, n - 1, d)
  }

  lemma StepDoubled(crc: u32, w: u32)
    requires w <= 0x7FFF_FFFF
    ensures Step(Xor(crc, w << 1)) == Xor(Step(crc), w)
  {
    StepMixed(crc, w << 1);
    assert Half(w << 1) == w && !Low(w << 1);
    XorZero(crc);
  }

  lemma {:induction false} StepsDoubled(n: nat, crc: u32, w: u32, d: u32)
    requires Doubles(w, n, d)
    ensures Steps(n, Xor(crc, d)) == Xor(Steps(n, crc), w)
    decreases n
  {
    hide Step, Xor;
    if n > 0 {
      StepsDoubled(n - 1, crc, w << 1, d);
      StepDoubled(Steps(n - 1, crc), w);
    }
  }

  lemma DoubledByte(w: u32)
    requires w <= 0xFF_FFFF
    ensures Doubles(w, 8, w << 8)
  {
    assert Doubles(w << 4, 4, w << 8);
  }

  lemma {:induction false} StepsAdd(m: nat, n: nat, crc: u32)
    ensures Steps(m, Steps(n, crc)) == Steps(m + n, crc)
    decreases m
  {
    hide Step;
    if m > 0 {
      StepsAdd(m - 1, n, crc);
    }
  }

  lemma WordStep(b: u8, w: u32, rest: nat)
    requires rest <= 3 && Fits(w, rest)
    ensures w <= 0xFF_FFFF
    ensures Fits(Join(b, w), rest + 1)
  {
    assert b as u32 <= 0xFF;
  }

  lemma XorAssoc(a: u32, b: u32, c: u32)
    ensures Xor(Xor(a, b), c) == Xor(a, Xor(b, c))
  {}

  predicate Fits(w: u32, bytes: nat) {
    match bytes
    case 0 => w == 0
    case 1 => w <= 0xFF
    case 2 => w <= 0xFFFF
    case 3 => w <= 0xFF_FFFF
    case _ => true
  }

  lemma AbsorbJoin(crc: u32, b: u8, w: u32)
    requires w <= 0xFF_FFFF
    ensures Xor(Absorb(crc, b), w) == Steps(8, Xor(crc, Join(b, w)))
  {
    hide Xor, Step, Doubles;
    DoubledByte(w);
    StepsDoubled(8, Xor(crc, b as u32), w, w << 8);
    XorAssoc(crc, b as u32, w << 8);
  }

  /** Absorbing at most four bytes is absorbing their word. */
  lemma {:induction false} RegisterWord(crc: u32, bytes: seq<u8>)
    requires |bytes| <= 4
    ensures Register(crc, bytes) == Steps(8 * |bytes|, Xor(crc, Word(bytes)))
    ensures Fits(Word(bytes), |bytes|)
    decreases |bytes|
  {
    hide Xor, Step, Absorb, Join;
    if bytes == [] {
      XorZero(crc);
    } else {
      var w := Word(bytes[1..]);
      RegisterWord(Absorb(crc, bytes[0]), bytes[1..]);
      WordStep(bytes[0], w, |bytes| - 1);
      AbsorbJoin(crc, bytes[0], w);
      StepsAdd(8 * |bytes[1..]|, 8, Xor(crc, Word(bytes)));
    }
  }

  lemma WordHead(b: u8, c: u8, v: u32, w: u32)
    requires v <= 0xFF_FFFF && w <= 0xFF_FFFF
    requires Join(b, v) == Join(c, w)
    ensures b == c && v == w
  {}

  lemma {:induction false} WordInjective(x: seq<u8>, y: seq<u8>)
    requires |x| == |y| <= 4 && Word(x) == Word(y)
    ensures x == y
    decreases |x|
  {
    hide Join, Fits, Register, Steps;
    if x == [] {
      assert y == [];
    } else {
      RegisterWord(0, x[1..]);
      RegisterWord(0, y[1..]);
      WordStep(x[0], Word(x[1..]), |x| - 1);
      WordStep(y[0], Word(y[1..]), |x| - 1);
      WordHead(x[0], y[0], Word(x[1..]), Word(y[1..]));
      WordInjective(x[1..], y[1..]);
      assert x == [x[0]] + x[1..] && y == [y[0]] + y[1..];
    }
  }

  /** Damage confined to four consecutive bytes never goes unnoticed. */
  lemma BurstDetected(prefix: seq<u8>, x: seq<u8>, y: seq<u8>, suffix: seq<u8>)
    requires |x| == |y| <= 4
    ensures Checksum(prefix + x + suffix) == Checksum(prefix + y + suffix) <==> x == y
  {
    hide Xor, Register, Steps, Word;
    if Checksum(prefix + x + suffix) == Checksum(prefix + y + suffix) {
      var crc := Register(0xFFFF_FFFF, prefix);
      RegisterAppend(0xFFFF_FFFF, prefix + x, suffix);
      RegisterAppend(0xFFFF_FFFF, prefix + y, suffix);
      RegisterAppend(0xFFFF_FFFF, prefix, x);
      RegisterAppend(0xFFFF_FFFF, prefix, y);
      RegisterInjective(Register(crc, x), Register(crc, y), suffix);
      RegisterWord(crc, x);
      RegisterWord(crc, y);
      StepsInjective(8 * |x|, Xor(crc, Word(x)), Xor(crc, Word(y)));
      XorCancel(Word(x), Word(y), crc);
      WordInjective(x, y);
    }
  }

  // ----- A check value -----

  lemma LetterI()
    ensures Absorb(0xFFFF_FFFF, 0x49) == 0x22FD_E946
  {
    assert Xor(0xFFFF_FFFF, (0x49 as u8) as u32) == 0xFFFF_FFB6;
    assert Steps(1, 0xFFFF_FFB6) == 0x7FFF_FFDB;
    assert Steps(2, 0xFFFF_FFB6) == 0xD247_7CCD;
    assert Steps(3, 0xFFFF_FFB6) == 0x849B_3D46;
    assert Steps(4, 0xFFFF_FFB6) == 0x424D_9EA3;
    assert Steps(5, 0xFFFF_FFB6) == 0xCC9E_4C71;
    assert Steps(6, 0xFFFF_FFB6) == 0x8BF7_A518;
    assert Steps(7, 0xFFFF_FFB6) == 0x45FB_D28C;
    assert Steps(8, 0xFFFF_FFB6) == 0x22FD_E946;
  }

  lemma LetterE()
    ensures Absorb(0x22FD_E946, 0x45) == 0x992B_AC53
  {
    assert Xor(0x22FD_E946, (0x45 as u8) as u32) == 0x22FD_E903;
    assert Steps(1, 0x22FD_E903) == 0xFCC6_77A1;
    assert Steps(2, 0x22FD_E903) == 0x93DB_B8F0;
    assert Steps(3, 0x22FD_E903) == 0x49ED_DC78;
    assert Steps(4, 0x22FD_E903) == 0x24F6_EE3C;
    assert Steps(5, 0x22FD_E903) == 0x127B_771E;
    assert Steps(6, 0x22FD_E903) == 0x093D_BB8F;
    assert Steps(7, 0x22FD_E903) == 0xE926_5EE7;
    assert Steps(8, 0x22FD_E903) == 0x992B_AC53;
  }

  lemma LetterN()
    ensures Absorb(0x992B_AC53, 0x4E) == 0x639F_4775
  {
    assert Xor(0x992B_AC53, (0x4E as u8) as u32) == 0x992B_AC1D;
    assert Steps(1, 0x992B_AC1D) == 0xA12D_552E;
    assert Steps(2, 0x992B_AC1D) == 0x5096_AA97;
    assert Steps(3, 0x992B_AC1D) == 0xC5F3_D66B;
    assert Steps(4, 0x992B_AC1D) == 0x8F41_6815;
    assert Steps(5, 0x992B_AC1D) == 0xAA18_372A;
    assert Steps(6, 0x992B_AC1D) == 0x550C_1B95;
    assert Steps(7, 0x992B_AC1D) == 0xC73E_8EEA;
    assert Steps(8, 0x992B_AC1D) == 0x639F_4775;
  }

  lemma LetterD()
    ensures Absorb(0x639F_4775, 0x44) == 0x51BD_9F7D
  {
    assert Xor(0x639F_4775, (0x44 as u8) as u32) == 0x639F_4731;
    assert Steps(1, 0x639F_4731) == 0xDC77_20B8;
    assert Steps(2, 0x639F_4731) == 0x6E3B_905C;
    assert Steps(3, 0x639F_4731) == 0x371D_C82E;
    assert Steps(4, 0x639F_4731) == 0x1B8E_E417;
    assert Steps(5, 0x639F_4731) == 0xE07F_F12B;
    assert Steps(6, 0x639F_4731) == 0x9D87_7BB5;
    assert Steps(7, 0x639F_4731) == 0xA37B_3EFA;
    assert Steps(8, 0x639F_4731) == 0x51BD_9F7D;
  }

  /** The checksum of the four letters of the last chunk's kind. */
  lemma CheckValue()
    ensures Checksum([0x49, 0x45, 0x4E, 0x44]) == 0xAE42_6082
  {
    hide Absorb;
    LetterI();
    LetterE();
    LetterN();
    LetterD();
    var data: seq<u8> := [0x49, 0x45, 0x4E, 0x44];
    var afterI, afterE, afterN := data[1..], data[1..][1..], data[1..][1..][1..];
    assert afterN[1..] == [];
    assert Register(0x639F_4775, afterN) == 0x51BD_9F7D;
    assert Register(0x992B_AC53, afterE) == Register(0x639F_4775, afterN);
    assert Register(0x22FD_E946, afterI) == Register(0x992B_AC53, afterE);
    assert Register(0xFFFF_FFFF, data) == Register(0x22FD_E946, afterI);
  }
}
