/** The zlib stream of stored deflate blocks, and an inflater for such streams.

    `Inflate` follows RFC 1950, section 2.2 and RFC 1951, section 3.2.4, not the writer: it checks the header,
    reads blocks up to the first one marked final, and compares the trailer with the Adler-32 sums written in
    closed form. */
module Zlib {
  import opened Bytes
  import opened Option
  import opened Sequences

  const MAX_BLOCK := 65535
  const ADLER_BASE := 65521

  // ----- What a reader accepts -----

  function Sum(data: seq<u8>): nat {
    if data == [] then 0 else Val(data[0]) + Sum(data[1..])
  }

  /** The first of n bytes counts n times, the last one once. */
  function WeightedSum(data: seq<u8>): nat {
    if data == [] then 0 else |data| * Val(data[0]) + WeightedSum(data[1..])
  }

  function Adler32(data: seq<u8>): (sum: nat)
    ensures sum < 0x1_0000_0000
  {
    (|data| + WeightedSum(data)) % ADLER_BASE * 65536 + (1 + Sum(data)) % ADLER_BASE
  }

  predicate ValidHeader(cmf: u8, flg: u8) {
    && cmf & 0x0F == 8                          // deflate
    && cmf >> 4 <= 7                            // a window of at most 32K
    && (Val(cmf) * 256 + Val(flg)) % 31 == 0
    && flg & 0x20 == 0                          // no preset dictionary
  }

  datatype Inflated = Inflated(data: seq<u8>, rest: seq<u8>)

  /** Stored blocks up to and including the first final one. */
  function InflateBlocks(s: seq<u8>): (r: Option<Inflated>)
    ensures r.Some? ==> |r.value.rest| + 5 <= |s|
    decreases |s|
  {
    if |s| < 5 || (s[0] >> 1) & 3 != 0 then None else
    var len, complement := FromLittleEndian(s[1..3]), FromLittleEndian(s[3..5]);
    if len + complement != 0xFFFF || |s| < 5 + len then None else
    var block, rest := s[5..5 + len], s[5 + len..];
    if s[0] & 1 == 1 then Some(Inflated(block, rest)) else
    var tail := InflateBlocks(rest);
    if tail.None? then None else Some(Inflated(block + tail.value.data, tail.value.rest))
  }

  function Inflate(s: seq<u8>): Option<seq<u8>> {
    if |s| < 2 || !ValidHeader(s[0], s[1]) then None else
    var r := InflateBlocks(s[2..]);
    if r.None? || |r.value.rest| != 4 || FromBigEndian(r.value.rest) != Adler32(r.value.data) then None
    else Some(r.value.data)
  }

  // ----- What the writer produces -----

  function Block(final: bool, data: seq<u8>): seq<u8>
    requires |data| <= MAX_BLOCK
  {
    [if final then 1 else 0] + LittleEndian(|data|, 2) + LittleEndian(0xFFFF - |data|, 2) + data
  }

  function Blocks(data: seq<u8>): seq<u8> {
    if |data| <= MAX_BLOCK then Block(true, data)
    else Block(false, data[..MAX_BLOCK]) + Blocks(data[MAX_BLOCK..])
  }

  function Stored(data: seq<u8>): seq<u8> {
    [0x78, 0x01] + Blocks(data) + BigEndian(Adler32(data), 4)
  }

  method ZlibStored(data: seq<u8>) returns (out: seq<u8>)
    ensures out == Stored(data)
  {
    hide Val, LittleEndian, BigEndian, Block, Blocks, Sum, WeightedSum;
    out := [];
    out := out + [0x78];
    out := out + [0x01];

    var i := 0;
    while i < |data|
      invariant 0 <= i <= |data|
      invariant i < |data| || data == [] ==> out + Blocks(data[i..]) == [0x78, 0x01] + Blocks(data)
      invariant i == |data| > 0 ==> out == [0x78, 0x01] + Blocks(data)
    {
      var remaining := |data| - i;
      var block := if remaining < MAX_BLOCK then remaining else MAX_BLOCK;
      var isLast := i + block == |data|;
      ghost var before := out;
      out := out + [if isLast then 1 else 0];
      out := out + LittleEndian(block, 2);
      out := out + LittleEndian(0xFFFF - block, 2);
      out := out + data[i..i + block];
      AppendBlock(before, isLast, data[i..i + block]);
      BlocksFrom(data, i);
      assert isLast ==> data[i..i + block] == data[i..];
      assert !isLast ==> out + Blocks(data[i + block..]) == before + Blocks(data[i..]);
      i := i + block;
    }
    if data == [] {
      out := out + [0x01];
      out := out + LittleEndian(0, 2);
      out := out + LittleEndian(0xFFFF, 2);
    }
    EmptyBlocks();

    var a, b := 1, 0;
    for k := 0 to |data|
      invariant a == (1 + Sum(data[..k])) % ADLER_BASE
      invariant b == (k + WeightedSum(data[..k])) % ADLER_BASE
    {
      AdlerStep(data[..k], data[k]);
      assert data[..k + 1] == data[..k] + [data[k]];
      a := (a + Val(data[k])) % ADLER_BASE;
      b := (b + a) % ADLER_BASE;
    }
    assert data[..|data|] == data;
    out := out + BigEndian(b * 65536 + a, 4);
  }

  lemma AppendBlock(out: seq<u8>, final: bool, data: seq<u8>)
    requires |data| <= MAX_BLOCK
    ensures out + [if final then 1 else 0] + LittleEndian(|data|, 2) + LittleEndian(0xFFFF - |data|, 2) + data
         == out + Block(final, data)
  {
    hide LittleEndian;
    Associate(out, [if final then 1 else 0], LittleEndian(|data|, 2), LittleEndian(0xFFFF - |data|, 2), data);
  }

  lemma EmptyBlocks()
    ensures [0x78, 0x01] + [0x01] + LittleEndian(0, 2) + LittleEndian(0xFFFF, 2) == [0x78, 0x01] + Blocks([])
    ensures WeightedSum([]) == Sum([]) == 0
  {
    hide LittleEndian;
  }

  lemma BlocksFrom(data: seq<u8>, i: nat)
    requires i < |data|
    ensures |data| - i <= MAX_BLOCK ==> Blocks(data[i..]) == Block(true, data[i..])
    ensures |data| - i > MAX_BLOCK ==>
              Blocks(data[i..]) == Block(false, data[i..i + MAX_BLOCK]) + Blocks(data[i + MAX_BLOCK..])
  {
    if |data| - i > MAX_BLOCK {
      assert data[i..][..MAX_BLOCK] == data[i..i + MAX_BLOCK];
      assert data[i..][MAX_BLOCK..] == data[i + MAX_BLOCK..];
    }
  }

  lemma {:induction false} SumSnoc(data: seq<u8>, x: u8)
    ensures Sum(data + [x]) == Sum(data) + Val(x)
    ensures WeightedSum(data + [x]) == WeightedSum(data) + Sum(data) + Val(x)
  {
    hide Val;
    if data != [] {
      SumSnoc(data[1..], x);
      assert (data + [x])[1..] == data[1..] + [x];
      assert (|data| + 1) * Val(data[0]) == |data| * Val(data[0]) + Val(data[0]);
    }
  }

  lemma AdlerStep(data: seq<u8>, x: u8)
    ensures (1 + Sum(data + [x])) % ADLER_BASE == ((1 + Sum(data)) % ADLER_BASE + Val(x)) % ADLER_BASE
    ensures (|data| + 1 + WeightedSum(data + [x])) % ADLER_BASE
         == ((|data| + WeightedSum(data)) % ADLER_BASE + (1 + Sum(data + [x])) % ADLER_BASE) % ADLER_BASE
  {
    hide Val, Sum, WeightedSum;
    SumSnoc(data, x);
    ModSum(1 + Sum(data), Val(x));
    ModSum(|data| + WeightedSum(data), 1 + Sum(data + [x]));
  }

  lemma ModSum(a: nat, b: nat)
    ensures (a + b) % ADLER_BASE == (a % ADLER_BASE + b) % ADLER_BASE == (a % ADLER_BASE + b % ADLER_BASE) % ADLER_BASE
  {
    ModShift(a % ADLER_BASE + b, a / ADLER_BASE);
    ModShift(a % ADLER_BASE + b % ADLER_BASE, b / ADLER_BASE);
  }

  lemma {:induction false} ModShift(x: nat, q: nat)
    ensures (x + ADLER_BASE * q) % ADLER_BASE == x % ADLER_BASE
  {
    if q > 0 {
      ModShift(x, q - 1);
    }
  }

  // ----- The reader undoes the writer -----

  lemma InflateBlock(final: bool, data: seq<u8>, rest: seq<u8>)
    requires |data| <= MAX_BLOCK
    ensures InflateBlocks(Block(final, data) + rest) ==
            if final then Some(Inflated(data, rest))
            else if InflateBlocks(rest).None? then None
            else Some(Inflated(data + InflateBlocks(rest).value.data, InflateBlocks(rest).value.rest))
  {
    hide LittleEndian, FromLittleEndian;
    BlockFields(final, data, rest);
    FlagBits(final);
  }

  lemma BlockFields(final: bool, data: seq<u8>, rest: seq<u8>)
    requires |data| <= MAX_BLOCK
    ensures var s := Block(final, data) + rest;
            && |s| == 5 + |data| + |rest|
            && s[0] == (if final then 1 else 0)
            && FromLittleEndian(s[1..3]) == |data|
            && FromLittleEndian(s[3..5]) == 0xFFFF - |data|
            && s[5..5 + |data|] == data && s[5 + |data|..] == rest
  {
    hide LittleEndian, FromLittleEndian;
    var s := Block(final, data) + rest;
    Powers();
    LittleEndianRoundTrip(|data|, 2);
    LittleEndianRoundTrip(0xFFFF - |data|, 2);
    assert s[1..3] == LittleEndian(|data|, 2);
    assert s[3..5] == LittleEndian(0xFFFF - |data|, 2);
  }

  lemma FlagBits(final: bool)
    ensures var flag: u8 := if final then 1 else 0; (flag >> 1) & 3 == 0 && (flag & 1 == 1 <==> final)
  {}

  lemma {:induction false} InflateUndoesBlocks(data: seq<u8>, rest: seq<u8>)
    ensures InflateBlocks(Blocks(data) + rest) == Some(Inflated(data, rest))
    decreases |data|
  {
    hide InflateBlocks, Block;
    if |data| <= MAX_BLOCK {
      InflateBlock(true, data, rest);
    } else {
      var head, tail := data[..MAX_BLOCK], data[MAX_BLOCK..];
      InflateUndoesBlocks(tail, rest);
      InflateBlock(false, head, Blocks(tail) + rest);
      assert Blocks(data) + rest == Block(false, head) + (Blocks(tail) + rest);
      assert head + tail == data;
    }
  }

  /** Every byte sequence survives, the empty one and those of many blocks included. */
  lemma InflateUndoesStored(data: seq<u8>)
    ensures Inflate(Stored(data)) == Some(data)
  {
    hide InflateBlocks, Blocks, Adler32, ValidHeader, BigEndian, FromBigEndian;
    var trailer := BigEndian(Adler32(data), 4);
    Powers();
    BigEndianRoundTrip(Adler32(data), 4);
    InflateUndoesBlocks(data, trailer);
    assert Stored(data)[2..] == Blocks(data) + trailer;
    HeaderIsValid();
  }

  lemma HeaderIsValid()
    ensures ValidHeader(0x78, 0x01)
  {
    assert Val(0x78) == 120 && Val(0x01) == 1;
  }

  /** One block for every 65535 bytes or part thereof, and one for no bytes. */
  function BlockCount(n: nat): nat {
    if n == 0 then 1 else (n + 65534) / 65535
  }

  /** Five bytes of framing for each block, and the data. */
  lemma {:induction false} BlocksLength(data: seq<u8>)
    ensures |Blocks(data)| == |data| + 5 * BlockCount(|data|)
    decreases |data|
  {
    hide LittleEndian;
    if |data| > MAX_BLOCK {
      BlocksLength(data[MAX_BLOCK..]);
    }
  }

  /** A stream starts with the header for a window of 32K and no compression. */
  lemma StreamStarts(data: seq<u8>)
    ensures |Stored(data)| >= 2 && Stored(data)[0] == 0x78 && Stored(data)[1] == 0x01
  {}

  /** The Adler-32 sums of RFC 1950, section 8.2, one byte more at a time. */
  lemma AdlerInNumbers(data: seq<u8>)
    ensures Adler32(data) / 65536 == (|data| + WeightedSum(data)) % 65521
    ensures Adler32(data) % 65536 == (1 + Sum(data)) % 65521
  {}
}
