/** Base64 with the standard alphabet and padding, and a strict decoder after RFC 4648, section 4. */
module Base64 {
  import opened Bytes
  import opened Option
  import opened Sequences

  /** `n` consecutive characters. */
  function Run(first: char, n: nat): (s: string)
    requires first as nat + n <= 128
    ensures |s| == n
  {
    seq(n, i requires 0 <= i < n => (first as nat + i) as char)
  }

  const ALPHABET: string := Run('A', 26) + Run('a', 26) + Run('0', 10) + "+/"

  // ----- The decoder -----

  function Sextet(c: char): (r: Option<nat>)
    ensures r.Some? ==> r.value < 64
  {
    if 'A' <= c <= 'Z' then Some(c as nat - 'A' as nat)
    else if 'a' <= c <= 'z' then Some(c as nat - 'a' as nat + 26)
    else if '0' <= c <= '9' then Some(c as nat - '0' as nat + 52)
    else if c == '+' then Some(62)
    else if c == '/' then Some(63)
    else None
  }

  /** One group of four characters.  Only the last group may be padded, and the bits that padding leaves over
      must be zero. */
  function DecodeGroup(a: char, b: char, c: char, d: char, last: bool): Option<seq<u8>> {
    var (w, x, y, z) := (Sextet(a), Sextet(b), Sextet(c), Sextet(d));
    if w.None? || x.None? then None
    else if last && c == '=' && d == '=' then
      (if x.value % 16 == 0 then Some([ByteOf(w.value * 4 + x.value / 16)]) else None)
    else if y.None? then None
    else
      var first, second := ByteOf(w.value * 4 + x.value / 16), ByteOf(x.value % 16 * 16 + y.value / 4);
      if last && d == '=' then (if y.value % 4 == 0 then Some([first, second]) else None)
      else if z.None? then None
      else Some([first, second, ByteOf(y.value % 4 * 64 + z.value)])
  }

  function Decode(s: string): Option<seq<u8>> {
    if s == [] then Some([])
    else if |s| < 4 then None
    else
      var head, tail := DecodeGroup(s[0], s[1], s[2], s[3], |s| == 4), Decode(s[4..]);
      if head.None? || tail.None? then None else Some(head.value + tail.value)
  }

  // ----- The encoder -----

  /** A chunk of at most three bytes as one number, the missing ones read as zero. */
  function Packed(chunk: seq<u8>): nat
    requires 1 <= |chunk| <= 3
  {
    var b0 := Val(chunk[0]);
    var b1 := if |chunk| > 1 then Val(chunk[1]) else 0;
    var b2 := if |chunk| > 2 then Val(chunk[2]) else 0;
    b0 * 65536 + b1 * 256 + b2
  }

  /** The six bits of `n` at a power of 64. */
  function Digit(n: nat, place: nat): (d: nat)
    requires place > 0
    ensures d < 64
  {
    n / place % 64
  }

  function Group(chunk: seq<u8>): (s: string)
    requires 1 <= |chunk| <= 3
    ensures |s| == 4
  {
    var n := Packed(chunk);
    [ALPHABET[Digit(n, 262144)],
     ALPHABET[Digit(n, 4096)],
     if |chunk| > 1 then ALPHABET[Digit(n, 64)] else '=',
     if |chunk| > 2 then ALPHABET[Digit(n, 1)] else '=']
  }

  function Encoded(bytes: seq<u8>): string {
    if |bytes| == 0 then []
    else if |bytes| <= 3 then Group(bytes)
    else Group(bytes[..3]) + Encoded(bytes[3..])
  }

  method Base64Encode(bytes: seq<u8>) returns (out: string)
    ensures out == Encoded(bytes)
  {
    hide Group, Val;
    out := "";
    var i := 0;
    while i < |bytes|
      invariant 0 <= i <= |bytes|
      invariant out + Encoded(bytes[i..]) == Encoded(bytes)
    {
      var chunk := bytes[i..if i + 3 <= |bytes| then i + 3 else |bytes|];
      NextChunk(bytes, i);
      PushGroup(out, chunk);
      Regroup(out, Group(chunk), Encoded(bytes[i + |chunk|..]));
      var n := Packed(chunk);
      out := out + [ALPHABET[Digit(n, 262144)]];
      out := out + [ALPHABET[Digit(n, 4096)]];
      if |chunk| > 1 {
        out := out + [ALPHABET[Digit(n, 64)]];
      } else {
        out := out + "=";
      }
      if |chunk| > 2 {
        out := out + [ALPHABET[Digit(n, 1)]];
      } else {
        out := out + "=";
      }
      i := i + |chunk|;
    }
  }

  lemma PushGroup(out: string, chunk: seq<u8>)
    requires 1 <= |chunk| <= 3
    ensures var n := Packed(chunk);
            out + [ALPHABET[Digit(n, 262144)]] + [ALPHABET[Digit(n, 4096)]]
            + (if |chunk| > 1 then [ALPHABET[Digit(n, 64)]] else "=") +
              (if |chunk| > 2 then [ALPHABET[Digit(n, 1)]] else "=")
            == out + Group(chunk)
  {}

  lemma NextChunk(bytes: seq<u8>, i: nat)
    requires i < |bytes|
    ensures var chunk := bytes[i..if i + 3 <= |bytes| then i + 3 else |bytes|];
            Encoded(bytes[i..]) == Group(chunk) + Encoded(bytes[i + |chunk|..])
  {
    hide Group;
    if |bytes| - i > 3 {
      assert bytes[i..][..3] == bytes[i..i + 3] && bytes[i..][3..] == bytes[i + 3..];
    } else {
      assert bytes[i..|bytes|] == bytes[i..];
    }
  }

  // ----- The decoder undoes the encoder -----

  lemma AlphabetOrder(i: nat)
    requires i < 64
    ensures Sextet(ALPHABET[i]) == Some(i) && ALPHABET[i] != '='
  {}

  lemma ByteOfVal(b: u8)
    ensures ByteOf(Val(b)) == b
  {
    assert Val(ByteOf(Val(b))) as bv8 == b;
  }

  /** What the four characters of a group say, read as digits. */
  lemma GroupDigits(chunk: seq<u8>) returns (w: nat, x: nat, y: nat, z: nat)
    requires 1 <= |chunk| <= 3
    ensures var g := Group(chunk);
            && Sextet(g[0]) == Some(w) && Sextet(g[1]) == Some(x)
            && (if |chunk| > 1 then Sextet(g[2]) == Some(y) && g[2] != '=' else g[2] == '=' && x % 16 == 0)
            && (if |chunk| > 2 then Sextet(g[3]) == Some(z) && g[3] != '=' else g[3] == '=' && y % 4 == 0)
    ensures w * 4 + x / 16 == Val(chunk[0])
    ensures |chunk| > 1 ==> x % 16 * 16 + y / 4 == Val(chunk[1])
    ensures |chunk| > 2 ==> y % 4 * 64 + z == Val(chunk[2])
  {
    hide Sextet, Val, ALPHABET, Digit;
    var n := Packed(chunk);
    w, x, y, z := Digit(n, 262144), Digit(n, 4096), Digit(n, 64), Digit(n, 1);
    AlphabetOrder(w);
    AlphabetOrder(x);
    AlphabetOrder(y);
    AlphabetOrder(z);
    Repack(Val(chunk[0]), if |chunk| > 1 then Val(chunk[1]) else 0, if |chunk| > 2 then Val(chunk[2]) else 0);
  }

  lemma GroupRoundTrip(chunk: seq<u8>, last: bool)
    requires |chunk| == 3 || (last && 1 <= |chunk| <= 3)
    ensures var g := Group(chunk); DecodeGroup(g[0], g[1], g[2], g[3], last) == Some(chunk)
  {
    hide Sextet, ByteOf, Val, Group;
    var w, x, y, z := GroupDigits(chunk);
    ByteOfVal(chunk[0]);
    if |chunk| == 1 {
      assert chunk == [chunk[0]];
    } else {
      ByteOfVal(chunk[1]);
      if |chunk| == 2 {
        assert chunk == [chunk[0], chunk[1]];
      } else {
        ByteOfVal(chunk[2]);
        assert chunk == [chunk[0], chunk[1], chunk[2]];
      }
    }
  }

  lemma Digits(w: nat, x: nat, y: nat, z: nat)
    requires w < 64 && x < 64 && y < 64 && z < 64
    ensures var n := w * 262144 + x * 4096 + y * 64 + z;
            Digit(n, 262144) == w && Digit(n, 4096) == x && Digit(n, 64) == y && Digit(n, 1) == z
  {
    var n := w * 262144 + x * 4096 + y * 64 + z;
    assert n / 64 == w * 4096 + x * 64 + y;
    assert n / 4096 == w * 64 + x;
  }

  lemma Repack(b0: nat, b1: nat, b2: nat)
    requires b0 < 256 && b1 < 256 && b2 < 256
    ensures var n := b0 * 65536 + b1 * 256 + b2;
            var w, x, y, z := Digit(n, 262144), Digit(n, 4096), Digit(n, 64), Digit(n, 1);
            && w * 4 + x / 16 == b0 && x % 16 * 16 + y / 4 == b1 && y % 4 * 64 + z == b2
            && (b1 == 0 ==> x % 16 == 0) && (b2 == 0 ==> y % 4 == 0)
  {
    hide Digit;
    Digits(b0 / 4, b0 % 4 * 16 + b1 / 16, b1 % 16 * 4 + b2 / 64, b2 % 64);
  }

  /** The decoder accepts every encoding and gives the bytes back. */
  lemma {:induction false} DecodeUndoesEncode(bytes: seq<u8>)
    ensures Decode(Encoded(bytes)) == Some(bytes)
    decreases |bytes|
  {
    hide Group, DecodeGroup;
    if |bytes| > 0 {
      var chunk := if |bytes| <= 3 then bytes else bytes[..3];
      var rest := if |bytes| <= 3 then [] else bytes[3..];
      DecodeUndoesEncode(rest);
      EncodedLength(rest);
      GroupRoundTrip(chunk, rest == []);
      assert Encoded(bytes) == Group(chunk) + Encoded(rest);
      assert Encoded(bytes)[4..] == Encoded(rest);
      assert chunk + rest == bytes;
    }
  }

  /** Four characters for every three bytes or part thereof. */
  lemma {:induction false} EncodedLength(bytes: seq<u8>)
    ensures |Encoded(bytes)| == (|bytes| + 2) / 3 * 4
    decreases |bytes|
  {
    hide Group;
    if |bytes| > 3 {
      EncodedLength(bytes[3..]);
    }
  }

  lemma Injective(x: seq<u8>, y: seq<u8>)
    requires Encoded(x) == Encoded(y)
    ensures x == y
  {
    hide Encoded, Decode;
    DecodeUndoesEncode(x);
    DecodeUndoesEncode(y);
  }

  /** How many padding characters the encoding of a message of `n` bytes ends in. */
  function Padding(n: nat): nat { (3 - n % 3) % 3 }

  /** Every '=' is at the end, and there are exactly as many as the last chunk is short of bytes. */
  lemma {:induction false} PaddingExact(bytes: seq<u8>, i: nat)
    requires i < |Encoded(bytes)|
    ensures Encoded(bytes)[i] == '=' <==> i >= |Encoded(bytes)| - Padding(|bytes|)
    decreases |bytes|
  {
    hide ALPHABET, Val, Group;
    EncodedLength(bytes);
    if |bytes| <= 3 {
      PaddingOfGroup(bytes, i);
    } else if i < 4 {
      PaddingOfGroup(bytes[..3], i);
      EncodedLength(bytes[3..]);
    } else {
      PaddingExact(bytes[3..], i - 4);
    }
  }

  lemma PaddingOfGroup(chunk: seq<u8>, i: nat)
    requires 1 <= |chunk| <= 3 && i < 4
    ensures Group(chunk)[i] == '=' <==> i >= |chunk| + 1
  {
    hide ALPHABET, Val, Digit;
    var n := Packed(chunk);
    AlphabetOrder(Digit(n, 262144));
    AlphabetOrder(Digit(n, 4096));
    AlphabetOrder(Digit(n, 64));
    AlphabetOrder(Digit(n, 1));
  }

  /** The first vectors of RFC 4648, section 10. */
  lemma Vectors(f: u8, o: u8)
    requires Val(f) == 'f' as nat && Val(o) == 'o' as nat
    ensures Encoded([f]) == "Zg==" && Encoded([f, o]) == "Zm8=" && Encoded([f, o, o]) == "Zm9v"
  {
    hide Encoded, Val, Run;
    Chars();
    Encodes([f]);
    Encodes([f, o]);
    Encodes([f, o, o]);
    assert Packed([f]) == 0x66_0000 && Packed([f, o]) == 0x66_6F00 && Packed([f, o, o]) == 0x66_6F6F;
  }

  lemma Encodes(chunk: seq<u8>)
    requires 1 <= |chunk| <= 3
    ensures Encoded(chunk) == Group(chunk)
  {}

  lemma Chars()
    ensures ALPHABET[25] == 'Z' && ALPHABET[32] == 'g' && ALPHABET[38] == 'm' && ALPHABET[47] == 'v'
    ensures ALPHABET[60] == '8' && ALPHABET[61] == '9'
  {}
}
