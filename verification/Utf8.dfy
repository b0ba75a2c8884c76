/** Strings as bytes, and back (RFC 3629, section 3). */
module Utf8 {
  import opened Bytes
  import opened Option

  function Continuation(n: nat): u8 { ByteOf(0x80 + n % 64) }

  function EncodeChar(c: char): (s: seq<u8>)
    ensures 1 <= |s| <= 4
  {
    var n := c as nat;
    if n < 0x80 then [ByteOf(n)]
    else if n < 0x800 then [ByteOf(0xC0 + n / 64), Continuation(n)]
    else if n < 0x1_0000 then [ByteOf(0xE0 + n / 4096), Continuation(n / 64), Continuation(n)]
    else [ByteOf(0xF0 + n / 262144), Continuation(n / 4096), Continuation(n / 64), Continuation(n)]
  }

  function Encode(s: string): seq<u8> {
    if s == [] then [] else EncodeChar(s[0]) + Encode(s[1..])
  }

  /** How many bytes the character that starts with `b` takes. */
  function Length(b: nat): nat {
    if b < 0x80 then 1 else if b < 0xE0 then 2 else if b < 0xF0 then 3 else 4
  }

  /** The scalar value spelled by the first bytes of `s`. */
  function Scalar(s: seq<u8>): nat
    requires s != [] && |s| >= Length(Val(s[0]))
  {
    var b := Val(s[0]);
    if b < 0x80 then b
    else if b < 0xE0 then b % 32 * 64 + Val(s[1]) % 64
    else if b < 0xF0 then b % 16 * 4096 + Val(s[1]) % 64 * 64 + Val(s[2]) % 64
    else b % 8 * 262144 + Val(s[1]) % 64 * 4096 + Val(s[2]) % 64 * 64 + Val(s[3]) % 64
  }

  function Decode(s: seq<u8>): Option<string>
    decreases |s|
  {
    if s == [] then Some([]) else
    var len := Length(Val(s[0]));
    if |s| < len then None else
    var n := Scalar(s);
    var tail := Decode(s[len..]);
    if tail.None? || !(n < 0xD800 || 0xE000 <= n < 0x11_0000) then None else Some([n as char] + tail.value)
  }

  lemma ScalarOfChar(c: char, rest: seq<u8>)
    ensures var s := EncodeChar(c) + rest;
            && |s| >= Length(Val(s[0])) == |EncodeChar(c)|
            && Scalar(s) == c as nat
  {
    hide ByteOf, Continuation, Val;
    var n := c as nat;
    var e := EncodeChar(c);
    var s := e + rest;
    assert s[..|e|] == e;
    assert forall i :: 0 <= i < |e| ==> s[i] == e[i];
    Sextets(n);
    ContinuationVal(n);
    ContinuationVal(n / 64);
    ContinuationVal(n / 4096);
    Leading(n);
  }

  lemma ContinuationVal(n: nat)
    ensures Val(Continuation(n)) % 64 == n % 64
  {}

  lemma Leading(n: nat)
    ensures n < 0x800 ==> (0xC0 + n / 64) % 32 == n / 64 < 32
    ensures n < 0x1_0000 ==> (0xE0 + n / 4096) % 16 == n / 4096 < 16
    ensures n < 0x11_0000 ==> (0xF0 + n / 262144) % 8 == n / 262144 < 8
  {}

  lemma Sextets(n: nat)
    ensures n / 64 * 64 + n % 64 == n
    ensures n / 4096 * 4096 + n / 64 % 64 * 64 + n % 64 == n
    ensures n / 262144 * 262144 + n / 4096 % 64 * 4096 + n / 64 % 64 * 64 + n % 64 == n
  {
    assert n / 4096 == n / 64 / 64 && n / 262144 == n / 4096 / 64;
  }

  lemma {:induction false} DecodeUndoesEncode(s: string)
    ensures Decode(Encode(s)) == Some(s)
  {
    hide EncodeChar, Scalar, Length;
    if s != [] {
      var rest := Encode(s[1..]);
      ScalarOfChar(s[0], rest);
      DecodeUndoesEncode(s[1..]);
      assert (EncodeChar(s[0]) + rest)[|EncodeChar(s[0])|..] == rest;
      assert s == [s[0]] + s[1..];
    }
  }

  lemma Injective(a: string, b: string)
    ensures Encode(a) == Encode(b) <==> a == b
  {
    hide Encode, Decode;
    DecodeUndoesEncode(a);
    DecodeUndoesEncode(b);
  }

  /** Examples of RFC 3629, section 7: characters of one, two, three and four bytes. */
  lemma Examples()
    ensures var s := EncodeChar('\U{41}'); |s| == 1 && Val(s[0]) == 0x41
    ensures var s := EncodeChar('\U{391}'); |s| == 2 && Val(s[0]) == 0xCE && Val(s[1]) == 0x91
    ensures var s := EncodeChar('\U{2262}'); |s| == 3 && Val(s[0]) == 0xE2 && Val(s[1]) == 0x89 && Val(s[2]) == 0xA2
    ensures var s := EncodeChar('\U{233B4}');
            |s| == 4 && Val(s[0]) == 0xF0 && Val(s[1]) == 0xA3 && Val(s[2]) == 0x8E && Val(s[3]) == 0xB4
  {
    hide Val, ByteOf;
  }
}
