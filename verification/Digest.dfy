/** What a message digest is a digest of: the framed fields that reach a provider's wire. */
module Digest {
  import opened Bytes
  import opened Option
  import opened Sequences
  import opened Json
  import opened Chat
  import Utf8

  /** The bytes one `feed` mixes in: the length as eight little-endian bytes, then the field. */
  function Frame(field: seq<u8>): seq<u8> {
    LittleEndian(|field|, 8) + field
  }

  function Frames(fields: seq<seq<u8>>): seq<u8> {
    if fields == [] then [] else Frame(fields[0]) + Frames(fields[1..])
  }

  function RoleTag(r: Role): string {
    match r
    case User => "user"
    case Assistant => "assistant"
    case System => "system"
    case Tool => "tool"
    case Agent(_) => "agent"
  }

  function IdOrEmpty(id: Option<string>): string {
    if id.Some? then id.value else ""
  }

  function CallFields(calls: seq<ToolCall>): (f: seq<seq<u8>>)
    ensures |f| == 3 * |calls|
  {
    if calls == [] then [] else
    [Utf8.Encode(IdOrEmpty(calls[0].id)), Utf8.Encode(calls[0].toolName), Utf8.Encode(Canon(calls[0].arguments))]
    + CallFields(calls[1..])
  }

  function LinkFields(link: Option<string>): (f: seq<seq<u8>>)
    ensures |f| == if link.Some? then 1 else 0
  {
    if link.Some? then [Utf8.Encode(link.value)] else []
  }

  function Fields(m: ChatMessage): seq<seq<u8>> {
    [Utf8.Encode(RoleTag(m.role)), Utf8.Encode(m.content)] + CallFields(m.toolCalls) + LinkFields(m.toolCallId)
  }

  function Stream(m: ChatMessage): seq<u8> {
    Frames(Fields(m))
  }

  /** The digest loop: every byte of the stream mixed into the state, for any mixing step. */
  function Mix<H>(step: (H, u8) -> H, h: H, bytes: seq<u8>): H
    decreases |bytes|
  {
    if bytes == [] then h else Mix(step, step(h, bytes[0]), bytes[1..])
  }

  method Feed<H>(step: (H, u8) -> H, h: H, bytes: seq<u8>) returns (r: H)
    ensures r == Mix(step, h, Frame(bytes))
  {
    r := h;
    var prefix := LittleEndian(|bytes|, 8);
    for i := 0 to 8
      invariant Mix(step, h, prefix) == Mix(step, r, prefix[i..])
    {
      r := step(r, prefix[i]);
      assert prefix[i..][1..] == prefix[i + 1..];
    }
    MixAppend(step, h, prefix, bytes);
    for i := 0 to |bytes|
      invariant Mix(step, h, Frame(bytes)) == Mix(step, r, bytes[i..])
    {
      r := step(r, bytes[i]);
      assert bytes[i..][1..] == bytes[i + 1..];
    }
  }

  lemma {:induction false} MixAppend<H>(step: (H, u8) -> H, h: H, a: seq<u8>, b: seq<u8>)
    ensures Mix(step, h, a + b) == Mix(step, Mix(step, h, a), b)
    decreases |a|
  {
    if a == [] {
      assert a + b == b;
    } else {
      MixAppend(step, step(h, a[0]), a[1..], b);
      assert (a + b)[1..] == a[1..] + b;
    }
  }

  /** Each byte is mixed into what the bytes before it left; no bytes leave the start. */
  lemma MixLast<H>(step: (H, u8) -> H, h: H, bytes: seq<u8>, b: u8)
    ensures Mix(step, h, []) == h
    ensures Mix(step, h, bytes + [b]) == step(Mix(step, h, bytes), b)
  {
    MixAppend(step, h, bytes, [b]);
    var last := Mix(step, h, bytes);
    assert Mix(step, last, [b]) == Mix(step, step(last, b), [b][1..]);
  }

  method Of<H>(step: (H, u8) -> H, offset: H, m: ChatMessage) returns (h: H)
    ensures h == Mix(step, offset, Stream(m))
  {
    hide Frame, Frames, Mix, Utf8.Encode, Canon, RoleTag, IdOrEmpty, CallFields;
    NothingFed(step, offset);
    h := offset;
    h := Feed(step, h, Utf8.Encode(RoleTag(m.role)));
    FramesPush(step, offset, [], Utf8.Encode(RoleTag(m.role)));
    h := Feed(step, h, Utf8.Encode(m.content));
    FramesPush(step, offset, [] + [Utf8.Encode(RoleTag(m.role))], Utf8.Encode(m.content));
    ghost var head := [] + [Utf8.Encode(RoleTag(m.role))] + [Utf8.Encode(m.content)];
    assert m.toolCalls[..0] == [] && head + [] == head;
    for i := 0 to |m.toolCalls|
      invariant h == Mix(step, offset, Frames(head + CallFields(m.toolCalls[..i])))
    {
      var c := m.toolCalls[i];
      ghost var done := head + CallFields(m.toolCalls[..i]);
      h := Feed(step, h, Utf8.Encode(IdOrEmpty(c.id)));
      FramesPush(step, offset, done, Utf8.Encode(IdOrEmpty(c.id)));
      h := Feed(step, h, Utf8.Encode(c.toolName));
      FramesPush(step, offset, done + [Utf8.Encode(IdOrEmpty(c.id))], Utf8.Encode(c.toolName));
      h := Feed(step, h, Utf8.Encode(Canon(c.arguments)));
      FramesPush(step, offset, done + [Utf8.Encode(IdOrEmpty(c.id))] + [Utf8.Encode(c.toolName)],
        Utf8.Encode(Canon(c.arguments)));
      CallFieldsPush(m.toolCalls[..i], c);
      assert m.toolCalls[..i + 1] == m.toolCalls[..i] + [c];
      assert head + CallFields(m.toolCalls[..i + 1])
          == done + [Utf8.Encode(IdOrEmpty(c.id))] + [Utf8.Encode(c.toolName)] + [Utf8.Encode(Canon(c.arguments))];
    }
    assert m.toolCalls[..|m.toolCalls|] == m.toolCalls;
    ghost var body := head + CallFields(m.toolCalls);
    if m.toolCallId.Some? {
      h := Feed(step, h, Utf8.Encode(m.toolCallId.value));
      FramesPush(step, offset, body, Utf8.Encode(m.toolCallId.value));
    }
    assert Fields(m) == body + LinkFields(m.toolCallId);
    assert body + [] == body;
  }

  lemma NothingFed<H>(step: (H, u8) -> H, offset: H)
    ensures Mix(step, offset, Frames([])) == offset
    ensures CallFields([]) == []
  {}

  lemma {:induction false} FramesAppend(a: seq<seq<u8>>, b: seq<seq<u8>>)
    ensures Frames(a + b) == Frames(a) + Frames(b)
  {
    hide Frame;
    if a == [] {
      assert a + b == b && [] + Frames(b) == Frames(b);
    } else {
      assert (a + b)[1..] == a[1..] + b;
      FramesAppend(a[1..], b);
      Regroup(Frame(a[0]), Frames(a[1..]), Frames(b));
    }
  }

  lemma FramesPush<H>(step: (H, u8) -> H, h: H, fields: seq<seq<u8>>, field: seq<u8>)
    ensures Mix(step, Mix(step, h, Frames(fields)), Frame(field)) == Mix(step, h, Frames(fields + [field]))
  {
    hide Frame;
    FramesAppend(fields, [field]);
    assert Frames([field]) == Frame(field) + Frames([]) == Frame(field);
    MixAppend(step, h, Frames(fields), Frame(field));
  }

  lemma {:induction false} CallFieldsPush(calls: seq<ToolCall>, c: ToolCall)
    ensures CallFields(calls + [c])
         == CallFields(calls) + [Utf8.Encode(IdOrEmpty(c.id)), Utf8.Encode(c.toolName), Utf8.Encode(Canon(c.arguments))]
  {
    hide Utf8.Encode, Canon;
    if calls == [] {
      assert CallFields([c])
          == [Utf8.Encode(IdOrEmpty(c.id)), Utf8.Encode(c.toolName), Utf8.Encode(Canon(c.arguments))]
            + CallFields([c][1..]);
    } else {
      CallFieldsPush(calls[1..], c);
      assert (calls + [c])[1..] == calls[1..] + [c];
    }
  }

  // ----- The stream determines the wire content -----

  /** Providers see one kind of agent. */
  predicate SameRole(a: Role, b: Role) {
    a == b || (a.Agent? && b.Agent?)
  }

  /** No id is written as an empty one. */
  predicate SameId(a: Option<string>, b: Option<string>) {
    a == b || (a == None && b == Some("")) || (a == Some("") && b == None)
  }

  /** The tag separates roles. */
  lemma TagSeparatesRoles(a: Role, b: Role)
    ensures RoleTag(a) == RoleTag(b) <==> SameRole(a, b)
  {
    TagLetters(a);
    TagLetters(b);
  }

  /** The five tags. */
  lemma TagLetters(r: Role)
    ensures RoleTag(r) ==
            if r == User then "user" else if r == Assistant then "assistant"
            else if r == System then "system" else if r == Tool then "tool" else "agent"
    ensures |RoleTag(r)| ==
            (if r == Assistant then 9 else if r == System then 6 else if r == User || r == Tool then 4 else 5)
    ensures RoleTag(r)[0] == (if r == User then 'u' else if r == System then 's' else if r == Tool then 't' else 'a')
  {}

  /** The content any provider sees of a call. */
  ghost predicate SameCall(a: ToolCall, b: ToolCall) {
    SameId(a.id, b.id) && a.toolName == b.toolName && Same(a.arguments, b.arguments)
  }

  ghost predicate WireEqual(a: ChatMessage, b: ChatMessage) {
    && SameRole(a.role, b.role)
    && a.content == b.content
    && |a.toolCalls| == |b.toolCalls|
    && (forall i :: 0 <= i < |a.toolCalls| ==> SameCall(a.toolCalls[i], b.toolCalls[i]))
    && a.toolCallId == b.toolCallId
  }

  /** Every length fits the eight bytes it is written in, and every number is rendered as one. */
  ghost predicate Encodable(m: ChatMessage) {
    && (forall f :: f in Fields(m) ==> |f| < Power256(8))
    && (forall c :: c in m.toolCalls ==> Valid(c.arguments))
  }

  lemma FrameHead(a: seq<u8>, b: seq<u8>, x: seq<u8>, y: seq<u8>)
    requires |a| < Power256(8) && |b| < Power256(8)
    requires Frame(a) + x == Frame(b) + y
    ensures a == b && x == y
  {
    hide LittleEndian, FromLittleEndian;
    var s, t := Frame(a) + x, Frame(b) + y;
    LittleEndianRoundTrip(|a|, 8);
    LittleEndianRoundTrip(|b|, 8);
    assert s[..8] == LittleEndian(|a|, 8) && t[..8] == LittleEndian(|b|, 8);
    assert s[8..8 + |a|] == a && t[8..8 + |b|] == b;
    assert s[8 + |a|..] == x && t[8 + |b|..] == y;
  }

  /** No two field lists share a stream. */
  lemma {:induction false} FramesInjective(a: seq<seq<u8>>, b: seq<seq<u8>>)
    requires forall f :: f in a ==> |f| < Power256(8)
    requires forall f :: f in b ==> |f| < Power256(8)
    requires Frames(a) == Frames(b)
    ensures a == b
  {
    hide LittleEndian, Power256;
    if a != [] && b != [] {
      FrameHead(a[0], b[0], Frames(a[1..]), Frames(b[1..]));
      FramesInjective(a[1..], b[1..]);
      assert a == [a[0]] + a[1..] && b == [b[0]] + b[1..];
    } else {
      FrameNotEmpty();
    }
  }

  lemma FrameNotEmpty()
    ensures forall f: seq<u8> :: |Frame(f)| >= 8
  {
    hide LittleEndian;
  }

  /** The number of fields modulo three tells whether the last one is the link. */
  lemma FieldsInjective(a: ChatMessage, b: ChatMessage)
    requires Fields(a) == Fields(b)
    requires forall c :: c in a.toolCalls ==> Valid(c.arguments)
    requires forall c :: c in b.toolCalls ==> Valid(c.arguments)
    ensures WireEqual(a, b)
  {
    hide Utf8.Encode, Canon, RoleTag, CallFields;
    CallCount(a);
    CallCount(b);
    var n := |a.toolCalls|;
    assert n == |b.toolCalls|;
    Utf8.Injective(RoleTag(a.role), RoleTag(b.role));
    TagSeparatesRoles(a.role, b.role);
    Utf8.Injective(a.content, b.content);
    assert Fields(a)[0] == Fields(b)[0] && Fields(a)[1] == Fields(b)[1];
    assert Fields(a)[2..2 + 3 * n] == CallFields(a.toolCalls) && Fields(b)[2..2 + 3 * n] == CallFields(b.toolCalls);
    CallsInjective(a.toolCalls, b.toolCalls);
    assert Fields(a)[2 + 3 * n..] == LinkFields(a.toolCallId) && Fields(b)[2 + 3 * n..] == LinkFields(b.toolCallId);
    if a.toolCallId.Some? && b.toolCallId.Some? {
      assert LinkFields(a.toolCallId)[0] == LinkFields(b.toolCallId)[0];
      Utf8.Injective(a.toolCallId.value, b.toolCallId.value);
    }
  }

  lemma CallCount(m: ChatMessage)
    ensures |Fields(m)| == 2 + 3 * |m.toolCalls| + (if m.toolCallId.Some? then 1 else 0)
    ensures |CallFields(m.toolCalls)| == 3 * |m.toolCalls|
  {}

  lemma {:induction false} CallsInjective(a: seq<ToolCall>, b: seq<ToolCall>)
    requires |a| == |b| && CallFields(a) == CallFields(b)
    requires forall c :: c in a ==> Valid(c.arguments)
    requires forall c :: c in b ==> Valid(c.arguments)
    ensures forall i :: 0 <= i < |a| ==> SameCall(a[i], b[i])
  {
    hide Utf8.Encode, Canon, Valid, Same;
    if a != [] {
      var f, g := CallFields(a), CallFields(b);
      assert f[0] == g[0] && f[1] == g[1] && f[2] == g[2];
      assert f[3..] == CallFields(a[1..]) && g[3..] == CallFields(b[1..]);
      Utf8.Injective(IdOrEmpty(a[0].id), IdOrEmpty(b[0].id));
      Utf8.Injective(a[0].toolName, b[0].toolName);
      Utf8.Injective(Canon(a[0].arguments), Canon(b[0].arguments));
      CanonEqualIff(a[0].arguments, b[0].arguments);
      CallsInjective(a[1..], b[1..]);
      forall i | 0 <= i < |a|
        ensures SameCall(a[i], b[i])
      {
        if i > 0 {
          assert SameCall(a[1..][i - 1], b[1..][i - 1]);
        }
      }
    }
  }

  lemma {:induction false} SameCallFields(a: seq<ToolCall>, b: seq<ToolCall>)
    requires |a| == |b| && forall i :: 0 <= i < |a| ==> SameCall(a[i], b[i])
    ensures CallFields(a) == CallFields(b)
  {
    hide Utf8.Encode, Canon, Same;
    if a != [] {
      SameCanon(a[0].arguments, b[0].arguments);
      SameCallFields(a[1..], b[1..]);
    }
  }

  /** Two messages feed the same stream exactly when they are the same on the wire. */
  lemma StreamEqualIff(a: ChatMessage, b: ChatMessage)
    requires Encodable(a) && Encodable(b)
    ensures Stream(a) == Stream(b) <==> WireEqual(a, b)
  {
    hide Frames, RoleTag, CallFields, LinkFields, Canon, Same, Utf8.Encode;
    TagSeparatesRoles(a.role, b.role);
    if Stream(a) == Stream(b) {
      FramesInjective(Fields(a), Fields(b));
      FieldsInjective(a, b);
    }
    if WireEqual(a, b) {
      SameCallFields(a.toolCalls, b.toolCalls);
    }
  }

  // ----- What is fed, field by field -----

  function EncodedId(id: Option<string>): seq<u8> {
    if id.Some? then Utf8.Encode(id.value) else []
  }

  lemma IdEncoded(id: Option<string>)
    ensures Utf8.Encode(IdOrEmpty(id)) == EncodedId(id)
  {}

  lemma {:induction false} CallFieldsAt(calls: seq<ToolCall>, k: nat)
    requires k < |calls|
    ensures CallFields(calls)[3 * k..3 * k + 3] ==
            [EncodedId(calls[k].id), Utf8.Encode(calls[k].toolName), Utf8.Encode(Canon(calls[k].arguments))]
    decreases k
  {
    hide Canon, Utf8.Encode, EncodedId, IdOrEmpty;
    var head, rest := CallFields(calls)[..3], CallFields(calls[1..]);
    assert CallFields(calls) == head + rest;
    if k == 0 {
      IdEncoded(calls[0].id);
    } else {
      CallFieldsAt(calls[1..], k - 1);
      assert (head + rest)[3 * k..3 * k + 3] == rest[3 * (k - 1)..3 * (k - 1) + 3];
    }
  }

  /** Role tag, content, three fields for each call, and the link if there is one, in this order. */
  lemma FieldsAre(m: ChatMessage)
    ensures var f, n := Fields(m), |m.toolCalls|;
            && |f| == 2 + 3 * n + (if m.toolCallId.Some? then 1 else 0)
            && f[0] == Utf8.Encode(RoleTag(m.role)) && f[1] == Utf8.Encode(m.content)
            && (forall k {:trigger m.toolCalls[k]} :: 0 <= k < n ==>
                  f[2 + 3 * k..5 + 3 * k] ==
                  [EncodedId(m.toolCalls[k].id), Utf8.Encode(m.toolCalls[k].toolName),
                   Utf8.Encode(Canon(m.toolCalls[k].arguments))])
            && (m.toolCallId.Some? ==> f[2 + 3 * n] == Utf8.Encode(m.toolCallId.value))
  {
    hide Utf8.Encode, Canon, RoleTag, CallFields, EncodedId;
    CallCount(m);
    forall k | 0 <= k < |m.toolCalls|
      ensures Fields(m)[2 + 3 * k..5 + 3 * k] ==
              [EncodedId(m.toolCalls[k].id), Utf8.Encode(m.toolCalls[k].toolName),
               Utf8.Encode(Canon(m.toolCalls[k].arguments))]
    {
      CallFieldsAt(m.toolCalls, k);
      assert Fields(m)[2 + 3 * k..5 + 3 * k] == CallFields(m.toolCalls)[3 * k..3 * k + 3];
    }
  }

  /** The length in eight bytes, the least significant first, and the field. */
  lemma FrameBytes(field: seq<u8>)
    ensures |Frame(field)| == 8 + |field| && Frame(field)[8..] == field
    ensures forall k :: 0 <= k < 8 ==> Val(Frame(field)[k]) == Shifted(|field|, k) % 256
  {
    hide LittleEndian, Shifted, Val;
    forall k | 0 <= k < 8
      ensures Val(Frame(field)[k]) == Shifted(|field|, k) % 256
    {
      LittleEndianAt(|field|, 8, k);
    }
  }
}
