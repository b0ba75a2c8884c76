/** Canonical JSON, and a reader for it.

    An object is the sequence of its members in insertion order; a number is the text that renders it.  `Parse`
    reads JSON text without white space, after RFC 8259. */
module Json {
  import opened Option
  import opened Text

  datatype Json =
    | Null
    | Bool(b: bool)
    | Number(text: string)
    | String(s: string)
    | Array(items: seq<Json>)
    | Object(fields: seq<Field>)

  datatype Field = Field(key: string, value: Json)

  // ----- Strings -----

  function HexDigit(n: nat): char
    requires n < 16
  {
    if n < 10 then ('0' as nat + n) as char else ('a' as nat + (n - 10)) as char
  }

  /** The escapes of the string serializer. */
  function Escape(c: char): string {
    if c == '"' then "\\\""
    else if c == '\\' then "\\\\"
    else if c == '\U{8}' then "\\b"
    else if c == '\t' then "\\t"
    else if c == '\n' then "\\n"
    else if c == '\U{C}' then "\\f"
    else if c == '\r' then "\\r"
    else if c as nat < 0x20 then "\\u00" + [HexDigit(c as nat / 16), HexDigit(c as nat % 16)]
    else [c]
  }

  function Escaped(s: string): string {
    if s == [] then [] else Escape(s[0]) + Escaped(s[1..])
  }

  function Quote(s: string): string {
    "\"" + Escaped(s) + "\""
  }

  function HexValue(c: char): (r: Option<nat>)
    ensures r.Some? ==> r.value < 16
  {
    if '0' <= c <= '9' then Some(c as nat - '0' as nat)
    else if 'a' <= c <= 'f' then Some(c as nat - 'a' as nat + 10)
    else if 'A' <= c <= 'F' then Some(c as nat - 'A' as nat + 10)
    else None
  }

  datatype Read<+T> = Read(value: T, rest: string)

  /** One character of a string, RFC 8259, section 7. */
  function ReadChar(s: string): (r: Option<Read<char>>)
    ensures r.Some? ==> |r.value.rest| < |s|
  {
    if s == [] || s[0] == '"' || s[0] as nat < 0x20 then None
    else if s[0] != '\\' then Some(Read(s[0], s[1..]))
    else if |s| < 2 then None
    else if s[1] == '"' then Some(Read('"', s[2..]))
    else if s[1] == '\\' then Some(Read('\\', s[2..]))
    else if s[1] == '/' then Some(Read('/', s[2..]))
    else if s[1] == 'b' then Some(Read('\U{8}', s[2..]))
    else if s[1] == 'f' then Some(Read('\U{C}', s[2..]))
    else if s[1] == 'n' then Some(Read('\n', s[2..]))
    else if s[1] == 'r' then Some(Read('\r', s[2..]))
    else if s[1] == 't' then Some(Read('\t', s[2..]))
    else if s[1] != 'u' || |s| < 6 then None
    else
      var (a, b, c, d) := (HexValue(s[2]), HexValue(s[3]), HexValue(s[4]), HexValue(s[5]));
      if a.None? || b.None? || c.None? || d.None? then None else
      var n := a.value * 4096 + b.value * 256 + c.value * 16 + d.value;
      if 0xD800 <= n < 0xE000 then None else Some(Read(n as char, s[6..]))
  }

  /** The rest of a string after its opening quote. */
  function ReadString(s: string): (r: Option<Read<string>>)
    ensures r.Some? ==> |r.value.rest| < |s|
    decreases |s|
  {
    if s != [] && s[0] == '"' then Some(Read([], s[1..])) else
    var c := ReadChar(s);
    if c.None? then None else
    var tail := ReadString(c.value.rest);
    if tail.None? then None else Some(Read([c.value.value] + tail.value.value, tail.value.rest))
  }

  lemma ReadEscape(c: char, rest: string)
    ensures ReadChar(Escape(c) + rest) == Some(Read(c, rest))
    ensures Escape(c) != [] && Escape(c)[0] != '"'
  {
    var n := c as nat;
    var e := Escape(c);
    var s := e + rest;
    if |e| == 1 {
      assert s[0] == c && s[1..] == rest;
    } else if |e| == 2 {
      assert s[0] == '\\' && s[1] == e[1] && s[2..] == rest;
    } else {
      assert s[0] == '\\' && s[1] == 'u' && s[2] == '0' && s[3] == '0' && s[4] == e[4] && s[5] == e[5] &&
             s[6..] == rest;
      assert HexValue(e[4]) == Some(n / 16) && HexValue(e[5]) == Some(n % 16);
      assert n / 16 * 16 + n % 16 == n;
    }
  }

  lemma {:induction false} ReadQuoted(s: string, rest: string)
    ensures ReadString(Escaped(s) + "\"" + rest) == Some(Read(s, rest))
  {
    hide ReadChar, Escape;
    if s == [] {
      assert Escaped(s) + "\"" + rest == "\"" + rest;
      assert ("\"" + rest)[1..] == rest;
    } else {
      var tail := Escaped(s[1..]) + "\"" + rest;
      ReadQuoted(s[1..], rest);
      ReadEscape(s[0], tail);
      assert Escaped(s) + "\"" + rest == Escape(s[0]) + tail;
      assert s == [s[0]] + s[1..];
    }
  }

  // ----- Numbers -----

  predicate NumberChar(c: char) {
    '0' <= c <= '9' || c == '-' || c == '+' || c == '.' || c == 'e' || c == 'E'
  }

  /** What every rendering of a number looks like. */
  predicate IsNumber(t: string) {
    && t != [] && (t[0] == '-' || '0' <= t[0] <= '9')
    && forall i :: 0 <= i < |t| ==> NumberChar(t[i])
  }

  /** A digit or a minus sign in front, and nothing but the characters of a number. */
  lemma NumberIs(t: string)
    ensures IsNumber(t) <==>
            t != [] && t[0] in "-0123456789" && forall i :: 0 <= i < |t| ==> t[i] in "-+.eE0123456789"
  {}

  function NumberLength(s: string): (n: nat)
    ensures n <= |s|
    ensures forall i :: 0 <= i < n ==> NumberChar(s[i])
  {
    if s != [] && NumberChar(s[0]) then 1 + NumberLength(s[1..]) else 0
  }

  lemma {:induction false} NumberRun(t: string, rest: string)
    requires forall i :: 0 <= i < |t| ==> NumberChar(t[i])
    requires rest == [] || !NumberChar(rest[0])
    ensures NumberLength(t + rest) == |t|
  {
    if t == [] {
      assert t + rest == rest;
    } else {
      NumberRun(t[1..], rest);
      assert (t + rest)[1..] == t[1..] + rest;
    }
  }

  // ----- Sorted keys -----

  predicate Less(a: string, b: string) {
    b != [] && (a == [] || a[0] < b[0] || (a[0] == b[0] && Less(a[1..], b[1..])))
  }

  lemma {:induction false} LessTotal(a: string, b: string)
    ensures Less(a, b) || a == b || Less(b, a)
    ensures !(Less(a, b) && Less(b, a)) && !Less(a, a)
  {
    if a != [] && b != [] {
      LessTotal(a[1..], b[1..]);
      if a[0] == b[0] && a[1..] == b[1..] {
        assert a == [a[0]] + a[1..] == b;
      }
    }
    if a != [] {
      LessTotal(a[1..], a[1..]);
    }
  }

  lemma {:induction false} LessTransitive(a: string, b: string, c: string)
    requires Less(a, b) && Less(b, c)
    ensures Less(a, c)
  {
    if a != [] && a[0] == b[0] == c[0] {
      LessTransitive(a[1..], b[1..], c[1..]);
    }
  }

  ghost predicate Sorted(keys: seq<string>) {
    forall i, j :: 0 <= i < j < |keys| ==> Less(keys[i], keys[j])
  }

  /** A key already there stays single; the keys of a map are distinct anyway. */
  function Insert(keys: seq<string>, k: string): seq<string> {
    if keys == [] then [k]
    else if k == keys[0] then keys
    else if Less(k, keys[0]) then [k] + keys
    else [keys[0]] + Insert(keys[1..], k)
  }

  function SortedKeys(fields: seq<Field>): seq<string> {
    if fields == [] then [] else Insert(SortedKeys(fields[1..]), fields[0].key)
  }

  predicate HasKey(fields: seq<Field>, k: string) {
    fields != [] && (fields[0].key == k || HasKey(fields[1..], k))
  }

  function KeyIndex(fields: seq<Field>, k: string): (i: nat)
    requires HasKey(fields, k)
    ensures i < |fields| && fields[i].key == k
  {
    if fields[0].key == k then 0 else 1 + KeyIndex(fields[1..], k)
  }

  function Get(fields: seq<Field>, k: string): Json
    requires HasKey(fields, k)
  {
    fields[KeyIndex(fields, k)].value
  }

  /** The string under `key`, when the value is an object and has one. */
  function StringAt(v: Json, key: string): Option<string> {
    if v.Object? && HasKey(v.fields, key) && Get(v.fields, key).String? then Some(Get(v.fields, key).s) else None
  }

  lemma {:induction false} InsertSorted(keys: seq<string>, k: string)
    requires Sorted(keys)
    ensures Sorted(Insert(keys, k))
    ensures forall x :: x in Insert(keys, k) <==> x in keys || x == k
  {
    hide Less;
    if keys != [] {
      LessTotal(k, keys[0]);
      if Less(k, keys[0]) {
        forall i | 0 < i < |keys|
          ensures Less(k, keys[i])
        {
          LessTransitive(k, keys[0], keys[i]);
        }
      } else if k != keys[0] {
        InsertSorted(keys[1..], k);
        var rest := Insert(keys[1..], k);
        forall i | 0 <= i < |rest|
          ensures Less(keys[0], rest[i])
        {
          assert rest[i] in rest;
        }
      }
    }
  }

  lemma {:induction false} SortedKeysAre(fields: seq<Field>)
    ensures Sorted(SortedKeys(fields))
    ensures forall k :: k in SortedKeys(fields) <==> HasKey(fields, k)
  {
    hide Sorted;
    if fields == [] {
      EmptySorted();
    } else {
      SortedKeysAre(fields[1..]);
      InsertSorted(SortedKeys(fields[1..]), fields[0].key);
    }
  }

  lemma EmptySorted()
    ensures Sorted([])
  {}

  /** A set of keys has one sorted order. */
  lemma {:induction false} SortedUnique(a: seq<string>, b: seq<string>)
    requires Sorted(a) && Sorted(b) && forall k :: k in a <==> k in b
    ensures a == b
  {
    hide Less;
    assert a != [] ==> a[0] in b;
    assert b != [] ==> b[0] in a;
    if a != [] && b != [] {
      LessTotal(a[0], b[0]);
      assert a[0] in b && b[0] in a;
      assert a[0] == b[0];
      forall k
        ensures k in a[1..] <==> k in b[1..]
      {
        LessTotal(k, a[0]);
        assert k in a <==> k == a[0] || k in a[1..];
        assert k in b <==> k == b[0] || k in b[1..];
        assert a[0] !in a[1..] && b[0] !in b[1..] by { LessTotal(a[0], a[0]); }
      }
      SortedUnique(a[1..], b[1..]);
    }
  }

  // ----- The canonical writer -----

  function Canon(v: Json): string
    decreases v, 1, 0
  {
    match v
    case Null => "null"
    case Bool(b) => if b then "true" else "false"
    case Number(text) => text
    case String(s) => Quote(s)
    case Array(items) => "[" + CanonItems(items) + "]"
    case Object(fields) =>
      assert forall k :: k in SortedKeys(fields) ==> HasKey(fields, k) by { SortedKeysAre(fields); }
      "{" + CanonMembers(fields, SortedKeys(fields)) + "}"
  }

  function CanonItems(items: seq<Json>): string
    decreases items, 0, 0
  {
    if items == [] then []
    else if |items| == 1 then Canon(items[0])
    else Canon(items[0]) + "," + CanonItems(items[1..])
  }

  function CanonMembers(fields: seq<Field>, keys: seq<string>): string
    requires forall k :: k in keys ==> HasKey(fields, k)
    decreases fields, 0, |keys|
  {
    if keys == [] then [] else
    var member := Quote(keys[0]) + ":" + Canon(Get(fields, keys[0]));
    if |keys| == 1 then member else member + "," + CanonMembers(fields, keys[1..])
  }

  // ----- The reader -----

  function Parse(s: string): (r: Option<Read<Json>>)
    ensures r.Some? ==> |r.value.rest| < |s|
    decreases |s|, 1
  {
    if s == [] then None
    else if s[0] == '"' then
      var t := ReadString(s[1..]);
      if t.None? then None else Some(Read(String(t.value.value), t.value.rest))
    else if s[0] == '[' then
      if |s| > 1 && s[1] == ']' then Some(Read(Array([]), s[2..])) else
      var t := ParseItems(s[1..]);
      if t.None? then None else Some(Read(Array(t.value.value), t.value.rest))
    else if s[0] == '{' then
      if |s| > 1 && s[1] == '}' then Some(Read(Object([]), s[2..])) else
      var t := ParseMembers(s[1..]);
      if t.None? then None else Some(Read(Object(t.value.value), t.value.rest))
    else if s[0] == '-' || '0' <= s[0] <= '9' then
      Some(Read(Number(s[..NumberLength(s)]), s[NumberLength(s)..]))
    else if StartsWith(s, "null") then Some(Read(Null, s[4..]))
    else if StartsWith(s, "true") then Some(Read(Bool(true), s[4..]))
    else if StartsWith(s, "false") then Some(Read(Bool(false), s[5..]))
    else None
  }

  /** One or more items and the closing bracket. */
  function ParseItems(s: string): (r: Option<Read<seq<Json>>>)
    ensures r.Some? ==> |r.value.rest| < |s|
    decreases |s|, 2
  {
    var v := Parse(s);
    if v.None? || v.value.rest == [] then None
    else if v.value.rest[0] == ']' then Some(Read([v.value.value], v.value.rest[1..]))
    else if v.value.rest[0] != ',' then None
    else
      var tail := ParseItems(v.value.rest[1..]);
      if tail.None? then None else Some(Read([v.value.value] + tail.value.value, tail.value.rest))
  }

  /** One or more members and the closing brace. */
  function ParseMembers(s: string): (r: Option<Read<seq<Field>>>)
    ensures r.Some? ==> |r.value.rest| < |s|
    decreases |s|, 2
  {
    if s == [] || s[0] != '"' then None else
    var k := ReadString(s[1..]);
    if k.None? || k.value.rest == [] || k.value.rest[0] != ':' then None else
    var v := Parse(k.value.rest[1..]);
    if v.None? || v.value.rest == [] then None
    else if v.value.rest[0] == '}' then Some(Read([Field(k.value.value, v.value.value)], v.value.rest[1..]))
    else if v.value.rest[0] != ',' then None
    else
      var tail := ParseMembers(v.value.rest[1..]);
      if tail.None? then None else Some(Read([Field(k.value.value, v.value.value)] + tail.value.value, tail.value.rest))
  }

  // ----- Values up to the order of object members -----

  /** The value with the members of every object sorted. */
  function Normal(v: Json): Json
    decreases v, 1, 0
  {
    match v
    case Array(items) => Array(NormalItems(items))
    case Object(fields) =>
      assert forall k :: k in SortedKeys(fields) ==> HasKey(fields, k) by { SortedKeysAre(fields); }
      Object(NormalMembers(fields, SortedKeys(fields)))
    case _ => v
  }

  function NormalItems(items: seq<Json>): (r: seq<Json>)
    ensures |r| == |items|
    decreases items, 0, 0
  {
    if items == [] then [] else [Normal(items[0])] + NormalItems(items[1..])
  }

  function NormalMembers(fields: seq<Field>, keys: seq<string>): (r: seq<Field>)
    requires forall k :: k in keys ==> HasKey(fields, k)
    ensures |r| == |keys|
    decreases fields, 0, |keys|
  {
    if keys == [] then [] else [Field(keys[0], Normal(Get(fields, keys[0])))] + NormalMembers(fields, keys[1..])
  }

  /** Equal values, object members in any order. */
  ghost predicate Same(v: Json, w: Json)
    decreases v
  {
    match v
    case Array(items) => w.Array? && |items| == |w.items| && forall i :: 0 <= i < |items| ==> Same(items[i], w.items[i])
    case Object(fields) =>
      && w.Object?
      && (forall k :: HasKey(fields, k) <==> HasKey(w.fields, k))
      && (forall k :: HasKey(fields, k) ==> Same(Get(fields, k), Get(w.fields, k)))
    case _ => v == w
  }

  /** Every number is rendered as one. */
  predicate Valid(v: Json) {
    match v
    case Number(text) => IsNumber(text)
    case Array(items) => forall i :: 0 <= i < |items| ==> Valid(items[i])
    case Object(fields) => forall i :: 0 <= i < |fields| ==> Valid(fields[i].value)
    case _ => true
  }

  lemma ValidIs(v: Json)
    ensures Valid(v) <==>
            && (v.Number? ==> IsNumber(v.text))
            && (v.Array? ==> forall i :: 0 <= i < |v.items| ==> Valid(v.items[i]))
            && (v.Object? ==> forall i :: 0 <= i < |v.fields| ==> Valid(v.fields[i].value))
  {}

  // ----- The reader undoes the writer -----

  predicate Terminated(rest: string) {
    rest == [] || !NumberChar(rest[0])
  }

  lemma CanonFirst(v: Json)
    requires Valid(v)
    ensures Canon(v) != [] && Canon(v)[0] != ']' && Canon(v)[0] != '}'
  {
    hide Escaped, CanonItems, CanonMembers;
  }

  lemma ParseLiteral(rest: string)
    ensures Parse("null" + rest) == Some(Read(Null, rest))
    ensures Parse("true" + rest) == Some(Read(Bool(true), rest))
    ensures Parse("false" + rest) == Some(Read(Bool(false), rest))
  {
    hide ReadString, ParseItems, ParseMembers, NumberLength;
    var n, t, f := "null" + rest, "true" + rest, "false" + rest;
    assert n[..4] == "null" && n[4..] == rest;
    assert t[..4] == "true" && t[4..] == rest && t[0] == 't';
    assert f[..5] == "false" && f[5..] == rest && f[0] == 'f';
  }

  lemma ParseNumber(text: string, rest: string)
    requires IsNumber(text) && Terminated(rest)
    ensures Parse(text + rest) == Some(Read(Number(text), rest))
  {
    hide ReadString, ParseItems, ParseMembers, NumberLength;
    var s := text + rest;
    NumberRun(text, rest);
    assert s[0] == text[0] && s[..|text|] == text && s[|text|..] == rest;
  }

  lemma ParseQuoted(t: string, rest: string)
    ensures Parse(Quote(t) + rest) == Some(Read(String(t), rest))
  {
    hide ReadString, ParseItems, ParseMembers, NumberLength, Escaped;
    ReadQuoted(t, rest);
    assert (Quote(t) + rest)[1..] == Escaped(t) + "\"" + rest;
  }

  lemma ParseArray(text: string, rest: string)
    requires text == [] || text[0] != ']'
    ensures Parse("[" + text + "]" + rest) ==
            if text == [] then Some(Read(Array([]), rest)) else
            var t := ParseItems(text + "]" + rest);
            if t.None? then None else Some(Read(Array(t.value.value), t.value.rest))
  {
    hide ReadString, ParseItems, ParseMembers, NumberLength;
    var s := "[" + text + "]" + rest;
    assert s[1..] == text + "]" + rest;
    assert text == [] ==> s[2..] == rest;
  }

  lemma ParseObject(text: string, rest: string)
    requires text == [] || text[0] != '}'
    ensures Parse("{" + text + "}" + rest) ==
            if text == [] then Some(Read(Object([]), rest)) else
            var t := ParseMembers(text + "}" + rest);
            if t.None? then None else Some(Read(Object(t.value.value), t.value.rest))
  {
    hide ReadString, ParseItems, ParseMembers, NumberLength;
    var s := "{" + text + "}" + rest;
    assert s[1..] == text + "}" + rest;
    assert text == [] ==> s[2..] == rest;
  }

  /** Whatever follows, the canonical text of a value reads back as that value with its members sorted. */
  lemma {:induction false} ParseCanon(v: Json, rest: string)
    requires Valid(v) && Terminated(rest)
    ensures Parse(Canon(v) + rest) == Some(Read(Normal(v), rest))
    decreases v, 1, 0
  {
    hide Parse, ParseItems, ParseMembers, Quote, CanonItems, CanonMembers, NormalItems, NormalMembers;
    match v
    case Null => ParseLiteral(rest);
    case Bool(b) => ParseLiteral(rest);
    case Number(text) => ParseNumber(text, rest);
    case String(t) => ParseQuoted(t, rest);
    case Array(items) =>
      ItemsFirst(items);
      ParseArray(CanonItems(items), rest);
      if items != [] {
        ParseCanonItems(items, rest);
      }
    case Object(fields) =>
      SortedKeysAre(fields);
      var keys := SortedKeys(fields);
      MembersFirst(fields, keys);
      ParseObject(CanonMembers(fields, keys), rest);
      if keys != [] {
        ParseCanonMembers(fields, keys, rest);
      }
  }

  lemma ItemsFirst(items: seq<Json>)
    requires forall i :: 0 <= i < |items| ==> Valid(items[i])
    ensures if items == [] then CanonItems(items) == [] && NormalItems(items) == []
            else CanonItems(items) != [] && CanonItems(items)[0] != ']'
  {
    hide Canon;
    if items != [] {
      CanonFirst(items[0]);
    }
  }

  lemma MembersFirst(fields: seq<Field>, keys: seq<string>)
    requires forall k :: k in keys ==> HasKey(fields, k)
    ensures if keys == [] then CanonMembers(fields, keys) == [] && NormalMembers(fields, keys) == []
            else CanonMembers(fields, keys) != [] && CanonMembers(fields, keys)[0] == '"'
  {
    hide Canon, Escaped;
  }

  lemma {:induction false} ParseCanonItems(items: seq<Json>, rest: string)
    requires items != [] && forall i :: 0 <= i < |items| ==> Valid(items[i])
    ensures ParseItems(CanonItems(items) + "]" + rest) == Some(Read(NormalItems(items), rest))
    decreases items, 0, 0
  {
    hide Parse, Canon, Normal;
    var tail := if |items| == 1 then "]" + rest else "," + (CanonItems(items[1..]) + "]" + rest);
    assert CanonItems(items) + "]" + rest == Canon(items[0]) + tail;
    ParseCanon(items[0], tail);
    if |items| == 1 {
      assert tail[1..] == rest;
      assert NormalItems(items) == [Normal(items[0])];
    } else {
      assert tail[1..] == CanonItems(items[1..]) + "]" + rest;
      ParseCanonItems(items[1..], rest);
    }
  }

  lemma {:induction false} ParseCanonMembers(fields: seq<Field>, keys: seq<string>, rest: string)
    requires keys != [] && forall k :: k in keys ==> HasKey(fields, k)
    requires forall i :: 0 <= i < |fields| ==> Valid(fields[i].value)
    ensures ParseMembers(CanonMembers(fields, keys) + "}" + rest) == Some(Read(NormalMembers(fields, keys), rest))
    decreases fields, 0, |keys|
  {
    hide Parse, Canon, Normal, Quote, ParseMembers;
    var k, v := keys[0], Get(fields, keys[0]);
    var more := if |keys| == 1 then [] else CanonMembers(fields, keys[1..]);
    var tail := if |keys| == 1 then "}" + rest else "," + (more + "}" + rest);
    assert CanonMembers(fields, keys) + "}" + rest == Quote(k) + ":" + Canon(v) + tail;
    assert tail[1..] == if |keys| == 1 then rest else more + "}" + rest;
    ParseCanon(v, tail);
    ParseMember(k, Canon(v), tail);
    if |keys| == 1 {
      assert NormalMembers(fields, keys) == [Field(k, Normal(v))];
    } else {
      ParseCanonMembers(fields, keys[1..], rest);
    }
  }

  /** One member and what follows it. */
  lemma ParseMember(k: string, value: string, tail: string)
    requires Parse(value + tail).Some? && Parse(value + tail).value.rest == tail
    requires tail != [] && (tail[0] == '}' || tail[0] == ',')
    ensures var f := Field(k, Parse(value + tail).value.value);
            ParseMembers(Quote(k) + ":" + value + tail) ==
            if tail[0] == '}' then Some(Read([f], tail[1..]))
            else if ParseMembers(tail[1..]).None? then None
            else Some(Read([f] + ParseMembers(tail[1..]).value.value, ParseMembers(tail[1..]).value.rest))
  {
    hide Parse, ReadString, Escaped;
    var s := Quote(k) + ":" + value + tail;
    assert s[0] == '"' && s[1..] == Escaped(k) + "\"" + (":" + (value + tail));
    ReadQuoted(k, ":" + (value + tail));
    assert (":" + (value + tail))[1..] == value + tail;
  }

  // ----- Canonical text and equality up to member order -----

  lemma {:induction false} NormalEqual(v: Json, w: Json)
    requires Normal(v) == Normal(w)
    ensures Same(v, w)
    decreases v
  {
    match v
    case Array(items) =>
      forall i | 0 <= i < |items|
        ensures Same(items[i], w.items[i])
      {
        NormalItemsAt(items, i);
        NormalItemsAt(w.items, i);
        NormalEqual(items[i], w.items[i]);
      }
    case Object(fields) =>
      var a, b := SortedKeys(fields), SortedKeys(w.fields);
      SortedKeysAre(fields);
      SortedKeysAre(w.fields);
      NormalKeys(fields, a);
      NormalKeys(w.fields, b);
      assert a == b;
      forall k | HasKey(fields, k)
        ensures Same(Get(fields, k), Get(w.fields, k))
      {
        var i :| 0 <= i < |a| && a[i] == k;
        NormalMembersAt(fields, a, i);
        NormalMembersAt(w.fields, b, i);
        NormalEqual(Get(fields, k), Get(w.fields, k));
      }
    case _ =>
  }

  lemma {:induction false} NormalItemsAt(items: seq<Json>, i: nat)
    requires i < |items|
    ensures NormalItems(items)[i] == Normal(items[i])
  {
    hide Normal;
    if i > 0 {
      NormalItemsAt(items[1..], i - 1);
    }
  }

  lemma {:induction false} NormalMembersAt(fields: seq<Field>, keys: seq<string>, i: nat)
    requires i < |keys| && forall k :: k in keys ==> HasKey(fields, k)
    ensures NormalMembers(fields, keys)[i] == Field(keys[i], Normal(Get(fields, keys[i])))
    decreases |keys|
  {
    hide Normal;
    if i > 0 {
      NormalMembersAt(fields, keys[1..], i - 1);
    }
  }

  lemma NormalKeys(fields: seq<Field>, keys: seq<string>)
    requires forall k :: k in keys ==> HasKey(fields, k)
    ensures forall i :: 0 <= i < |keys| ==> NormalMembers(fields, keys)[i].key == keys[i]
  {
    forall i | 0 <= i < |keys|
      ensures NormalMembers(fields, keys)[i].key == keys[i]
    {
      NormalMembersAt(fields, keys, i);
    }
  }

  lemma {:induction false} SameCanon(v: Json, w: Json)
    requires Same(v, w)
    ensures Canon(v) == Canon(w)
    decreases v, 1, 0
  {
    match v
    case Array(items) => SameItems(items, w.items);
    case Object(fields) =>
      SortedKeysAre(fields);
      SortedKeysAre(w.fields);
      SortedUnique(SortedKeys(fields), SortedKeys(w.fields));
      SameMembers(fields, w.fields, SortedKeys(fields));
    case _ =>
  }

  lemma {:induction false} SameItems(a: seq<Json>, b: seq<Json>)
    requires |a| == |b| && forall i :: 0 <= i < |a| ==> Same(a[i], b[i])
    ensures CanonItems(a) == CanonItems(b)
    decreases a, 0, 0
  {
    hide Canon;
    if a != [] {
      SameCanon(a[0], b[0]);
      SameItems(a[1..], b[1..]);
    }
  }

  lemma {:induction false} SameMembers(f: seq<Field>, g: seq<Field>, keys: seq<string>)
    requires forall k :: k in keys ==> HasKey(f, k) && HasKey(g, k) && Same(Get(f, k), Get(g, k))
    ensures CanonMembers(f, keys) == CanonMembers(g, keys)
    decreases f, 0, |keys|
  {
    hide Canon;
    if keys != [] {
      SameCanon(Get(f, keys[0]), Get(g, keys[0]));
      SameMembers(f, g, keys[1..]);
    }
  }

  /** Two values have the same canonical text exactly when they differ at most in the order of object members. */
  lemma CanonEqualIff(v: Json, w: Json)
    requires Valid(v) && Valid(w)
    ensures Canon(v) == Canon(w) <==> Same(v, w)
  {
    hide Canon, Parse, Same, Normal;
    if Same(v, w) {
      SameCanon(v, w);
    }
    if Canon(v) == Canon(w) {
      ParseCanon(v, []);
      ParseCanon(w, []);
      NormalEqual(v, w);
    }
  }

  // ----- The details of the canonical form -----

  /** The order of keys: at the first place where they differ, the lesser character, or the end of the key. */
  lemma {:induction false} LessIs(a: string, b: string)
    ensures Less(a, b) <==>
            exists k :: 0 <= k <= |a| && k < |b| && a[..k] == b[..k] && (k == |a| || a[k] < b[k])
  {
    if a != [] && b != [] {
      LessIs(a[1..], b[1..]);
      assert a[..0] == b[..0];
      forall k | 0 < k <= |a| && k < |b|
        ensures a[..k] == b[..k] <==> a[0] == b[0] && a[1..][..k - 1] == b[1..][..k - 1]
      {
        assert a[..k] == [a[0]] + a[1..][..k - 1] && b[..k] == [b[0]] + b[1..][..k - 1];
      }
      if a[0] == b[0] && Less(a[1..], b[1..]) {
        var p, q := a[1..], b[1..];
        var k :| 0 <= k <= |p| && k < |q| && p[..k] == q[..k] && (k == |p| || p[k] < q[k]);
        assert a[..k + 1] == b[..k + 1] && (k + 1 == |a| || a[k + 1] < b[k + 1]);
      }
    } else if b != [] {
      assert a[..0] == b[..0];
    }
  }

  /** Which characters are escaped, and how: two of them and five controls by a letter, the other controls by four
      lower-case hexadecimal digits, nothing else. */
  lemma EscapeIs(c: char)
    ensures Escape(c) ==
            if c == '"' then ['\\', '"'] else if c == '\\' then ['\\', '\\']
            else if c as int == 8 then ['\\', 'b'] else if c as int == 9 then ['\\', 't']
            else if c as int == 10 then ['\\', 'n']
            else if c as int == 12 then ['\\', 'f'] else if c as int == 13 then ['\\', 'r']
            else if c as int < 32 then
              ['\\', 'u', '0', '0', if c as int < 16 then '0' else '1', "0123456789abcdef"[c as int % 16]]
            else [c]
  {
    HexDigitIs(c as nat % 16);
    if c as int < 32 {
      HexDigitIs(c as nat / 16);
    }
  }

  lemma HexDigitIs(n: nat)
    requires n < 16
    ensures HexDigit(n) == "0123456789abcdef"[n]
  {}

  /** The string under a key is that of the first member with the key. */
  lemma StringAtIs(v: Json, key: string, x: string)
    ensures StringAt(v, key) == Some(x) <==>
            v.Object? && exists i :: 0 <= i < |v.fields| && v.fields[i] == Field(key, String(x)) &&
                           forall j :: 0 <= j < i ==> v.fields[j].key != key
  {
    if v.Object? {
      KeyIndexIs(v.fields, key);
    }
  }

  lemma {:induction false} KeyIndexIs(fields: seq<Field>, key: string)
    ensures HasKey(fields, key) <==> exists i :: 0 <= i < |fields| && fields[i].key == key
    ensures HasKey(fields, key) ==> forall j :: 0 <= j < KeyIndex(fields, key) ==> fields[j].key != key
  {
    if fields != [] {
      KeyIndexIs(fields[1..], key);
      if HasKey(fields[1..], key) {
        var i := KeyIndex(fields[1..], key);
        assert fields[i + 1].key == key;
      }
    }
  }
}
