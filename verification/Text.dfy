/** The parts of the standard string library that the text walkers use. */
module Text {

  /** The Unicode White_Space property. */
  predicate IsWhitespace(c: char) {
    || '\t' <= c <= '\r' || c == ' ' || c == '\U{85}' || c == '\U{A0}' || c == '\U{1680}'
    || '\U{2000}' <= c <= '\U{200A}' || c == '\U{2028}' || c == '\U{2029}' || c == '\U{202F}'
    || c == '\U{205F}' || c == '\U{3000}'
  }

  predicate StartsWith(s: string, prefix: string) {
    |prefix| <= |s| && s[..|prefix|] == prefix
  }

  function TrimStart(s: string): (t: string)
    ensures |t| <= |s| && t == s[|s| - |t|..]
    ensures t == [] || !IsWhitespace(t[0])
  {
    if s == [] || !IsWhitespace(s[0]) then s else TrimStart(s[1..])
  }

  function TrimEnd(s: string): (t: string)
    ensures t <= s
    ensures t == [] || !IsWhitespace(t[|t| - 1])
  {
    if s == [] || !IsWhitespace(s[|s| - 1]) then s else TrimEnd(s[..|s| - 1])
  }

  function Trim(s: string): string {
    TrimEnd(TrimStart(s))
  }

  /** The index of the first line feed at or after `i`, or the end of the text. */
  function LineEnd(s: string, i: nat): (j: nat)
    requires i <= |s|
    ensures i <= j <= |s|
    ensures forall k :: i <= k < j ==> s[k] != '\n'
    ensures j < |s| ==> s[j] == '\n'
    decreases |s| - i
  {
    if i == |s| || s[i] == '\n' then i else LineEnd(s, i + 1)
  }

  /** A line feed ends a line, together with a carriage return right before it; text after the last line
      feed is a line of its own when it is not empty. */
  function Lines(s: string): (lines: seq<string>)
    decreases |s|
  {
    if s == [] then [] else
    var j := LineEnd(s, 0);
    if j == |s| then [s]
    else [if j > 0 && s[j - 1] == '\r' then s[..j - 1] else s[..j]] + Lines(s[j + 1..])
  }

  // ----- What splitting and trimming do -----

  lemma LineEndIs(s: string, i: nat, k: nat)
    requires i <= k <= |s| && (forall x :: i <= x < k ==> s[x] != '\n') && (k == |s| || s[k] == '\n')
    ensures LineEnd(s, i) == k
  {}

  /** The first line goes up to the first line feed, less one carriage return; what follows is split alike. */
  lemma LinesFirst(a: string, b: string)
    requires '\n' !in a
    ensures Lines(a + "\n" + b) ==
            [if a != [] && a[|a| - 1] == '\r' then a[..|a| - 1] else a] + Lines(b)
  {
    var s := a + "\n" + b;
    LineEndIs(s, 0, |a|);
    assert s[..|a|] == a && s[|a| + 1..] == b;
    assert a != [] ==> s[..|a| - 1] == a[..|a| - 1];
  }

  /** Text without a line feed is one line, or none. */
  lemma LinesLast(a: string)
    requires '\n' !in a
    ensures Lines(a) == if a == [] then [] else [a]
  {
    LineEndIs(a, 0, |a|);
  }

  /** The ASCII characters that count as white space. */
  lemma AsciiWhitespace(c: char)
    requires c as int < 128
    ensures IsWhitespace(c) <==> c as int == 32 || 9 <= c as int <= 13
  {}

  /** The twenty-five characters of the property. */
  lemma WhitespaceIs(c: char)
    ensures IsWhitespace(c) <==>
            c as int in {9, 10, 11, 12, 13, 32, 0x85, 0xA0, 0x1680, 0x2000, 0x2001, 0x2002, 0x2003, 0x2004, 0x2005,
              0x2006, 0x2007, 0x2008, 0x2009, 0x200A, 0x2028, 0x2029, 0x202F, 0x205F, 0x3000}
  {}

  /** All of the text is white space. */
  predicate Blank(s: string) {
    forall i :: 0 <= i < |s| ==> IsWhitespace(s[i])
  }

  lemma {:induction false} TrimStartIs(before: string, t: string)
    requires Blank(before)
    requires t == [] || !IsWhitespace(t[0])
    ensures TrimStart(before + t) == t
  {
    if before == [] {
      assert before + t == t;
    } else {
      assert (before + t)[1..] == before[1..] + t;
      TrimStartIs(before[1..], t);
    }
  }

  lemma {:induction false} TrimEndIs(t: string, after: string)
    requires Blank(after)
    requires t == [] || !IsWhitespace(t[|t| - 1])
    ensures TrimEnd(t + after) == t
  {
    var n := |after| - 1;
    if after == [] {
      assert t + after == t;
    } else {
      assert (t + after)[..|t| + n] == t + after[..n];
      TrimEndIs(t, after[..n]);
    }
  }

  /** Trimming takes off the white space around a text, all of it and nothing else. */
  lemma TrimIs(before: string, t: string, after: string)
    requires Blank(before)
    requires Blank(after)
    requires t == [] || (!IsWhitespace(t[0]) && !IsWhitespace(t[|t| - 1]))
    ensures Trim(before + t + after) == t
  {
    if t == [] {
      assert before + t + after == (before + after) + [];
      TrimStartIs(before + after, []);
      assert TrimEnd([]) == [];
    } else {
      assert before + t + after == before + (t + after);
      TrimStartIs(before, t + after);
      TrimEndIs(t, after);
    }
  }

  lemma {:induction false} TrimStartDrops(s: string)
    ensures forall i :: 0 <= i < |s| - |TrimStart(s)| ==> IsWhitespace(s[i])
  {
    hide IsWhitespace;
    if s != [] && IsWhitespace(s[0]) {
      TrimStartDrops(s[1..]);
    }
  }

  lemma {:induction false} TrimEndDrops(s: string)
    ensures forall i :: |TrimEnd(s)| <= i < |s| ==> IsWhitespace(s[i])
  {
    hide IsWhitespace;
    if s != [] && IsWhitespace(s[|s| - 1]) {
      TrimEndDrops(s[..|s| - 1]);
    }
  }

  lemma TrimStartSplits(s: string) returns (before: string)
    ensures s == before + TrimStart(s) && Blank(before)
  {
    hide IsWhitespace;
    TrimStartDrops(s);
    before := s[..|s| - |TrimStart(s)|];
  }

  lemma TrimEndSplits(s: string) returns (after: string)
    ensures s == TrimEnd(s) + after && Blank(after)
  {
    hide IsWhitespace;
    TrimEndDrops(s);
    after := s[|TrimEnd(s)|..];
  }

  /** A text is the white space that trimming takes off, with what is left in between. */
  lemma TrimSplits(s: string) returns (before: string, after: string)
    ensures s == before + Trim(s) + after && Blank(before) && Blank(after)
  {
    hide Blank, TrimStart, TrimEnd;
    before := TrimStartSplits(s);
    after := TrimEndSplits(TrimStart(s));
  }

  /** Nothing is left exactly of a text that is all white space. */
  lemma TrimNothingIff(s: string)
    ensures Trim(s) == [] <==> Blank(s)
  {
    hide IsWhitespace, TrimStart, TrimEnd;
    if Blank(s) {
      TrimIs(s, [], []);
      assert s + [] + [] == s;
    } else {
      var before, after := TrimSplits(s);
    }
  }

  /** A text starts with a prefix exactly when it is the prefix and something behind it. */
  lemma StartsWithIff(s: string, prefix: string)
    ensures StartsWith(s, prefix) <==> exists rest :: s == prefix + rest
  {
    if StartsWith(s, prefix) {
      assert s == prefix + s[|prefix|..];
    }
  }
}
