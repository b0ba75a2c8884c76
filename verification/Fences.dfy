/** The fence scanner: byte cursors over the text, proved against a grammar of lines. */
module Fences {
  import opened Option
  import opened Text

  datatype Range = Range(start: nat, end: nat)
  datatype Kind = Fence(language: Option<string>) | Xml(tag: string) | ToolBody
  datatype Region = Region(range: Range, kind: Kind)

  // ----- Lines by position -----

  predicate LineStart(s: string, i: nat) {
    i <= |s| && (i == 0 || s[i - 1] == '\n')
  }

  /** The start of the line after the one at `i`, or the end of the text. */
  function NextLine(s: string, i: nat): (j: nat)
    requires i < |s|
    ensures i < j <= |s|
    ensures j == |s| || LineStart(s, j)
    ensures forall k :: i < k < j ==> !LineStart(s, k)
  {
    var e := LineEnd(s, i);
    if e < |s| then e + 1 else e
  }

  /** Past the spaces and tabs at `i`. */
  function SkipBlanks(s: string, i: nat): (j: nat)
    requires i <= |s|
    ensures i <= j <= |s|
    ensures forall k :: i <= k < j ==> s[k] == ' ' || s[k] == '\t'
    ensures j < |s| ==> s[j] != ' ' && s[j] != '\t'
    decreases |s| - i
  {
    if i < |s| && (s[i] == ' ' || s[i] == '\t') then SkipBlanks(s, i + 1) else i
  }

  /** Past the run of `ch` at `i`. */
  function SkipRun(s: string, i: nat, ch: char): (j: nat)
    requires i <= |s|
    ensures i <= j <= |s|
    ensures forall k :: i <= k < j ==> s[k] == ch
    ensures j < |s| ==> s[j] != ch
    decreases |s| - i
  {
    if i < |s| && s[i] == ch then SkipRun(s, i + 1, ch) else i
  }

  // ----- The grammar -----

  datatype Opener = Opener(ch: char, len: nat, info: string)

  /** A fence opens on three or more backticks or tildes behind blanks; the rest of the line is its info string. */
  function OpenerAt(s: string, i: nat): Option<Opener>
    requires i < |s|
  {
    var j := SkipBlanks(s, i);
    if j == |s| || (s[j] != '`' && s[j] != '~') then None else
    var k := SkipRun(s, j, s[j]);
    if k - j < 3 then None else Some(Opener(s[j], k - j, Trim(s[k..LineEnd(s, k)])))
  }

  /** A fence closes on at least as many of its own character, with nothing but white space behind. */
  predicate ClosesAt(s: string, i: nat, ch: char, len: nat)
    requires i < |s|
  {
    var j := SkipBlanks(s, i);
    && j < |s| && s[j] == ch
    && var k := SkipRun(s, j, ch);
    && k - j >= len
    && Trim(s[k..LineEnd(s, k)]) == []
  }

  /** Where the first closing line at or after the line at `i` ends. */
  function CloserFrom(s: string, i: nat, ch: char, len: nat): (r: Option<nat>)
    requires i <= |s|
    ensures r.Some? ==> i < r.value <= |s|
    decreases |s| - i
  {
    if i == |s| then None
    else if ClosesAt(s, i, ch, len) then Some(NextLine(s, i))
    else CloserFrom(s, NextLine(s, i), ch, len)
  }

  function Language(info: string): Option<string> {
    if info == [] then None else Some(info)
  }

  lemma LanguageIs(info: string)
    ensures Language("") == None
    ensures info != "" ==> Language(info) == Some(info)
  {}

  /** The blocks from the line at `i` on.  A fence that is never closed ends the scan. */
  function FencesFrom(s: string, i: nat): (r: seq<Region>)
    requires i <= |s|
    decreases |s| - i
  {
    if i == |s| then [] else
    var o := OpenerAt(s, i);
    if o.None? then FencesFrom(s, NextLine(s, i)) else
    var c := CloserFrom(s, NextLine(s, i), o.value.ch, o.value.len);
    if c.None? then []
    else [Region(Range(i, c.value), Fence(Language(o.value.info)))] + FencesFrom(s, c.value)
  }

  // ----- The scanner -----

  /** `find('\n')` on the text from `i`. */
  function FindNewline(s: string, i: nat): (r: Option<nat>)
    requires i <= |s|
  {
    var e := LineEnd(s, i);
    if e < |s| then Some(e - i) else None
  }

  method FindFenceCloser(content: string, from: nat, ch: char, markerLen: nat) returns (r: Option<Range>)
    requires from <= |content| && (ch == '`' || ch == '~')
    ensures (if r.Some? then Some(r.value.end) else None) == CloserFrom(content, from, ch, markerLen)
    ensures r.Some? ==>
              && from <= r.value.start < r.value.end <= |content|
              && ClosesAt(content, r.value.start, ch, markerLen) && r.value.end == NextLine(content, r.value.start)
  {
    hide Trim, LineEnd, FindNewline, NextLine, ClosesAt, CloserFrom;
    var i := from;
    while i < |content|
      invariant from <= i <= |content|
      invariant CloserFrom(content, i, ch, markerLen) == CloserFrom(content, from, ch, markerLen)
    {
      CloserUnfold(content, i, ch, markerLen);
      var lineStart := i;
      var j := lineStart;
      while j < |content| && (content[j] == ' ' || content[j] == '\t')
        invariant lineStart <= j <= |content|
        invariant SkipBlanks(content, j) == SkipBlanks(content, lineStart)
      {
        j := j + 1;
      }
      ghost var k0 := SkipRun(content, j, ch);
      ClosesByCursor(content, i, ch, markerLen);
      if j < |content| && content[j] == ch {
        var k := j;
        while k < |content| && content[k] == ch
          invariant j <= k <= |content|
          invariant SkipRun(content, k, ch) == k0
        {
          k := k + 1;
        }
        if k - j >= markerLen {
          var lineEnd := LineEnd(content, k);
          if Trim(content[k..lineEnd]) == [] {
            var end := if lineEnd < |content| then lineEnd + 1 else lineEnd;
            return Some(Range(lineStart, end));
          }
        }
      }
      NextByFind(content, i);
      var nl := FindNewline(content, i);
      if nl.None? {
        CloserUnfold(content, |content|, ch, markerLen);
        return None;
      }
      i := i + nl.value + 1;
    }
    CloserUnfold(content, |content|, ch, markerLen);
    return None;
  }

  lemma CloserUnfold(s: string, i: nat, ch: char, len: nat)
    requires i <= |s|
    ensures CloserFrom(s, i, ch, len) ==
            if i == |s| then None
            else if ClosesAt(s, i, ch, len) then Some(NextLine(s, i)) else CloserFrom(s, NextLine(s, i), ch, len)
  {}

  lemma ClosesByCursor(s: string, i: nat, ch: char, len: nat)
    requires i < |s| && (ch == '`' || ch == '~')
    ensures var j := SkipBlanks(s, i);
            var k := SkipRun(s, j, ch);
            && (ClosesAt(s, i, ch, len) <==> j < |s| && s[j] == ch && k - j >= len && Trim(s[k..LineEnd(s, k)]) == [])
            && NextLine(s, i) == if LineEnd(s, k) < |s| then LineEnd(s, k) + 1 else |s|
  {
    hide Trim;
    var j := SkipBlanks(s, i);
    SameLine(s, i, j, SkipRun(s, j, ch), ch);
  }

  lemma NextByFind(s: string, i: nat)
    requires i < |s|
    ensures var nl := FindNewline(s, i);
            if nl.Some? then i + nl.value + 1 == NextLine(s, i) else NextLine(s, i) == |s|
    ensures FindNewline(s, i).Some? ==> i + FindNewline(s, i).value < |s|
  {}

  /** Blanks and fence characters do not leave the line. */
  lemma SameLine(s: string, i: nat, j: nat, k: nat, ch: char)
    requires i <= j <= k <= |s| && ch != '\n'
    requires forall x :: i <= x < j ==> s[x] == ' ' || s[x] == '\t'
    requires forall x :: j <= x < k ==> s[x] == ch
    ensures LineEnd(s, k) == LineEnd(s, i)
  {
    LineEndFrom(s, i, k);
  }

  lemma {:induction false} LineEndFrom(s: string, i: nat, k: nat)
    requires i <= k <= |s| && forall x :: i <= x < k ==> s[x] != '\n'
    ensures LineEnd(s, k) == LineEnd(s, i)
    decreases k - i
  {
    if i < k {
      LineEndFrom(s, i + 1, k);
    }
  }

  method FindFences(content: string) returns (out: seq<Region>)
    ensures out == FencesFrom(content, 0)
  {
    hide Trim, CloserFrom, ClosesAt, LineEnd, FindNewline, NextLine, OpenerAt, FencesFrom;
    out := [];
    var i := 0;
    while i < |content|
      invariant 0 <= i <= |content|
      invariant out + FencesFrom(content, i) == FencesFrom(content, 0)
      decreases |content| - i
    {
      FencesUnfold(content, i);
      FencesUnfold(content, |content|);
      OpensByCursor(content, i);
      NextByFind(content, i);
      var lineStart := i;
      var j := lineStart;
      while j < |content| && (content[j] == ' ' || content[j] == '\t')
        invariant lineStart <= j <= |content|
        invariant SkipBlanks(content, j) == SkipBlanks(content, lineStart)
      {
        j := j + 1;
      }
      var opening: Option<Opener> := None;
      if j < |content| {
        var ch := content[j];
        if ch == '`' || ch == '~' {
          var k := j;
          while k < |content| && content[k] == ch
            invariant j <= k <= |content|
            invariant SkipRun(content, k, ch) == SkipRun(content, j, ch)
          {
            k := k + 1;
          }
          var markerLen := k - j;
          if markerLen >= 3 {
            var infoEnd := LineEnd(content, k);
            var info := Trim(content[k..infoEnd]);
            opening := Some(Opener(ch, markerLen, info));
          }
        }
      }
      assert opening == OpenerAt(content, lineStart);
      var nl := FindNewline(content, i);
      if opening.None? {
        if nl.None? {
          break;
        }
        i := i + nl.value + 1;
      } else {
        var afterInfoLine := if nl.Some? then i + nl.value + 1 else |content|;
        var closer := FindFenceCloser(content, afterInfoLine, opening.value.ch, opening.value.len);
        if closer.None? {
          break;
        }
        var language := if opening.value.info == [] then None else Some(opening.value.info);
        out := out + [Region(Range(lineStart, closer.value.end), Fence(language))];
        i := closer.value.end;
      }
    }
    FencesUnfold(content, |content|);
  }

  lemma FencesUnfold(s: string, i: nat)
    requires i <= |s|
    ensures FencesFrom(s, i) ==
            if i == |s| then [] else
            var o := OpenerAt(s, i);
            if o.None? then FencesFrom(s, NextLine(s, i)) else
            var c := CloserFrom(s, NextLine(s, i), o.value.ch, o.value.len);
            if c.None? then []
            else [Region(Range(i, c.value), Fence(Language(o.value.info)))] + FencesFrom(s, c.value)
  {}

  lemma OpensByCursor(s: string, i: nat)
    requires i < |s|
    ensures var j := SkipBlanks(s, i);
            OpenerAt(s, i) == if j == |s| || (s[j] != '`' && s[j] != '~') then None else
                              var k := SkipRun(s, j, s[j]);
                              if k - j < 3 then None else Some(Opener(s[j], k - j, Trim(s[k..LineEnd(s, k)])))
  {
    hide Trim, LineEnd, SkipBlanks, SkipRun;
  }

  // ----- What the grammar accepts -----

  /** A block: an opening line, the first line after it that closes it, and everything between. */
  ghost predicate IsBlock(s: string, r: Region) {
    && r.range.start < r.range.end <= |s|
    && LineStart(s, r.range.start)
    && var o := OpenerAt(s, r.range.start);
    && o.Some? && r.kind == Fence(Language(o.value.info))
    && exists c ::
         && r.range.start < c < |s| && LineStart(s, c) && ClosesAt(s, c, o.value.ch, o.value.len)
         && r.range.end == NextLine(s, c)
         && forall d :: r.range.start < d < c && LineStart(s, d) ==> !ClosesAt(s, d, o.value.ch, o.value.len)
  }

  lemma {:induction false} CloserIsFirst(s: string, i: nat, ch: char, len: nat)
    requires i <= |s| && (i == |s| || LineStart(s, i))
    ensures var r := CloserFrom(s, i, ch, len);
            if r.Some? then
              exists c :: i <= c < |s| && LineStart(s, c) && ClosesAt(s, c, ch, len) && r.value == NextLine(s, c)
                && forall d :: i <= d < c && LineStart(s, d) ==> !ClosesAt(s, d, ch, len)
            else forall d :: i <= d < |s| && LineStart(s, d) ==> !ClosesAt(s, d, ch, len)
    decreases |s| - i
  {
    hide ClosesAt;
    if i < |s| && !ClosesAt(s, i, ch, len) {
      CloserIsFirst(s, NextLine(s, i), ch, len);
    }
  }

  ghost predicate BlocksInOrder(s: string, from: nat, regions: seq<Region>) {
    && (forall k :: 0 <= k < |regions| ==> IsBlock(s, regions[k]) && from <= regions[k].range.start)
    && (forall j, k :: 0 <= j < k < |regions| ==> regions[j].range.end <= regions[k].range.start)
  }

  lemma PrependBlock(s: string, from: nat, r: Region, rest: seq<Region>)
    requires IsBlock(s, r) && from <= r.range.start < r.range.end && BlocksInOrder(s, r.range.end, rest)
    ensures BlocksInOrder(s, from, [r] + rest)
  {
    hide IsBlock;
  }

  lemma LaterStart(s: string, from: nat, later: nat, regions: seq<Region>)
    requires from <= later && (regions == [] || BlocksInOrder(s, later, regions))
    ensures BlocksInOrder(s, from, regions)
  {
    hide IsBlock;
  }

  /** Every region is a block, and they stand in order without overlapping. */
  lemma {:induction false} FencesAreBlocks(s: string, i: nat)
    requires i <= |s| && (i == |s| || LineStart(s, i))
    ensures BlocksInOrder(s, i, FencesFrom(s, i))
    decreases |s| - i
  {
    hide ClosesAt, OpenerAt, CloserFrom, IsBlock, BlocksInOrder;
    LaterStart(s, i, i, []);
    if i < |s| {
      var o := OpenerAt(s, i);
      if o.None? {
        FencesAreBlocks(s, NextLine(s, i));
        LaterStart(s, i, NextLine(s, i), FencesFrom(s, i));
      } else {
        var c := CloserFrom(s, NextLine(s, i), o.value.ch, o.value.len);
        CloserIsFirst(s, NextLine(s, i), o.value.ch, o.value.len);
        if c.Some? {
          BlockHere(s, i);
          FencesAreBlocks(s, c.value);
          PrependBlock(s, i, Region(Range(i, c.value), Fence(Language(o.value.info))), FencesFrom(s, c.value));
        }
      }
    }
  }

  lemma BlockHere(s: string, i: nat)
    requires i < |s| && LineStart(s, i) && OpenerAt(s, i).Some?
    requires CloserFrom(s, NextLine(s, i), OpenerAt(s, i).value.ch, OpenerAt(s, i).value.len).Some?
    ensures var o := OpenerAt(s, i).value;
            var end := CloserFrom(s, NextLine(s, i), o.ch, o.len).value;
            IsBlock(s, Region(Range(i, end), Fence(Language(o.info)))) && i < end && (end == |s| || LineStart(s, end))
  {
    hide ClosesAt, OpenerAt, CloserFrom;
    CloserIsFirst(s, NextLine(s, i), OpenerAt(s, i).value.ch, OpenerAt(s, i).value.len);
  }

  ghost predicate Inside(regions: seq<Region>, p: nat) {
    exists k :: 0 <= k < |regions| && regions[k].range.start <= p < regions[k].range.end
  }

  /** An opening line at `u` that no later line closes. */
  ghost predicate Unterminated(s: string, u: nat) {
    && u < |s| && LineStart(s, u) && OpenerAt(s, u).Some?
    && forall d :: u < d < |s| && LineStart(s, d) ==> !ClosesAt(s, d, OpenerAt(s, u).value.ch, OpenerAt(s, u).value.len)
  }

  /** An opening line outside every region comes no earlier than an unterminated one, which all regions precede. */
  lemma {:induction false} NoOpenerMissed(s: string, i: nat, p: nat)
    requires i <= p < |s| && LineStart(s, i) && LineStart(s, p)
    requires OpenerAt(s, p).Some? && !Inside(FencesFrom(s, i), p)
    ensures exists u :: i <= u <= p && Unterminated(s, u) &&
              forall k :: 0 <= k < |FencesFrom(s, i)| ==> FencesFrom(s, i)[k].range.end <= u
    decreases |s| - i
  {
    hide ClosesAt, OpenerAt, CloserFrom, Inside, Unterminated;
    var o := OpenerAt(s, i);
    if o.None? {
      assert p != i;
      NoOpenerMissed(s, NextLine(s, i), p);
    } else {
      var c := CloserFrom(s, NextLine(s, i), o.value.ch, o.value.len);
      CloserIsFirst(s, NextLine(s, i), o.value.ch, o.value.len);
      if c.None? {
        UnterminatedHere(s, i);
      } else {
        var rest := FencesFrom(s, c.value);
        OutsideRest(Region(Range(i, c.value), Fence(Language(o.value.info))), rest, p);
        NoOpenerMissed(s, c.value, p);
      }
    }
  }

  lemma UnterminatedHere(s: string, u: nat)
    requires u < |s| && LineStart(s, u) && OpenerAt(s, u).Some?
    requires CloserFrom(s, NextLine(s, u), OpenerAt(s, u).value.ch, OpenerAt(s, u).value.len).None?
    ensures Unterminated(s, u)
  {
    hide ClosesAt, OpenerAt, CloserFrom;
    CloserIsFirst(s, NextLine(s, u), OpenerAt(s, u).value.ch, OpenerAt(s, u).value.len);
  }

  lemma OutsideRest(r: Region, rest: seq<Region>, p: nat)
    requires r.range.start <= p && !Inside([r] + rest, p)
    ensures r.range.end <= p && !Inside(rest, p)
  {
    assert ([r] + rest)[0] == r;
    forall k | 0 <= k < |rest|
      ensures !(rest[k].range.start <= p < rest[k].range.end)
    {
      assert ([r] + rest)[k + 1] == rest[k];
    }
  }

  // ----- Opening and closing lines, character by character -----

  lemma SkipBlanksIs(s: string, i: nat, j: nat)
    requires i <= j <= |s| && forall x :: i <= x < j ==> s[x] == ' ' || s[x] == '\t'
    requires j == |s| || (s[j] != ' ' && s[j] != '\t')
    ensures SkipBlanks(s, i) == j
  {}

  lemma RunEndIs(s: string, j: nat, k: nat, ch: char)
    requires j <= k <= |s| && (forall x :: j <= x < k ==> s[x] == ch) && (k == |s| || s[k] != ch)
    ensures SkipRun(s, j, ch) == k
  {}

  /** A line of blanks, a run of one fence character and a rest: it opens a fence when the run is three or longer, and
      closes one of its own character that is no longer than the run when the rest is white space. */
  lemma FenceLine(s: string, i: nat, j: nat, k: nat, e: nat, ch: char)
    requires i <= j < k <= e <= |s| && (ch == '`' || ch == '~')
    requires forall x :: i <= x < j ==> s[x] == ' ' || s[x] == '\t'
    requires (forall x :: j <= x < k ==> s[x] == ch) && (k == |s| || s[k] != ch)
    requires (forall x :: k <= x < e ==> s[x] != '\n') && (e == |s| || s[e] == '\n')
    ensures OpenerAt(s, i) == if k - j >= 3 then Some(Opener(ch, k - j, Trim(s[k..e]))) else None
    ensures forall len: nat :: ClosesAt(s, i, ch, len) <==> k - j >= len && Blank(s[k..e])
    ensures forall other, len: nat :: other != ch ==> !ClosesAt(s, i, other, len)
  {
    hide Trim, Blank, SkipBlanks, SkipRun, LineEnd;
    SkipBlanksIs(s, i, j);
    RunEndIs(s, j, k, ch);
    LineEndIs(s, k, e);
    TrimNothingIff(s[k..e]);
  }

  /** A line whose first character behind blanks is no fence character neither opens nor closes a fence. */
  lemma OtherLine(s: string, i: nat, j: nat, ch: char, len: nat)
    requires i <= j <= |s| && i < |s| && (ch == '`' || ch == '~')
    requires forall x :: i <= x < j ==> s[x] == ' ' || s[x] == '\t'
    requires j == |s| || (s[j] != ' ' && s[j] != '\t' && s[j] != '`' && s[j] != '~')
    ensures OpenerAt(s, i) == None && !ClosesAt(s, i, ch, len)
  {
    hide Trim, SkipBlanks, SkipRun, LineEnd;
    SkipBlanksIs(s, i, j);
  }
}
