/** The XML scanner, and the regions of a message: fences first, then XML blocks outside them. */
module Regions {
  import opened Option
  import opened Text
  import opened Fences

  predicate NameStart(c: char) {
    'a' <= c <= 'z' || 'A' <= c <= 'Z' || c == '_'
  }

  predicate NameChar(c: char) {
    NameStart(c) || '0' <= c <= '9' || c == '-'
  }

  datatype Tag = Tag(name: string, end: nat)

  /** Past the name characters at `i`. */
  function SkipName(s: string, i: nat): (j: nat)
    requires i <= |s|
    ensures i <= j <= |s|
    ensures forall k :: i <= k < j ==> NameChar(s[k])
    decreases |s| - i
  {
    if i < |s| && NameChar(s[i]) then SkipName(s, i + 1) else i
  }

  /** `<name>` with nothing else inside the brackets. */
  function OpenTagAt(s: string, i: nat): (r: Option<Tag>)
    requires i < |s|
    ensures r.Some? ==> i < r.value.end <= |s| && s[i] == '<'
    ensures r.Some? ==> forall k :: 0 <= k < |r.value.name| ==> NameChar(r.value.name[k])
    ensures r.Some? ==> s[i..r.value.end] == "<" + r.value.name + ">"
  {
    if s[i] != '<' || i + 1 == |s| || !NameStart(s[i + 1]) then None else
    var j := SkipName(s, i + 1);
    if j < |s| && s[j] == '>' then
      var name := s[i + 1..j];
      assert s[i..j + 1] == "<" + name + ">" by { assert s[i..j + 1] == s[i..i + 1] + name + s[j..j + 1]; }
      assert forall k :: 0 <= k < |name| ==> NameChar(name[k]) by { hide NameChar; }
      Some(Tag(name, j + 1))
    else None
  }

  predicate OccursAt(s: string, needle: string, p: nat) {
    p + |needle| <= |s| && s[p..p + |needle|] == needle
  }

  /** `find(needle)` on the text from `i`, as a position. */
  function FindFrom(s: string, needle: string, i: nat): (r: Option<nat>)
    requires i <= |s|
    ensures r.Some? ==> i <= r.value && OccursAt(s, needle, r.value)
    ensures forall p :: i <= p < (if r.Some? then r.value else |s|) ==> !OccursAt(s, needle, p)
    decreases |s| - i
  {
    if OccursAt(s, needle, i) then Some(i) else if i == |s| then None else FindFrom(s, needle, i + 1)
  }

  /** Past the last line feed before `p`. */
  function LineStartOf(s: string, p: nat): (i: nat)
    requires p <= |s|
    ensures i <= p && LineStart(s, i) && forall k :: i < k <= p ==> !LineStart(s, k)
  {
    if p == 0 || s[p - 1] == '\n' then p else LineStartOf(s, p - 1)
  }

  /** Nothing but blanks between the start of the line and `p`. */
  predicate BehindBlanks(s: string, p: nat)
    requires p <= |s|
  {
    forall k :: LineStartOf(s, p) <= k < p ==> s[k] == ' ' || s[k] == '\t'
  }

  function Needle(name: string): (n: string)
    ensures |n| == |name| + 3
  {
    "</" + name + ">"
  }

  /** Past the first closing tag that starts its line. */
  function CloseTagFrom(s: string, i: nat, name: string): (r: Option<nat>)
    requires i <= |s|
    ensures r.Some? ==> i < r.value <= |s|
    decreases |s| - i
  {
    var p := FindFrom(s, Needle(name), i);
    if p.None? then None
    else if BehindBlanks(s, p.value) then Some(p.value + |name| + 3)
    else CloseTagFrom(s, p.value + |name| + 3, name)
  }

  predicate InAny(regions: seq<Region>, p: nat) {
    exists k :: 0 <= k < |regions| && regions[k].range.start <= p < regions[k].range.end
  }

  function PastNewline(s: string, i: nat): (j: nat)
    requires i <= |s|
    ensures i <= j <= |s|
  {
    if i < |s| && s[i] == '\n' then i + 1 else i
  }

  /** The block whose opener stands behind the blanks at `i`, unless a fence covers it. */
  function XmlAt(s: string, fences: seq<Region>, i: nat): (r: Option<Region>)
    requires i < |s|
    ensures r.Some? ==> r.value.range.start == i < r.value.range.end <= |s|
  {
    var j := SkipBlanks(s, i);
    if InAny(fences, j) || j == |s| then None else
    var tag := OpenTagAt(s, j);
    if tag.None? then None else
    var end := CloseTagFrom(s, tag.value.end, tag.value.name);
    if end.None? then None else Some(Region(Range(i, PastNewline(s, end.value)), Xml(tag.value.name)))
  }

  /** The blocks from `i` on.  After a block the scan goes on where the block ended, even in mid-line. */
  function XmlFrom(s: string, fences: seq<Region>, i: nat): seq<Region>
    requires i <= |s|
    decreases |s| - i
  {
    if i == |s| then [] else
    var block := XmlAt(s, fences, i);
    if block.Some? then [block.value] + XmlFrom(s, fences, block.value.range.end)
    else XmlFrom(s, fences, NextLine(s, i))
  }

  // ----- The scanner -----

  method ParseOpenTag(content: string, start: nat) returns (r: Option<Tag>)
    requires start < |content|
    ensures r == OpenTagAt(content, start)
  {
    if content[start] != '<' {
      return None;
    }
    if start + 1 == |content| {
      return None;
    }
    var first := content[start + 1];
    if first == '/' || first == '!' || first == '?' || first == ' ' || first == '\t' {
      return None;
    }
    if !NameStart(first) {
      return None;
    }
    var name := [first];
    var pos := start + 2;
    while pos < |content| && NameChar(content[pos])
      invariant start + 2 <= pos <= |content|
      invariant name == content[start + 1..pos]
      invariant SkipName(content, pos) == SkipName(content, start + 1)
    {
      name := name + [content[pos]];
      pos := pos + 1;
    }
    if pos < |content| && content[pos] == '>' {
      return Some(Tag(name, pos + 1));
    }
    return None;
  }

  method FindCloseTag(content: string, from: nat, name: string) returns (r: Option<nat>)
    requires from <= |content|
    ensures r == CloseTagFrom(content, from, name)
  {
    hide Needle, OccursAt, BehindBlanks, CloseTagFrom;
    var needle := Needle(name);
    var searchFrom := from;
    while true
      invariant from <= searchFrom <= |content|
      invariant CloseTagFrom(content, searchFrom, name) == CloseTagFrom(content, from, name)
      decreases |content| - searchFrom
    {
      CloseTagUnfold(content, searchFrom, name);
      var abs := FindFrom(content, needle, searchFrom);
      if abs.None? {
        return None;
      }
      if BehindBlanks(content, abs.value) {
        return Some(abs.value + |needle|);
      }
      searchFrom := abs.value + |needle|;
    }
  }

  lemma CloseTagUnfold(s: string, i: nat, name: string)
    requires i <= |s|
    ensures var p := FindFrom(s, Needle(name), i);
            && (p.Some? ==> i <= p.value && p.value + |name| + 3 <= |s|)
            && |Needle(name)| == |name| + 3
            && CloseTagFrom(s, i, name) ==
               if p.None? then None
               else if BehindBlanks(s, p.value) then Some(p.value + |name| + 3)
               else CloseTagFrom(s, p.value + |name| + 3, name)
  {}

  method FindXmlBlocks(content: string, fences: seq<Region>) returns (out: seq<Region>)
    ensures out == XmlFrom(content, fences, 0)
  {
    hide CloseTagFrom, OpenTagAt, FindNewline, NextLine, InAny, XmlFrom, XmlAt, LineEnd;
    out := [];
    var i := 0;
    while i < |content|
      invariant 0 <= i <= |content|
      invariant out + XmlFrom(content, fences, i) == XmlFrom(content, fences, 0)
      decreases |content| - i
    {
      NextByFind(content, i);
      XmlAtUnfold(content, fences, i);
      XmlUnfold(content, fences, i);
      XmlUnfold(content, fences, |content|);
      var nl := FindNewline(content, i);
      var lineStart := i;
      var j := lineStart;
      while j < |content| && (content[j] == ' ' || content[j] == '\t')
        invariant lineStart <= j <= |content|
        invariant SkipBlanks(content, j) == SkipBlanks(content, lineStart)
      {
        j := j + 1;
      }
      var found: Option<Region> := None;
      if !InAny(fences, j) && j < |content| && content[j] == '<' {
        TagEnd(content, j);
        var tag := ParseOpenTag(content, j);
        if tag.Some? {
          CloseEnd(content, tag.value.end, tag.value.name);
          var close := FindCloseTag(content, tag.value.end, tag.value.name);
          if close.Some? {
            var end := if close.value < |content| && content[close.value] == '\n' then close.value + 1 else close.value;
            found := Some(Region(Range(lineStart, end), Xml(tag.value.name)));
          }
        }
      }
      assert found == XmlAt(content, fences, i);
      if found.Some? {
        out := out + [found.value];
        i := found.value.range.end;
        continue;
      }
      if nl.None? {
        break;
      }
      i := i + nl.value + 1;
    }
    XmlUnfold(content, fences, |content|);
  }

  lemma XmlAtUnfold(s: string, fences: seq<Region>, i: nat)
    requires i < |s|
    ensures var j := SkipBlanks(s, i);
            XmlAt(s, fences, i) ==
            if InAny(fences, j) || j == |s| || s[j] != '<' then None else
            var tag := OpenTagAt(s, j);
            if tag.None? then None else
            var end := CloseTagFrom(s, tag.value.end, tag.value.name);
            if end.None? then None else
            Some(Region(Range(i, if end.value < |s| && s[end.value] == '\n' then end.value + 1 else end.value),
              Xml(tag.value.name)))
  {}

  lemma TagEnd(s: string, j: nat)
    requires j < |s|
    ensures OpenTagAt(s, j).Some? ==> j < OpenTagAt(s, j).value.end <= |s|
  {}

  lemma CloseEnd(s: string, i: nat, name: string)
    requires i <= |s|
    ensures CloseTagFrom(s, i, name).Some? ==> i < CloseTagFrom(s, i, name).value <= |s|
  {}

  lemma XmlUnfold(s: string, fences: seq<Region>, i: nat)
    requires i <= |s|
    ensures XmlFrom(s, fences, i) ==
            if i == |s| then [] else
            var block := XmlAt(s, fences, i);
            if block.Some? then [block.value] + XmlFrom(s, fences, block.value.range.end)
            else XmlFrom(s, fences, NextLine(s, i))
  {}

  method ScanRegions(content: string) returns (out: seq<Region>)
    ensures out == Scanned(content)
  {
    var fences := FindFences(content);
    out := fences;
    var blocks := FindXmlBlocks(content, fences);
    out := out + blocks;
  }

  function Scanned(s: string): seq<Region> {
    FencesFrom(s, 0) + XmlFrom(s, FencesFrom(s, 0), 0)
  }

  // ----- What the XML scanner accepts -----

  /** A closing tag of `name` at `p`, alone behind blanks on its line. */
  predicate ClosesTagAt(s: string, name: string, p: nat) {
    p <= |s| && OccursAt(s, Needle(name), p) && BehindBlanks(s, p)
  }

  /** A block: an opening tag behind blanks, not covered by a fence, up to its first closing tag. */
  ghost predicate IsXmlBlock(s: string, fences: seq<Region>, r: Region) {
    && r.range.start < r.range.end <= |s|
    && var j := SkipBlanks(s, r.range.start);
    && j < |s| && !InAny(fences, j)
    && OpenTagAt(s, j).Some?
    && var tag := OpenTagAt(s, j).value;
    && r.kind == Xml(tag.name)
    && exists p :: tag.end <= p < |s| && ClosesTagAt(s, tag.name, p)
         && r.range.end == PastNewline(s, p + |tag.name| + 3)
         && forall q :: tag.end <= q < p ==> !ClosesTagAt(s, tag.name, q)
  }

  /** A tag cannot begin inside a tag. */
  lemma NoOverlap(s: string, name: string, p: nat, q: nat)
    requires OccursAt(s, Needle(name), p) && p < q < p + |name| + 3
    requires forall k :: 0 <= k < |name| ==> NameChar(name[k])
    ensures !OccursAt(s, Needle(name), q)
  {
    assert s[q] == s[p..p + |name| + 3][q - p] == Needle(name)[q - p];
    assert Needle(name)[q - p] != '<';
  }

  lemma {:induction false} CloseTagIsFirst(s: string, i: nat, name: string)
    requires i <= |s| && forall k :: 0 <= k < |name| ==> NameChar(name[k])
    ensures var r := CloseTagFrom(s, i, name);
            if r.Some? then
              var p := r.value - |name| - 3;
              i <= p < |s| && ClosesTagAt(s, name, p) && forall q :: i <= q < p ==> !ClosesTagAt(s, name, q)
            else forall q :: i <= q ==> !ClosesTagAt(s, name, q)
    decreases |s| - i
  {
    hide BehindBlanks, OccursAt, Needle;
    var p := FindFrom(s, Needle(name), i);
    NeedleLength(s, name);
    if p.Some? && !BehindBlanks(s, p.value) {
      forall q | p.value < q < p.value + |name| + 3
        ensures !OccursAt(s, Needle(name), q)
      {
        NoOverlap(s, name, p.value, q);
      }
      CloseTagIsFirst(s, p.value + |name| + 3, name);
    }
  }

  lemma NeedleLength(s: string, name: string)
    ensures forall p: nat :: OccursAt(s, Needle(name), p) ==> p + |name| + 3 <= |s|
  {}

  lemma XmlAtIsBlock(s: string, fences: seq<Region>, i: nat)
    requires i < |s| && XmlAt(s, fences, i).Some?
    ensures IsXmlBlock(s, fences, XmlAt(s, fences, i).value)
  {
    hide ClosesTagAt, OpenTagAt, CloseTagFrom, InAny;
    var j := SkipBlanks(s, i);
    TagName(s, j);
    CloseTagIsFirst(s, OpenTagAt(s, j).value.end, OpenTagAt(s, j).value.name);
  }

  lemma TagName(s: string, j: nat)
    requires j < |s| && OpenTagAt(s, j).Some?
    ensures var tag := OpenTagAt(s, j).value;
            tag.end <= |s| && forall k :: 0 <= k < |tag.name| ==> NameChar(tag.name[k])
  {}

  /** The blocks stand in order, and each starts a line or starts where the block before it ended. */
  ghost predicate XmlInOrder(s: string, fences: seq<Region>, from: nat, blocks: seq<Region>) {
    && (forall k :: 0 <= k < |blocks| ==> IsXmlBlock(s, fences, blocks[k]) && from <= blocks[k].range.start)
    && (forall j, k :: 0 <= j < k < |blocks| ==> blocks[j].range.end <= blocks[k].range.start)
    && (forall k :: 0 <= k < |blocks| ==>
          LineStart(s, blocks[k].range.start) || blocks[k].range.start == EndBefore(from, blocks, k))
  }

  /** Where the scan stood before it came to the block `k`'s part of the text. */
  function EndBefore(from: nat, blocks: seq<Region>, k: nat): nat
    requires k < |blocks|
  {
    if k == 0 then from else blocks[k - 1].range.end
  }

  lemma PrependXml(s: string, fences: seq<Region>, r: Region, rest: seq<Region>)
    requires IsXmlBlock(s, fences, r) && r.range.start < r.range.end && XmlInOrder(s, fences, r.range.end, rest)
    ensures XmlInOrder(s, fences, r.range.start, [r] + rest)
  {
    hide IsXmlBlock, LineStart;
    var all := [r] + rest;
    forall k | 0 < k < |all|
      ensures all[k] == rest[k - 1]
      ensures LineStart(s, all[k].range.start) || all[k].range.start == EndBefore(r.range.start, all, k)
    {
      assert LineStart(s, rest[k - 1].range.start) || rest[k - 1].range.start == EndBefore(r.range.end, rest, k - 1);
    }
  }

  lemma LaterXml(s: string, fences: seq<Region>, from: nat, later: nat, blocks: seq<Region>)
    requires from <= later && (blocks == [] || (LineStart(s, later) && XmlInOrder(s, fences, later, blocks)))
    ensures XmlInOrder(s, fences, from, blocks)
  {
    hide IsXmlBlock, LineStart;
    forall k | 0 <= k < |blocks|
      ensures LineStart(s, blocks[k].range.start) || blocks[k].range.start == EndBefore(from, blocks, k)
    {
      assert LineStart(s, blocks[k].range.start) || blocks[k].range.start == EndBefore(later, blocks, k);
    }
  }

  lemma {:induction false} XmlAreBlocks(s: string, fences: seq<Region>, i: nat)
    requires i <= |s|
    ensures XmlInOrder(s, fences, i, XmlFrom(s, fences, i))
    decreases |s| - i
  {
    hide IsXmlBlock, XmlInOrder, XmlAt;
    XmlUnfold(s, fences, i);
    LaterXml(s, fences, i, i, []);
    if i < |s| {
      var block := XmlAt(s, fences, i);
      if block.Some? {
        XmlAtIsBlock(s, fences, i);
        XmlAtStart(s, fences, i);
        XmlAreBlocks(s, fences, block.value.range.end);
        PrependXml(s, fences, block.value, XmlFrom(s, fences, block.value.range.end));
      } else {
        XmlAreBlocks(s, fences, NextLine(s, i));
        XmlUnfold(s, fences, |s|);
        LaterXml(s, fences, i, NextLine(s, i), XmlFrom(s, fences, NextLine(s, i)));
      }
    }
  }

  lemma XmlAtStart(s: string, fences: seq<Region>, i: nat)
    requires i < |s| && XmlAt(s, fences, i).Some?
    ensures XmlAt(s, fences, i).value.range.start == i < XmlAt(s, fences, i).value.range.end <= |s|
  {}

  // ----- When every block starts a line -----

  ghost predicate AllStartLines(s: string, blocks: seq<Region>) {
    forall k :: 0 <= k < |blocks| ==> LineStart(s, blocks[k].range.start)
  }

  /** The scanner may go on at `e`: at the end, at a line start, or where no block is to be taken up. */
  predicate CleanAt(s: string, fences: seq<Region>, e: nat) {
    e >= |s| || LineStart(s, e) || XmlAt(s, fences, e).None?
  }

  /** No closing tag is followed on its own line, behind blanks only, by an opening tag the scanner takes up. */
  ghost predicate NoneTakenUpBehind(s: string, fences: seq<Region>, blocks: seq<Region>) {
    forall k :: 0 <= k < |blocks| ==> CleanAt(s, fences, blocks[k].range.end)
  }

  lemma PrependLines(s: string, fences: seq<Region>, r: Region, rest: seq<Region>)
    ensures AllStartLines(s, [r] + rest) <==> LineStart(s, r.range.start) && AllStartLines(s, rest)
    ensures NoneTakenUpBehind(s, fences, [r] + rest) <==>
            CleanAt(s, fences, r.range.end) && NoneTakenUpBehind(s, fences, rest)
  {
    hide LineStart, CleanAt;
    var all := [r] + rest;
    assert all[0] == r && forall k :: 0 <= k < |rest| ==> all[k + 1] == rest[k];
  }

  lemma {:induction false} LinesFromIff(s: string, fences: seq<Region>, i: nat)
    requires i <= |s| && CleanAt(s, fences, i)
    ensures AllStartLines(s, XmlFrom(s, fences, i)) <==> NoneTakenUpBehind(s, fences, XmlFrom(s, fences, i))
    decreases |s| - i
  {
    hide XmlFrom, XmlAt, LineStart, AllStartLines, NoneTakenUpBehind;
    XmlUnfold(s, fences, i);
    NoLines(s, fences);
    if i < |s| {
      var block := XmlAt(s, fences, i);
      if block.None? {
        LinesFromIff(s, fences, NextLine(s, i));
      } else {
        XmlAtStart(s, fences, i);
        var e := block.value.range.end;
        var rest := XmlFrom(s, fences, e);
        PrependLines(s, fences, block.value, rest);
        if CleanAt(s, fences, e) {
          LinesFromIff(s, fences, e);
        } else {
          XmlUnfold(s, fences, e);
          XmlAtStart(s, fences, e);
          PrependLines(s, fences, XmlAt(s, fences, e).value, XmlFrom(s, fences, XmlAt(s, fences, e).value.range.end));
        }
      }
    }
  }

  lemma NoLines(s: string, fences: seq<Region>)
    ensures AllStartLines(s, []) && NoneTakenUpBehind(s, fences, [])
  {}

  /** The blocks of a text all start lines exactly when no block's closing tag is followed on its line by an
      opening tag that the scanner takes up. */
  lemma BlocksStartLinesIff(s: string)
    ensures var fences := FencesFrom(s, 0);
            var blocks := XmlFrom(s, fences, 0);
            (forall k :: 0 <= k < |blocks| ==> LineStart(s, blocks[k].range.start)) <==>
            forall k :: 0 <= k < |blocks| ==>
              var e := blocks[k].range.end;
              e >= |s| || LineStart(s, e) || XmlAt(s, fences, e).None?
  {
    hide XmlFrom, XmlAt, FencesFrom;
    LinesFromIff(s, FencesFrom(s, 0), 0);
    var blocks := XmlFrom(s, FencesFrom(s, 0), 0);
    assert NoneTakenUpBehind(s, FencesFrom(s, 0), blocks) <==>
           forall k :: 0 <= k < |blocks| ==> CleanAt(s, FencesFrom(s, 0), blocks[k].range.end);
  }

  // ----- When the regions of a message are disjoint -----

  predicate Disjoint(a: Region, b: Region) {
    a.range.end <= b.range.start || b.range.end <= a.range.start
  }

  ghost predicate PairwiseDisjoint(regions: seq<Region>) {
    forall j, k :: 0 <= j < k < |regions| ==> Disjoint(regions[j], regions[k])
  }

  /** No fence starts inside a block. */
  ghost predicate NoFenceInside(fences: seq<Region>, blocks: seq<Region>) {
    forall f, b :: f in fences && b in blocks ==> !(b.range.start <= f.range.start < b.range.end)
  }

  /** A block that starts inside a fence would have its tag there too, where the scanner does not look. */
  lemma BlockStartsOutside(s: string, fences: seq<Region>, f: Region, b: Region)
    requires f in fences && IsBlock(s, f) && IsXmlBlock(s, fences, b)
    ensures !(f.range.start <= b.range.start < f.range.end)
  {
    hide OpenerAt, ClosesAt, OpenTagAt, ClosesTagAt;
    FenceEnd(s, f);
  }

  lemma FenceEnd(s: string, f: Region)
    requires IsBlock(s, f)
    ensures f.range.end == |s| || s[f.range.end - 1] == '\n'
  {
    hide OpenerAt, ClosesAt;
  }

  /** The regions are pairwise disjoint exactly when no fence starts inside an XML block. */
  lemma DisjointIff(s: string)
    ensures PairwiseDisjoint(Scanned(s)) <==> NoFenceInside(FencesFrom(s, 0), XmlFrom(s, FencesFrom(s, 0), 0))
  {
    hide IsBlock, IsXmlBlock, FencesFrom, XmlFrom, NoFenceInside, PairwiseDisjoint, BlocksInOrder, XmlInOrder;
    var fences := FencesFrom(s, 0);
    var blocks := XmlFrom(s, fences, 0);
    FencesAreBlocks(s, 0);
    XmlAreBlocks(s, fences, 0);
    if NoFenceInside(fences, blocks) {
      NoFenceInsideDisjoint(s, fences, blocks);
    } else {
      FenceInsideOverlaps(s, fences, blocks);
    }
  }

  lemma {:induction false} BlocksAreTaken(s: string, fences: seq<Region>, i: nat)
    requires i <= |s|
    ensures forall b :: b in XmlFrom(s, fences, i) ==>
              b.range.start < |s| && XmlAt(s, fences, b.range.start) == Some(b)
    decreases |s| - i
  {
    hide XmlFrom, XmlAt;
    XmlUnfold(s, fences, i);
    if i < |s| {
      var block := XmlAt(s, fences, i);
      if block.Some? {
        XmlAtStart(s, fences, i);
        BlocksAreTaken(s, fences, block.value.range.end);
      } else {
        BlocksAreTaken(s, fences, NextLine(s, i));
      }
    }
  }

  /** From fences and tags alone: regions are disjoint when no fence starts within a block that could be taken up. */
  lemma DisjointFromTags(s: string)
    requires var fences := FencesFrom(s, 0);
             forall i, f :: 0 <= i < |s| && XmlAt(s, fences, i).Some? && f in fences ==>
               !(i <= f.range.start < XmlAt(s, fences, i).value.range.end)
    ensures PairwiseDisjoint(Scanned(s))
  {
    hide XmlFrom, XmlAt, FencesFrom, PairwiseDisjoint;
    DisjointIff(s);
    BlocksAreTaken(s, FencesFrom(s, 0), 0);
  }

  lemma NoFenceInsideDisjoint(s: string, fences: seq<Region>, blocks: seq<Region>)
    requires BlocksInOrder(s, 0, fences) && XmlInOrder(s, fences, 0, blocks) && NoFenceInside(fences, blocks)
    ensures PairwiseDisjoint(fences + blocks)
  {
    hide IsBlock, IsXmlBlock, PairwiseDisjoint, LineStart;
    forall j, k | 0 <= j < |fences| && 0 <= k < |blocks|
      ensures Disjoint(fences[j], blocks[k])
    {
      BlockStartsOutside(s, fences, fences[j], blocks[k]);
    }
    JoinDisjoint(fences, blocks);
  }

  lemma FenceInsideOverlaps(s: string, fences: seq<Region>, blocks: seq<Region>)
    requires BlocksInOrder(s, 0, fences) && !NoFenceInside(fences, blocks)
    ensures !PairwiseDisjoint(fences + blocks)
  {
    hide IsBlock;
    var f, b :| f in fences && b in blocks && b.range.start <= f.range.start < b.range.end;
    var j :| 0 <= j < |fences| && fences[j] == f;
    var k :| 0 <= k < |blocks| && blocks[k] == b;
    NonEmpty(s, f);
    assert (fences + blocks)[j] == f && (fences + blocks)[|fences| + k] == b;
  }

  lemma NonEmpty(s: string, f: Region)
    requires IsBlock(s, f)
    ensures f.range.start < f.range.end
  {
    hide OpenerAt, ClosesAt;
  }

  lemma JoinDisjoint(a: seq<Region>, b: seq<Region>)
    requires forall j, k :: 0 <= j < k < |a| ==> a[j].range.end <= a[k].range.start
    requires forall j, k :: 0 <= j < k < |b| ==> b[j].range.end <= b[k].range.start
    requires forall j, k :: 0 <= j < |a| && 0 <= k < |b| ==> Disjoint(a[j], b[k])
    ensures PairwiseDisjoint(a + b)
  {}

  // ----- Regions that do overlap, and blocks that start in mid-line -----

  const FENCE_IN_BLOCK: string := "<a>\n```\n</a>\n```\n"

  lemma SkipRunIs(s: string, i: nat, k: nat, ch: char)
    requires i <= k < |s| && (forall x :: i <= x < k ==> s[x] == ch) && s[k] != ch
    ensures SkipRun(s, i, ch) == k
  {}

  lemma LineFeedIs(s: string, i: nat, k: nat)
    requires i <= k < |s| && (forall x :: i <= x < k ==> s[x] != '\n') && s[k] == '\n'
    ensures LineEnd(s, i) == k && NextLine(s, i) == k + 1
  {}

  lemma FenceInBlockLines()
    ensures var s := FENCE_IN_BLOCK;
            |s| == 17 && NextLine(s, 0) == 4 && NextLine(s, 4) == 8 && NextLine(s, 8) == 13 && NextLine(s, 13) == 17
  {
    hide NextLine, LineEnd;
    var s := FENCE_IN_BLOCK;
    LineFeedIs(s, 0, 3);
    LineFeedIs(s, 4, 7);
    LineFeedIs(s, 8, 12);
    LineFeedIs(s, 13, 16);
  }

  /** A line of nothing but three fence characters opens a fence, and closes one. */
  lemma BareFence(s: string, i: nat)
    requires i + 3 < |s| && s[i] == s[i + 1] == s[i + 2] == '`' && s[i + 3] == '\n'
    ensures OpenerAt(s, i) == Some(Opener('`', 3, [])) && ClosesAt(s, i, '`', 3)
  {
    hide OpenerAt, ClosesAt, SkipRun, LineEnd, NextLine, Trim;
    OpensByCursor(s, i);
    ClosesByCursor(s, i, '`', 3);
    assert SkipBlanks(s, i) == i;
    SkipRunIs(s, i, i + 3, '`');
    LineFeedIs(s, i + 3, i + 3);
    assert s[i + 3..i + 3] == [];
    TrimNothing();
  }

  lemma TagLine(s: string, i: nat)
    requires i < |s| && s[i] == '<'
    ensures OpenerAt(s, i) == None && !ClosesAt(s, i, '`', 3)
  {
    hide SkipRun, LineEnd, Trim;
  }

  lemma TrimNothing()
    ensures Trim([]) == []
  {}

  lemma FenceInBlockFence()
    ensures FencesFrom(FENCE_IN_BLOCK, 0) == [Region(Range(4, 17), Fence(None))]
  {
    hide NextLine, LineEnd, FencesFrom, CloserFrom, OpenerAt, ClosesAt;
    var s := FENCE_IN_BLOCK;
    FenceInBlockLines();
    TagLine(s, 0);
    BareFence(s, 4);
    TagLine(s, 8);
    BareFence(s, 13);
    FencesUnfold(s, 0);
    FencesUnfold(s, 4);
    FencesUnfold(s, 17);
    CloserUnfold(s, 8, '`', 3);
    CloserUnfold(s, 13, '`', 3);
  }

  lemma FindFromIs(s: string, needle: string, i: nat, p: nat)
    requires i <= p < |s| && OccursAt(s, needle, p) && forall q :: i <= q < p ==> !OccursAt(s, needle, q)
    ensures FindFrom(s, needle, i) == Some(p)
  {
    hide OccursAt;
  }

  /** A one-letter tag behind no blanks. */
  lemma ShortTag(s: string, i: nat)
    requires i + 2 < |s| && s[i] == '<' && NameStart(s[i + 1]) && s[i + 2] == '>'
    ensures OpenTagAt(s, i) == Some(Tag([s[i + 1]], i + 3)) && SkipBlanks(s, i) == i
  {
    assert SkipName(s, i + 1) == i + 2;
    assert s[i + 1..i + 2] == [s[i + 1]];
  }

  lemma TagsStartSo(s: string, name: string, q: nat)
    requires q < |s| && s[q] != '<'
    ensures !OccursAt(s, Needle(name), q)
  {
    if q + |name| + 3 <= |s| {
      assert s[q..q + |name| + 3][0] == s[q] != Needle(name)[0];
    }
  }

  /** The next closing tag is the one at `p`, when it starts a line and no other tag stands before it. */
  lemma CloserIs(s: string, name: string, i: nat, p: nat)
    requires i <= p && p + |name| + 3 <= |s| && s[p..p + |name| + 3] == Needle(name) && LineStart(s, p)
    requires forall q :: i <= q < p ==> s[q] != '<'
    ensures CloseTagFrom(s, i, name) == Some(p + |name| + 3)
  {
    hide FindFrom;
    forall q | i <= q < p
      ensures !OccursAt(s, Needle(name), q)
    {
      TagsStartSo(s, name, q);
    }
    FindFromIs(s, Needle(name), i, p);
    assert LineStartOf(s, p) == p;
  }

  lemma FenceInBlockXml()
    ensures XmlAt(FENCE_IN_BLOCK, [Region(Range(4, 17), Fence(None))], 0) == Some(Region(Range(0, 13), Xml("a")))
  {
    hide CloseTagFrom, OpenTagAt;
    var s := FENCE_IN_BLOCK;
    ShortTag(s, 0);
    assert s[8..12] == Needle("a");
    CloserIs(s, "a", 3, 8);
    XmlAtUnfold(s, [Region(Range(4, 17), Fence(None))], 0);
  }

  /** A fence that starts inside an XML block is not masked: the two regions overlap. */
  lemma FenceInBlockOverlaps()
    ensures Region(Range(4, 17), Fence(None)) in Scanned(FENCE_IN_BLOCK)
    ensures Region(Range(0, 13), Xml("a")) in Scanned(FENCE_IN_BLOCK)
    ensures !PairwiseDisjoint(Scanned(FENCE_IN_BLOCK))
  {
    hide FencesFrom, XmlFrom, XmlAt;
    FenceInBlockFence();
    FenceInBlockXml();
    var fences := FencesFrom(FENCE_IN_BLOCK, 0);
    XmlUnfold(FENCE_IN_BLOCK, fences, 0);
    var blocks := XmlFrom(FENCE_IN_BLOCK, fences, 0);
    assert blocks[0] == Region(Range(0, 13), Xml("a"));
    assert (fences + blocks)[0] == fences[0] && (fences + blocks)[1] == blocks[0];
  }

  const BLOCK_IN_MID_LINE: string := "<a>\n</a><b>\n</b>"

  lemma MidLineFirst()
    ensures XmlAt(BLOCK_IN_MID_LINE, [], 0) == Some(Region(Range(0, 8), Xml("a")))
  {
    hide CloseTagFrom, OpenTagAt;
    var s := BLOCK_IN_MID_LINE;
    ShortTag(s, 0);
    assert s[4..8] == Needle("a");
    CloserIs(s, "a", 3, 4);
    XmlAtUnfold(s, [], 0);
  }

  lemma MidLineSecond()
    ensures XmlAt(BLOCK_IN_MID_LINE, [], 8) == Some(Region(Range(8, 16), Xml("b")))
  {
    hide CloseTagFrom, OpenTagAt;
    var s := BLOCK_IN_MID_LINE;
    ShortTag(s, 8);
    assert s[12..16] == Needle("b");
    CloserIs(s, "b", 11, 12);
    XmlAtUnfold(s, [], 8);
  }

  lemma MidLineNoFence()
    ensures FencesFrom(BLOCK_IN_MID_LINE, 0) == []
  {
    hide NextLine, LineEnd, FencesFrom, OpenerAt, ClosesAt;
    var s := BLOCK_IN_MID_LINE;
    LineFeedIs(s, 0, 3);
    LineFeedIs(s, 4, 11);
    assert NextLine(s, 12) == 16 by { NextIsEnd(s, 12); }
    TagLine(s, 0);
    TagLine(s, 4);
    TagLine(s, 12);
    FencesUnfold(s, 0);
    FencesUnfold(s, 4);
    FencesUnfold(s, 12);
    FencesUnfold(s, 16);
  }

  lemma NextIsEnd(s: string, i: nat)
    requires i < |s| && forall x :: i <= x < |s| ==> s[x] != '\n'
    ensures NextLine(s, i) == |s|
  {}

  /** After a block whose closing tag has text behind it, the next block is taken up in the middle of that line. */
  lemma BlockStartsMidLine()
    ensures Scanned(BLOCK_IN_MID_LINE) == [Region(Range(0, 8), Xml("a")), Region(Range(8, 16), Xml("b"))]
    ensures !LineStart(BLOCK_IN_MID_LINE, 8)
  {
    hide XmlFrom, XmlAt, FencesFrom;
    MidLineFirst();
    MidLineSecond();
    MidLineNoFence();
    XmlUnfold(BLOCK_IN_MID_LINE, [], 0);
    XmlUnfold(BLOCK_IN_MID_LINE, [], 8);
    XmlUnfold(BLOCK_IN_MID_LINE, [], 16);
  }

  // ----- Tags, character by character -----

  /** The ASCII letters and the underscore, by their codes. */
  predicate IsLetter(c: char) {
    65 <= c as int <= 90 || 97 <= c as int <= 122 || c as int == 95
  }

  /** The ASCII digits and the hyphen, by their codes. */
  predicate IsDigitOrHyphen(c: char) {
    48 <= c as int <= 57 || c as int == 45
  }

  lemma LettersAre(c: char)
    ensures NameStart(c) <==> IsLetter(c)
    ensures NameChar(c) <==> IsLetter(c) || IsDigitOrHyphen(c)
  {}

  /** An opening tag: a letter or an underscore, then letters, digits, underscores and hyphens, between angle brackets,
      and nothing else. */
  lemma OpenTagIs(s: string, i: nat, name: string)
    requires i + |name| + 2 <= |s|
    ensures OpenTagAt(s, i) == Some(Tag(name, i + |name| + 2)) <==>
            && s[i] == '<' && s[i + 1..i + |name| + 1] == name && s[i + |name| + 1] == '>'
            && name != [] && IsLetter(name[0])
            && forall k :: 0 < k < |name| ==> IsLetter(name[k]) || IsDigitOrHyphen(name[k])
  {
    hide NameStart, NameChar, IsLetter, IsDigitOrHyphen, OpenTagAt;
    var e := i + |name| + 1;
    forall k | 0 <= k < |name|
      ensures NameStart(name[k]) <==> IsLetter(name[k])
      ensures NameChar(name[k]) <==> IsLetter(name[k]) || IsDigitOrHyphen(name[k])
    {
      LettersAre(name[k]);
    }
    if s[i] == '<' && s[i + 1..e] == name && s[e] == '>' && name != [] && NameStart(name[0])
       && forall k :: 0 < k < |name| ==> NameChar(name[k]) {
      TagTaken(s, i, name);
    }
    if OpenTagAt(s, i) == Some(Tag(name, i + |name| + 2)) {
      NamesOnly(s, i);
    }
  }

  lemma TagTaken(s: string, i: nat, name: string)
    requires i + |name| + 2 <= |s| && s[i] == '<' && s[i + |name| + 1] == '>' && s[i + 1..i + |name| + 1] == name
    requires name != [] && NameStart(name[0]) && forall k :: 0 <= k < |name| ==> NameChar(name[k])
    ensures OpenTagAt(s, i) == Some(Tag(name, i + |name| + 2))
  {
    hide NameStart, NameChar, SkipName;
    var e := i + |name| + 1;
    assert forall k :: i + 1 <= k < e ==> s[k] == s[i + 1..e][k - i - 1];
    BracketIsNoName();
    NameEnds(s, i + 1, e);
    assert s[i + 1] == name[0];
  }

  lemma BracketIsNoName()
    ensures !NameChar('>')
  {}

  lemma {:induction false} NameEnds(s: string, i: nat, e: nat)
    requires i <= e < |s| && (forall k :: i <= k < e ==> NameChar(s[k])) && s[e] == '>'
    ensures SkipName(s, i) == e
    decreases e - i
  {
    hide NameChar;
    BracketIsNoName();
    if i < e {
      NameEnds(s, i + 1, e);
    }
  }

  lemma NamesOnly(s: string, i: nat)
    requires i < |s| && OpenTagAt(s, i).Some?
    ensures var tag := OpenTagAt(s, i).value;
            && tag.end == i + |tag.name| + 2 <= |s| && s[i] == '<' && s[tag.end - 1] == '>'
            && s[i + 1..tag.end - 1] == tag.name && tag.name != [] && NameStart(tag.name[0])
            && forall k :: 0 <= k < |tag.name| ==> NameChar(tag.name[k])
  {
    var j := SkipName(s, i + 1);
    assert NameChar(s[i + 1]);
    assert SkipName(s, i + 1) == SkipName(s, i + 2);
  }

  /** A closing tag counts when spaces and tabs are all there is before it on its line. */
  lemma ClosingTagIs(before: string, x: string, name: string, rest: string)
    requires (before == "" || before[|before| - 1] == '\n') && '\n' !in x
    ensures ClosesTagAt(before + x + ("</" + name + ">" + rest), name, |before| + |x|) <==>
            forall i :: 0 <= i < |x| ==> x[i] == ' ' || x[i] == '\t'
  {
    var tag := "</" + name + ">";
    var s, p := before + x + (tag + rest), |before| + |x|;
    assert s[p..p + |tag|] == tag;
    assert forall i :: 0 <= i < |x| ==> s[|before| + i] == x[i];
    LineStartIs(s, |before|, p);
  }

  lemma {:induction false} LineStartIs(s: string, i: nat, p: nat)
    requires i <= p <= |s| && (i == 0 || s[i - 1] == '\n') && forall k :: i <= k < p ==> s[k] != '\n'
    ensures LineStartOf(s, p) == i
  {
    if i < p {
      LineStartIs(s, i, p - 1);
    }
  }

  /** A tag behind blanks makes a block, up to its first closing tag and the line feed that may follow, unless a fence
      covers the tag. */
  lemma BlockIs(s: string, fences: seq<Region>, i: nat, j: nat, name: string, p: nat)
    requires i <= j < |s| && forall k :: i <= k < j ==> s[k] == ' ' || s[k] == '\t'
    requires OpenTagAt(s, j) == Some(Tag(name, j + |name| + 2))
    requires j + |name| + 2 <= p && ClosesTagAt(s, name, p)
    requires forall q :: j + |name| + 2 <= q < p ==> !ClosesTagAt(s, name, q)
    ensures var end := p + |name| + 3;
            XmlAt(s, fences, i) ==
            if exists k :: 0 <= k < |fences| && fences[k].range.start <= j < fences[k].range.end then None
            else Some(Region(Range(i, if end < |s| && s[end] == '\n' then end + 1 else end), Xml(name)))
  {
    hide OpenTagAt, ClosesTagAt, CloseTagFrom, XmlAt, SkipBlanks;
    TagEnd(s, j);
    TagStarts(s, j);
    SkipBlanksIs(s, i, j);
    CloseTagIsFirst(s, j + |name| + 2, name);
    XmlAtUnfold(s, fences, i);
  }

  lemma TagStarts(s: string, j: nat)
    requires j < |s| && OpenTagAt(s, j).Some?
    ensures s[j] == '<'
  {}
}
