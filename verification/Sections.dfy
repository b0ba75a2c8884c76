/** The section parser of the instruction files: a loop over lines with flags and a buffer, and the line
    automaton that says which lines are kept and under which guard. */
module Sections {
  import opened Option
  import opened Text

  datatype When = Always | TaskType(task: string) | Path(glob: string) | Lang(lang: string)

  datatype Section = Section(when: When, source: string, name: Option<string>, body: string)

  function StripPrefix(s: string, prefix: string): Option<string> {
    if StartsWith(s, prefix) then Some(s[|prefix|..]) else None
  }

  function ParseCondition(s: string): When {
    if StripPrefix(s, "task=").Some? then TaskType(Trim(s[5..]))
    else if StripPrefix(s, "path=").Some? then Path(Trim(s[5..]))
    else if StripPrefix(s, "lang=").Some? then Lang(Trim(s[5..]))
    else Always
  }

  /** Each of the three prefixes gives its own guard over the trimmed rest, and any other text the guard that
      always holds. */
  lemma ConditionIs(rest: string, s: string)
    ensures ParseCondition("task=" + rest) == TaskType(Trim(rest))
    ensures ParseCondition("path=" + rest) == Path(Trim(rest))
    ensures ParseCondition("lang=" + rest) == Lang(Trim(rest))
    ensures ParseCondition(s) == Always <==> !exists r :: s == "task=" + r || s == "path=" + r || s == "lang=" + r
  {
    hide Trim;
    hide StartsWith;
    ConditionPrefix("task=", rest);
    ConditionPrefix("path=", rest);
    ConditionPrefix("lang=", rest);
    StartsWithIff(s, "task=");
    StartsWithIff(s, "path=");
    StartsWithIff(s, "lang=");
  }

  lemma ConditionPrefix(prefix: string, rest: string)
    requires |prefix| == 5
    ensures StartsWith(prefix + rest, prefix) && (prefix + rest)[5..] == rest
    ensures forall other: string :: |other| == 5 && StartsWith(prefix + rest, other) ==> other == prefix
  {
    assert (prefix + rest)[..5] == prefix;
  }

  // ----- The line automaton -----

  /** The guard and the heading a line stands under, and the two flags. */
  datatype Mode = Mode(when: When, name: Option<string>, inFence: bool, inCodeFence: bool)

  const START := Mode(Always, None, false, false)

  datatype LineKind = CodeFence | End | Guard(when: When) | OtherDirective | Heading(name: string) | Plain

  function Classify(m: Mode, line: string): LineKind {
    var trimmed := TrimStart(line);
    if StartsWith(trimmed, "```") then CodeFence
    else if !m.inCodeFence && StartsWith(trimmed, ":::") then
      var rest := Trim(trimmed[3..]);
      if rest == [] then End
      else if StartsWith(rest, "when") then Guard(ParseCondition(Trim(rest[4..])))
      else OtherDirective
    else if !m.inCodeFence && !m.inFence && StartsWith(trimmed, "## ") then Heading(Trim(trimmed[3..]))
    else Plain
  }

  /** What each kind of line looks like behind its indentation. */
  lemma KindIs(m: Mode, line: string)
    ensures var k, t := Classify(m, line), TrimStart(line);
            && (k == CodeFence <==> exists r :: t == "```" + r)
            && (k == End <==> !m.inCodeFence && exists r :: t == ":::" + r && Trim(r) == "")
            && (forall w :: k == Guard(w) <==> !m.inCodeFence && exists r, c ::
                t == ":::" + r && Trim(r) == "when" + c && w == ParseCondition(Trim(c)))
            && (k == OtherDirective <==> !m.inCodeFence && exists r ::
                t == ":::" + r && Trim(r) != "" && !exists c :: Trim(r) == "when" + c)
            && (forall n :: k == Heading(n) <==> !m.inCodeFence && !m.inFence && exists r ::
                t == "## " + r && n == Trim(r))
  {
    hide TrimStart, Trim, ParseCondition, StartsWith;
    var t := TrimStart(line);
    StartsWithIff(t, "```");
    StartsWithIff(t, ":::");
    StartsWithIff(t, "## ");
    forall r ensures t == ":::" + r ==> r == t[3..] {}
    forall r ensures t == "## " + r ==> r == t[3..] {}
    if |t| >= 3 {
      var rest := Trim(t[3..]);
      StartsWithIff(rest, "when");
      forall c ensures rest == "when" + c ==> c == rest[4..] {}
    }
  }

  predicate Keeps(k: LineKind) { k.Plain? || k.CodeFence? }

  predicate Flushes(k: LineKind) { k.End? || k.Guard? || k.Heading? }

  function Advance(m: Mode, k: LineKind): Mode {
    match k
    case CodeFence => m.(inCodeFence := !m.inCodeFence)
    case End => m.(when := Always, inFence := false)
    case Guard(when) => m.(when := when, inFence := true)
    case Heading(name) => m.(when := Always, name := Some(name))
    case _ => m
  }

  /** The mode before line `i`. */
  function ModeAt(lines: seq<string>, i: nat): Mode
    requires i <= |lines|
  {
    if i == 0 then START else
    var m := ModeAt(lines, i - 1);
    Advance(m, Classify(m, lines[i - 1]))
  }

  function KindAt(lines: seq<string>, i: nat): LineKind
    requires i < |lines|
  {
    Classify(ModeAt(lines, i), lines[i])
  }

  /** The guard is what the last guard, end or heading before the line set; the heading is the last one. */
  lemma {:induction false} GuardInForce(lines: seq<string>, j: nat, i: nat)
    requires j < i <= |lines|
    requires forall n :: j < n < i ==>
               !KindAt(lines, n).Guard? && !KindAt(lines, n).End? && !KindAt(lines, n).Heading?
    ensures var k := KindAt(lines, j);
            && (k.Guard? ==> ModeAt(lines, i).when == k.when && ModeAt(lines, i).inFence)
            && (k.End? ==> ModeAt(lines, i).when == Always && !ModeAt(lines, i).inFence)
            && (k.Heading? ==> ModeAt(lines, i).when == Always && ModeAt(lines, i).name == Some(k.name))
  {
    hide Classify;
    if i > j + 1 {
      GuardInForce(lines, j, i - 1);
      assert KindAt(lines, i - 1) == Classify(ModeAt(lines, i - 1), lines[i - 1]);
    }
  }

  lemma {:induction false} NameInForce(lines: seq<string>, j: nat, i: nat)
    requires j <= i <= |lines| && forall n :: j <= n < i ==> !KindAt(lines, n).Heading?
    ensures ModeAt(lines, i).name == ModeAt(lines, j).name
  {
    hide Classify;
    if i > j {
      NameInForce(lines, j, i - 1);
      assert KindAt(lines, i - 1) == Classify(ModeAt(lines, i - 1), lines[i - 1]);
    }
  }

  /** A file starts outside of everything; every line of three backticks, and no other, goes in or out of a code
      fence. */
  lemma CodeFenceToggles(lines: seq<string>, i: nat)
    requires i < |lines|
    ensures ModeAt(lines, 0) == Mode(Always, None, false, false)
    ensures (ModeAt(lines, i + 1).inCodeFence != ModeAt(lines, i).inCodeFence) <==>
            exists r :: TrimStart(lines[i]) == "```" + r
  {
    hide Classify, TrimStart;
    KindIs(ModeAt(lines, i), lines[i]);
  }

  // ----- The loop -----

  function Flush(out: seq<Section>, m: Mode, buf: string, source: string): seq<Section> {
    if Trim(buf) == [] then out else out + [Section(m.when, source, m.name, buf)]
  }

  method ParseAgentsMd(src: string, source: string) returns (out: seq<Section>)
    ensures out == Rendered(Lines(src), Segments(Lines(src)), source)
  {
    hide Trim, TrimStart, Lines, ParseCondition, ModeAt, Before, Open, Body, Rendered, Segments, KindAt;
    out := [];
    NoLines(Lines(src), source);
    var when, name := Always, None;
    var buf := "";
    var inFence, inCodeFence := false, false;
    var lines := Lines(src);
    for i := 0 to |lines|
      invariant ModeAt(lines, i) == Mode(when, name, inFence, inCodeFence)
      invariant out == Rendered(lines, Before(lines, i), source)
      invariant buf == Body(lines, Open(lines, i))
    {
      var line := lines[i];
      var trimmed := TrimStart(line);
      ghost var m := Mode(when, name, inFence, inCodeFence);
      KindHere(lines, i);
      NextLine(lines, i, source);
      if StartsWith(trimmed, "```") {
        inCodeFence := !inCodeFence;
        buf := buf + line + "\n";
        continue;
      }
      if !inCodeFence && StartsWith(trimmed, ":::") {
        var rest := Trim(trimmed[3..]);
        if rest == [] {
          out := Flush(out, Mode(when, name, inFence, inCodeFence), buf, source);
          buf := "";
          when := Always;
          inFence := false;
          continue;
        }
        if StartsWith(rest, "when") {
          out := Flush(out, Mode(when, name, inFence, inCodeFence), buf, source);
          buf := "";
          when := ParseCondition(Trim(rest[4..]));
          inFence := true;
        }
        continue;
      }
      if !inCodeFence && !inFence && StartsWith(trimmed, "## ") {
        out := Flush(out, Mode(when, name, inFence, inCodeFence), buf, source);
        buf := "";
        when := Always;
        name := Some(Trim(trimmed[3..]));
        continue;
      }
      buf := buf + line + "\n";
    }
    out := Flush(out, Mode(when, name, inFence, inCodeFence), buf, source);
    LastSegment(lines, source);
  }

  // ----- Segments: which lines end up together -----

  /** A run of kept lines under one guard and heading, as line numbers. */
  datatype Segment = Segment(when: When, name: Option<string>, lines: seq<nat>)

  predicate Bounded(lines: seq<string>, numbers: seq<nat>) {
    forall j :: 0 <= j < |numbers| ==> numbers[j] < |lines|
  }

  /** The lines with a line feed behind each. */
  function Body(lines: seq<string>, numbers: seq<nat>): string
    requires Bounded(lines, numbers)
  {
    if numbers == [] then [] else
    Body(lines, numbers[..|numbers| - 1]) + lines[numbers[|numbers| - 1]] + "\n"
  }

  /** What is kept since the last flush once line `n` of kind `k` has been read. */
  function Kept(numbers: seq<nat>, k: LineKind, n: nat): (r: seq<nat>)
    requires forall j :: 0 <= j < |numbers| ==> numbers[j] < n
    ensures forall j :: 0 <= j < |r| ==> r[j] < n + 1
  {
    if Flushes(k) then [] else if Keeps(k) then numbers + [n] else numbers
  }

  /** The lines kept since the last flush before line `i`. */
  function Open(lines: seq<string>, i: nat): (numbers: seq<nat>)
    requires i <= |lines|
    ensures forall j :: 0 <= j < |numbers| ==> numbers[j] < i
  {
    if i == 0 then [] else Kept(Open(lines, i - 1), KindAt(lines, i - 1), i - 1)
  }

  /** The segments flushed before line `i`. */
  function Before(lines: seq<string>, i: nat): seq<Segment>
    requires i <= |lines|
  {
    if i == 0 then [] else
    Before(lines, i - 1) +
      if Flushes(KindAt(lines, i - 1)) then
        [Segment(ModeAt(lines, i - 1).when, ModeAt(lines, i - 1).name, Open(lines, i - 1))]
      else []
  }

  function Segments(lines: seq<string>): seq<Segment> {
    var n := |lines|;
    Before(lines, n) + [Segment(ModeAt(lines, n).when, ModeAt(lines, n).name, Open(lines, n))]
  }

  predicate AllBounded(lines: seq<string>, segments: seq<Segment>) {
    forall j :: 0 <= j < |segments| ==> Bounded(lines, segments[j].lines)
  }

  /** The sections: the segments whose text is not blank. */
  function Rendered(lines: seq<string>, segments: seq<Segment>, source: string): seq<Section> {
    if segments == [] then [] else
    var init, last := segments[..|segments| - 1], segments[|segments| - 1];
    if !Bounded(lines, last.lines) || Trim(Body(lines, last.lines)) == [] then Rendered(lines, init, source)
    else Rendered(lines, init, source) + [SectionOf(lines, last, source)]
  }

  function SectionOf(lines: seq<string>, s: Segment, source: string): Section
    requires Bounded(lines, s.lines)
  {
    Section(s.when, source, s.name, Body(lines, s.lines))
  }

  lemma NoLines(lines: seq<string>, source: string)
    ensures ModeAt(lines, 0) == START
    ensures Before(lines, 0) == [] && Rendered(lines, [], source) == []
    ensures Body(lines, Open(lines, 0)) == []
  {}

  lemma KindHere(lines: seq<string>, i: nat)
    requires i < |lines|
    ensures KindAt(lines, i) == Classify(ModeAt(lines, i), lines[i])
  {}

  lemma RenderedPush(lines: seq<string>, segments: seq<Segment>, s: Segment, source: string)
    requires Bounded(lines, s.lines)
    ensures Rendered(lines, segments + [s], source)
         == Flush(Rendered(lines, segments, source), Mode(s.when, s.name, false, false), Body(lines, s.lines), source)
  {
    assert (segments + [s])[..|segments|] == segments;
  }

  lemma NextLine(lines: seq<string>, i: nat, source: string)
    requires i < |lines|
    ensures var k, m := KindAt(lines, i), ModeAt(lines, i);
            && ModeAt(lines, i + 1) == Advance(m, k)
            && Rendered(lines, Before(lines, i + 1), source) ==
               (if Flushes(k) then
                  Flush(Rendered(lines, Before(lines, i), source), m, Body(lines, Open(lines, i)), source)
                else Rendered(lines, Before(lines, i), source))
            && Body(lines, Open(lines, i + 1)) ==
               (if Flushes(k) then "" else if Keeps(k) then Body(lines, Open(lines, i)) + lines[i] + "\n"
                 else Body(lines, Open(lines, i)))
  {
    hide Trim, Classify;
    var k, m := KindAt(lines, i), ModeAt(lines, i);
    if Flushes(k) {
      RenderedPush(lines, Before(lines, i), Segment(m.when, m.name, Open(lines, i)), source);
    } else {
      assert Before(lines, i) + [] == Before(lines, i);
      assert Open(lines, i) + [] == Open(lines, i);
      assert (Open(lines, i) + [i])[..|Open(lines, i)|] == Open(lines, i);
    }
  }

  lemma LastSegment(lines: seq<string>, source: string)
    ensures var n := |lines|;
            Rendered(lines, Segments(lines), source) ==
            Flush(Rendered(lines, Before(lines, n), source), ModeAt(lines, n), Body(lines, Open(lines, n)), source)
  {
    hide Trim;
    var n := |lines|;
    RenderedPush(lines, Before(lines, n), Segment(ModeAt(lines, n).when, ModeAt(lines, n).name, Open(lines, n)),
      source);
  }

  // ----- Nothing is lost, nothing is invented, every guard is right -----

  /** The numbers of the lines the automaton keeps among the first `i`. */
  function KeptLines(lines: seq<string>, i: nat): seq<nat>
    requires i <= |lines|
  {
    if i == 0 then [] else KeptLines(lines, i - 1) + if Keeps(KindAt(lines, i - 1)) then [i - 1] else []
  }

  function AllLines(segments: seq<Segment>): seq<nat> {
    if segments == [] then [] else AllLines(segments[..|segments| - 1]) + segments[|segments| - 1].lines
  }

  lemma AllLinesPush(segments: seq<Segment>, s: Segment)
    ensures AllLines(segments + [s]) == AllLines(segments) + s.lines
  {
    assert (segments + [s])[..|segments|] == segments;
  }

  lemma LineRead(lines: seq<string>, i: nat)
    requires 0 < i <= |lines|
    ensures var k, m := KindAt(lines, i - 1), ModeAt(lines, i - 1);
            && Open(lines, i) == Kept(Open(lines, i - 1), k, i - 1)
            && Before(lines, i) == Before(lines, i - 1) +
                 (if Flushes(k) then [Segment(m.when, m.name, Open(lines, i - 1))] else [])
            && KeptLines(lines, i) == KeptLines(lines, i - 1) + if Keeps(k) then [i - 1] else []
  {
    hide KindAt, ModeAt, Kept;
  }

  lemma NothingRead(lines: seq<string>)
    ensures Open(lines, 0) == [] && Before(lines, 0) == [] && KeptLines(lines, 0) == [] && AllLines([]) == []
  {}

  lemma {:induction false} BeforeConserves(lines: seq<string>, i: nat)
    requires i <= |lines|
    ensures AllLines(Before(lines, i)) + Open(lines, i) == KeptLines(lines, i)
  {
    hide ModeAt, KindAt, Open, Before, KeptLines, AllLines;
    if i == 0 {
      NothingRead(lines);
    } else {
      BeforeConserves(lines, i - 1);
      LineRead(lines, i);
      var k, m := KindAt(lines, i - 1), ModeAt(lines, i - 1);
      if Flushes(k) {
        AllLinesPush(Before(lines, i - 1), Segment(m.when, m.name, Open(lines, i - 1)));
      } else {
        assert Before(lines, i - 1) + [] == Before(lines, i - 1);
      }
    }
  }

  /** The segments, one after the other, are exactly the lines the automaton keeps, in order. */
  lemma SegmentsConserve(lines: seq<string>)
    ensures AllLines(Segments(lines)) == KeptLines(lines, |lines|)
    ensures AllBounded(lines, Segments(lines))
  {
    hide ModeAt, Before, Open, KindAt, KeptLines, AllLines;
    var n := |lines|;
    BeforeConserves(lines, n);
    BeforeBounded(lines, n);
    AllLinesPush(Before(lines, n), Segment(ModeAt(lines, n).when, ModeAt(lines, n).name, Open(lines, n)));
  }

  lemma {:induction false} BeforeBounded(lines: seq<string>, i: nat)
    requires i <= |lines|
    ensures AllBounded(lines, Before(lines, i))
  {
    hide Classify;
    if i > 0 {
      BeforeBounded(lines, i - 1);
    }
  }

  /** Every line of the segment stands under the segment's guard and heading. */
  ghost predicate GuardRight(lines: seq<string>, s: Segment) {
    forall n :: n in s.lines ==> n < |lines| && ModeAt(lines, n).when == s.when && ModeAt(lines, n).name == s.name
  }

  lemma {:induction false} OpenGuard(lines: seq<string>, i: nat)
    requires i <= |lines|
    ensures GuardRight(lines, Segment(ModeAt(lines, i).when, ModeAt(lines, i).name, Open(lines, i)))
  {
    hide Classify;
    if i > 0 {
      OpenGuard(lines, i - 1);
    }
  }

  lemma {:induction false} BeforeGuards(lines: seq<string>, i: nat)
    requires i <= |lines|
    ensures forall s :: s in Before(lines, i) ==> GuardRight(lines, s)
  {
    hide Classify, GuardRight;
    if i > 0 {
      BeforeGuards(lines, i - 1);
      OpenGuard(lines, i - 1);
    }
  }

  lemma SegmentGuards(lines: seq<string>)
    ensures forall s :: s in Segments(lines) ==> GuardRight(lines, s)
  {
    hide GuardRight;
    BeforeGuards(lines, |lines|);
    OpenGuard(lines, |lines|);
  }

  lemma RenderedUnfold(lines: seq<string>, segments: seq<Segment>, source: string)
    requires AllBounded(lines, segments)
    ensures segments == [] ==> Rendered(lines, segments, source) == []
    ensures segments != [] ==>
              var init, last := segments[..|segments| - 1], segments[|segments| - 1];
              && AllBounded(lines, init)
              && Rendered(lines, segments, source) == Rendered(lines, init, source) +
                   if Trim(Body(lines, last.lines)) == [] then [] else [SectionOf(lines, last, source)]
  {
    hide Trim, Body, SectionOf;
  }

  /** The sections are the non-blank segments, in order: a section comes from one segment, later ones from later
      ones. */
  lemma {:induction false} SectionsAreSegments(lines: seq<string>, segments: seq<Segment>, source: string)
      returns (from: seq<nat>)
    requires AllBounded(lines, segments)
    ensures |from| == |Rendered(lines, segments, source)|
    ensures forall j :: 0 <= j < |from| ==>
              from[j] < |segments| &&
                Rendered(lines, segments, source)[j] == SectionOf(lines, segments[from[j]], source)
    ensures forall j, k :: 0 <= j < k < |from| ==> from[j] < from[k]
    ensures forall n :: 0 <= n < |segments| ==> (n in from <==> Trim(Body(lines, segments[n].lines)) != [])
  {
    hide Trim, Body, SectionOf, Rendered;
    RenderedUnfold(lines, segments, source);
    if segments == [] {
      from := [];
    } else {
      var init, last := segments[..|segments| - 1], segments[|segments| - 1];
      from := SectionsAreSegments(lines, init, source);
      if Trim(Body(lines, last.lines)) != [] {
        from := from + [|segments| - 1];
      }
    }
  }

  // ----- What is kept, and where segments end -----

  /** Kept are the lines of three backticks and those that are nothing special, in order. */
  lemma {:induction false} KeptAre(lines: seq<string>, i: nat)
    requires i <= |lines|
    ensures forall n: nat :: n in KeptLines(lines, i) <==>
              n < i && (KindAt(lines, n) == Plain || KindAt(lines, n) == CodeFence)
    ensures forall j, k :: 0 <= j < k < |KeptLines(lines, i)| ==> KeptLines(lines, i)[j] < KeptLines(lines, i)[k]
  {
    hide Classify, ModeAt;
    if i > 0 {
      KeptAre(lines, i - 1);
      var before := KeptLines(lines, i - 1);
      assert forall j :: 0 <= j < |before| ==> before[j] in before;
    }
  }

  /** A line ends a segment: a guard, an end or a heading. */
  predicate Cuts(lines: seq<string>, n: nat)
    requires n < |lines|
  {
    KindAt(lines, n).Guard? || KindAt(lines, n).End? || KindAt(lines, n).Heading?
  }

  /** The lines not yet in a segment are the kept ones behind the last line that ends one. */
  lemma {:induction false} OpenAre(lines: seq<string>, i: nat, n: nat)
    requires i <= |lines|
    ensures n in Open(lines, i) <==> n in KeptLines(lines, i) && forall m: nat :: n < m < i ==> !Cuts(lines, m)
  {
    hide KindAt, Open, KeptLines;
    if i == 0 {
      NothingKept(lines, n);
    } else {
      OpenAre(lines, i - 1, n);
      KeptAre(lines, i - 1);
      OpenLast(lines, i, n);
      KeptLast(lines, i, n);
    }
  }

  lemma NothingKept(lines: seq<string>, n: nat)
    ensures n !in Open(lines, 0) && n !in KeptLines(lines, 0)
  {}

  lemma OpenLast(lines: seq<string>, i: nat, n: nat)
    requires 0 < i <= |lines|
    ensures n in Open(lines, i) <==>
            !Cuts(lines, i - 1) && (n in Open(lines, i - 1) || (n == i - 1 && Keeps(KindAt(lines, i - 1))))
  {
    hide KindAt;
  }

  lemma KeptLast(lines: seq<string>, i: nat, n: nat)
    requires 0 < i <= |lines|
    ensures n in KeptLines(lines, i) <==>
            n in KeptLines(lines, i - 1) || (n == i - 1 && Keeps(KindAt(lines, i - 1)))
  {
    hide KindAt;
  }

  /** The lines that end segments, among the first `i`. */
  function CutLines(lines: seq<string>, i: nat): seq<nat>
    requires i <= |lines|
  {
    if i == 0 then [] else CutLines(lines, i - 1) + if Cuts(lines, i - 1) then [i - 1] else []
  }

  /** There is one segment for each line that ends one, in order, and it holds what was open there. */
  lemma {:induction false} SegmentsAre(lines: seq<string>, i: nat)
    requires i <= |lines|
    ensures |Before(lines, i)| == |CutLines(lines, i)|
    ensures forall k :: 0 <= k < |CutLines(lines, i)| ==>
              CutLines(lines, i)[k] < i && Before(lines, i)[k].lines == Open(lines, CutLines(lines, i)[k])
  {
    hide KindAt, Open, ModeAt;
    if i > 0 {
      SegmentsAre(lines, i - 1);
      var cuts, before := CutLines(lines, i - 1), Before(lines, i - 1);
      if Cuts(lines, i - 1) {
        assert CutLines(lines, i) == cuts + [i - 1];
      } else {
        assert CutLines(lines, i) == cuts && Before(lines, i) == before;
      }
    }
  }

  /** Three colons, `when` and a condition make a guard, whatever white space stands before each of them. */
  lemma GuardLine(m: Mode, a: string, b: string, c: string, condition: string)
    requires Blank(a) && Blank(b) && Blank(c) && !m.inCodeFence
    requires condition != "" && !IsWhitespace(condition[0]) && !IsWhitespace(condition[|condition| - 1])
    ensures Classify(m, a + (":::" + (b + ("when" + (c + condition))))) == Guard(ParseCondition(condition))
  {
    hide Trim, TrimStart, Classify, ParseCondition, IsWhitespace, Blank;
    AsciiWhitespace(':');
    AsciiWhitespace('w');
    TrimNothingIff("");
    var text := "when" + (c + condition);
    assert text[|text| - 1] == condition[|condition| - 1];
    TrimStartIs(a, ":::" + (b + text));
    NothingBehind(b, text);
    NothingBehind(c, condition);
    KindIs(m, a + (":::" + (b + text)));
  }

  lemma NothingBehind(before: string, t: string)
    requires Blank(before) && t != "" && !IsWhitespace(t[0]) && !IsWhitespace(t[|t| - 1])
    ensures Trim(before + t) == t
  {
    hide Trim, IsWhitespace;
    TrimIs(before, t, "");
    assert before + t + "" == before + t;
  }

  /** Three colons alone make an end. */
  lemma EndLine(m: Mode, a: string, b: string)
    requires Blank(a) && Blank(b) && !m.inCodeFence
    ensures Classify(m, a + (":::" + b)) == End
  {
    hide Trim, TrimStart, Classify, ParseCondition, IsWhitespace, Blank;
    AsciiWhitespace(':');
    TrimStartIs(a, ":::" + b);
    TrimNothingIff(b);
    KindIs(m, a + (":::" + b));
  }

  /** A line between a guard and an end is one section, under the guard and without a heading. */
  lemma GuardedLine(first: string, when: When, line: string, last: string, source: string)
    requires Classify(START, first) == Guard(when)
    requires Trim(line) != "" && Classify(Mode(when, None, true, false), line) == Plain
    requires Classify(Mode(when, None, true, false), last) == End
    ensures var lines := [first, line, last];
            Rendered(lines, Segments(lines), source) == [Section(when, source, None, line + "\n")]
  {
    hide Classify, Trim, Rendered, Body, Before, Open, ModeAt, Segments, KindAt;
    var lines := [first, line, last];
    NoLines(lines, source);
    OneLineBody(line);
    NextLine(lines, 0, source);
    KindHere(lines, 0);
    NextLine(lines, 1, source);
    KindHere(lines, 1);
    NextLine(lines, 2, source);
    KindHere(lines, 2);
    LastSegment(lines, source);
  }

  lemma OneLineBody(line: string)
    requires Trim(line) != ""
    ensures Trim("") == "" && "" + line + "\n" == line + "\n" && Trim(line + "\n") != ""
  {
    hide Trim, IsWhitespace;
    TrimNothingIff("");
    TrimNothingIff(line);
    TrimNothingIff(line + "\n");
    assert forall i :: 0 <= i < |line| ==> line[i] == (line + "\n")[i];
  }
}
