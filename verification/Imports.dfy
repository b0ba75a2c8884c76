/** Expansion of `@path` imports: a recursion over files with one shared set of files being expanded. */
module Imports {
  import opened Option
  import opened Text

  type Path = string

  const MAX_IMPORT_DEPTH := 5

  /** The file system: canonical paths and their texts, and how a reference from a directory resolves. */
  datatype Files = Files(texts: map<Path, string>, resolve: (Path, string) -> Option<Path>, parent: Path -> Path)

  // ----- Fences -----

  /** The marker of the fence around a line, if any: the state before each line. */
  function FenceAfter(fence: Option<string>, line: string): Option<string> {
    var trimmed := TrimStart(line);
    match fence
    case Some(marker) => if StartsWith(trimmed, marker) then None else fence
    case None =>
      if StartsWith(trimmed, "```") then Some("```")
      else if StartsWith(trimmed, "~~~") then Some("~~~")
      else None
  }

  /** Whether a line is text of a fence or one of its two markers. */
  predicate Fenced(fence: Option<string>, line: string) {
    fence.Some? || FenceAfter(fence, line).Some?
  }

  /** The reference on a line: `@` and one token. */
  function Reference(line: string): Option<string> {
    var t := Trim(line);
    if t != [] && t[0] == '@' && t[1..] != [] && forall i :: 1 <= i < |t| ==> !IsWhitespace(t[i])
    then Some(t[1..])
    else None
  }

  /** A token: not empty, and no white space in it. */
  predicate IsToken(token: string) {
    token != [] && forall i :: 0 <= i < |token| ==> !IsWhitespace(token[i])
  }

  lemma ReferenceIs(line: string, token: string)
    ensures Reference(line) == Some(token) <==> Trim(line) == "@" + token && IsToken(token)
  {
    hide IsWhitespace, Trim;
    var t := Trim(line);
    if Reference(line) == Some(token) {
      assert t == "@" + token;
      assert forall i :: 0 <= i < |token| ==> token[i] == t[i + 1];
    }
    if t == "@" + token && IsToken(token) {
      assert t[1..] == token;
      assert forall i :: 1 <= i < |t| ==> t[i] == token[i - 1];
    }
  }

  /** `@` and a token between white space refers to the token. */
  lemma ReferenceTo(before: string, token: string, after: string)
    requires Blank(before) && Blank(after) && IsToken(token)
    ensures Reference(before + "@" + token + after) == Some(token)
  {
    hide IsWhitespace, Reference, Trim;
    var t := "@" + token;
    AsciiWhitespace('@');
    assert t[|t| - 1] == token[|token| - 1];
    TrimIs(before, t, after);
    assert before + "@" + token + after == before + t + after;
    ReferenceIs(before + "@" + token + after, token);
  }

  /** No other line refers to anything. */
  lemma ReferenceFrom(line: string) returns (before: string, after: string)
    ensures Reference(line).Some? ==>
              var token := Reference(line).value;
              line == before + "@" + token + after && Blank(before) && Blank(after) && IsToken(token)
  {
    hide IsWhitespace, Reference, Trim, Blank, IsToken;
    before, after := TrimSplits(line);
    if Reference(line).Some? {
      ReferenceIs(line, Reference(line).value);
      assert before + Trim(line) == before + "@" + Reference(line).value;
    }
  }

  /** Three backticks or three tildes open a fence, and only the same three close it. */
  lemma FenceAfterIs(fence: Option<string>, line: string)
    ensures fence == None ==>
              && (FenceAfter(fence, line) == Some("```") <==> exists t :: TrimStart(line) == "```" + t)
              && (FenceAfter(fence, line) == Some("~~~") <==> exists t :: TrimStart(line) == "~~~" + t)
              && FenceAfter(fence, line) in {None, Some("```"), Some("~~~")}
    ensures fence.Some? ==>
              (FenceAfter(fence, line) == if exists t :: TrimStart(line) == fence.value + t then None else fence)
  {
    hide StartsWith, TrimStart;
    var t := TrimStart(line);
    StartsWithIff(t, "```");
    StartsWithIff(t, "~~~");
    if fence.Some? {
      StartsWithIff(t, fence.value);
    } else if StartsWith(t, "~~~") {
      assert t[0] == '~' by { var rest :| t == "~~~" + rest; }
    }
  }

  /** A line is literal inside a fence, and as the marker that opens one. */
  lemma FencedIs(fence: Option<string>, line: string)
    ensures Fenced(fence, line) <==>
              fence.Some? || exists t :: TrimStart(line) == "```" + t || TrimStart(line) == "~~~" + t
  {
    hide TrimStart;
    FenceAfterIs(fence, line);
  }

  function WithNewline(s: string): string {
    if s != [] && s[|s| - 1] == '\n' then s else s + "\n"
  }

  // ----- The expansion as a pure recursion, the ancestors passed by value -----

  /** The file to expand for a reference, if it may be expanded. */
  function Target(fs: Files, token: string, dir: Path, ancestors: set<Path>): Option<Path> {
    var p := fs.resolve(dir, token);
    if p.None? || p.value !in fs.texts || p.value in ancestors then None else p
  }

  /** What one line outside a fence imports. */
  function Imported(fs: Files, line: string, dir: Path, depth: nat, ancestors: set<Path>): Option<Path> {
    var token := Reference(line);
    if token.None? || depth >= MAX_IMPORT_DEPTH then None else Target(fs, token.value, dir, ancestors)
  }

  /** A line imports a file while fewer than five are open and the file is none of those. */
  lemma ImportedIff(fs: Files, line: string, dir: Path, depth: nat, ancestors: set<Path>, p: Path)
    ensures Imported(fs, line, dir, depth, ancestors) == Some(p) <==>
            && depth < 5 && p in fs.texts && p !in ancestors
            && exists token :: Reference(line) == Some(token) && fs.resolve(dir, token) == Some(p)
  {
    hide Reference;
  }

  function Expanded(fs: Files, lines: seq<string>, fence: Option<string>, dir: Path, depth: nat,
      ancestors: set<Path>): string
    requires depth <= MAX_IMPORT_DEPTH
    decreases MAX_IMPORT_DEPTH - depth, |lines|
  {
    if lines == [] then [] else
    var rest := Expanded(fs, lines[1..], FenceAfter(fence, lines[0]), dir, depth, ancestors);
    var p := if Fenced(fence, lines[0]) then None else Imported(fs, lines[0], dir, depth, ancestors);
    if p.None? then lines[0] + "\n" + rest
    else WithNewline(Expanded(fs, Lines(fs.texts[p.value]), None, fs.parent(p.value), depth + 1,
      ancestors + {p.value})) + rest
  }

  // ----- The nesting of the expansion -----

  /** The chains of files that get expanded one inside the other, outermost first. */
  function Chains(fs: Files, lines: seq<string>, fence: Option<string>, dir: Path, depth: nat,
      ancestors: set<Path>): seq<seq<Path>>
    requires depth <= MAX_IMPORT_DEPTH
    decreases MAX_IMPORT_DEPTH - depth, |lines|
  {
    if lines == [] then [] else
    var rest := Chains(fs, lines[1..], FenceAfter(fence, lines[0]), dir, depth, ancestors);
    var p := if Fenced(fence, lines[0]) then None else Imported(fs, lines[0], dir, depth, ancestors);
    if p.None? then rest else ChainsOf(fs, p.value, depth + 1, ancestors) + rest
  }

  /** The chains that begin with the file. */
  function ChainsOf(fs: Files, p: Path, depth: nat, ancestors: set<Path>): seq<seq<Path>>
    requires depth <= MAX_IMPORT_DEPTH && p in fs.texts
    decreases MAX_IMPORT_DEPTH - depth + 1, 0
  {
    [[p]] + Under(p, Chains(fs, Lines(fs.texts[p]), None, fs.parent(p), depth, ancestors + {p}))
  }

  function Under(p: Path, chains: seq<seq<Path>>): (r: seq<seq<Path>>)
    ensures |r| == |chains|
  {
    seq(|chains|, i requires 0 <= i < |chains| => [p] + chains[i])
  }

  // ----- The code -----

  class Visited {
    var paths: set<Path>

    constructor ()
      ensures paths == {}
    {
      paths := {};
    }
  }

  /** `chains` records what the calls under way were, each time a file began to be expanded. */
  method ExpandImportsRec(fs: Files, src: string, dir: Path, depth: nat, visited: Visited)
      returns (out: string, ghost chains: seq<seq<Path>>)
    requires depth <= MAX_IMPORT_DEPTH
    modifies visited
    ensures visited.paths == old(visited.paths)
    ensures out == Expanded(fs, Lines(src), None, dir, depth, visited.paths)
    ensures chains == Chains(fs, Lines(src), None, dir, depth, visited.paths)
    decreases MAX_IMPORT_DEPTH - depth, 1
  {
    hide Lines, TrimStart, Trim, Expanded, Chains, Reference, StartsWith;
    out := "";
    chains := [];
    var lines := Lines(src);
    var inFence, marker := false, "";
    ghost var fence: Option<string> := None;
    for i := 0 to |lines|
      invariant visited.paths == old(visited.paths)
      invariant fence == if inFence then Some(marker) else None
      invariant out + Expanded(fs, lines[i..], fence, dir, depth, visited.paths)
             == Expanded(fs, lines, None, dir, depth, visited.paths)
      invariant chains + Chains(fs, lines[i..], fence, dir, depth, visited.paths)
             == Chains(fs, lines, None, dir, depth, visited.paths)
    {
      var line := lines[i];
      ExpandedStep(fs, lines, i, fence, dir, depth, visited.paths, out);
      ChainsStep(fs, lines, i, fence, dir, depth, visited.paths, chains);
      var trimmed := TrimStart(line);
      ghost var before := fence;
      fence := FenceAfter(fence, line);
      if !inFence {
        if StartsWith(trimmed, "```") {
          inFence := true;
          marker := "```";
          out := out + line + "\n";
          continue;
        }
        if StartsWith(trimmed, "~~~") {
          inFence := true;
          marker := "~~~";
          out := out + line + "\n";
          continue;
        }
      } else if StartsWith(trimmed, marker) {
        inFence := false;
        out := out + line + "\n";
        continue;
      } else {
        out := out + line + "\n";
        continue;
      }
      var token := Reference(line);
      if token.Some? && depth < MAX_IMPORT_DEPTH {
        var expanded;
        ghost var inner;
        expanded, inner := TryExpandImport(fs, token.value, dir, depth + 1, visited);
        if expanded.Some? {
          chains := chains + inner;
          out := out + expanded.value;
          if !(expanded.value != [] && expanded.value[|expanded.value| - 1] == '\n') {
            out := out + "\n";
          }
          continue;
        }
      }
      out := out + line + "\n";
    }
    ExpandedNil(fs, lines[|lines|..], fence, dir, depth, visited.paths);
    assert chains + [] == chains;
  }

  method TryExpandImport(fs: Files, token: string, dir: Path, depthOfImport: nat, visited: Visited)
      returns (r: Option<string>, ghost chains: seq<seq<Path>>)
    requires 0 < depthOfImport <= MAX_IMPORT_DEPTH
    modifies visited
    ensures visited.paths == old(visited.paths)
    ensures var p := Target(fs, token, dir, visited.paths);
            if p.None? then r == None
            else r == Some(Expanded(fs, Lines(fs.texts[p.value]), None, fs.parent(p.value), depthOfImport,
              visited.paths + {p.value}))
    ensures r.Some? ==>
              chains == ChainsOf(fs, Target(fs, token, dir, visited.paths).value, depthOfImport, visited.paths)
    decreases MAX_IMPORT_DEPTH - depthOfImport, 2
  {
    hide Expanded, Chains, Lines;
    var canonical := fs.resolve(dir, token);
    if canonical.None? {
      return None, [];
    }
    if canonical.value in visited.paths {
      return None, [];
    }
    if canonical.value !in fs.texts {
      return None, [];
    }
    var body := fs.texts[canonical.value];
    visited.paths := visited.paths + {canonical.value};
    var parent := fs.parent(canonical.value);
    var expanded;
    ghost var inner;
    expanded, inner := ExpandImportsRec(fs, body, parent, depthOfImport, visited);
    visited.paths := visited.paths - {canonical.value};
    return Some(expanded), [[canonical.value]] + Under(canonical.value, inner);
  }

  method ExpandImports(fs: Files, src: string, from: Path, canonicalFrom: Option<Path>)
      returns (out: string, ghost chains: seq<seq<Path>>)
    ensures var ancestors := if canonicalFrom.Some? then {canonicalFrom.value} else {};
            && out == Expanded(fs, Lines(src), None, fs.parent(from), 0, ancestors)
            && chains == Chains(fs, Lines(src), None, fs.parent(from), 0, ancestors)
    ensures forall c :: c in chains ==> |c| <= MAX_IMPORT_DEPTH && NoRepeats(c)
    ensures canonicalFrom.Some? ==> forall c :: c in chains ==> canonicalFrom.value !in c
  {
    hide Expanded, Chains, Lines;
    var visited := new Visited();
    if canonicalFrom.Some? {
      visited.paths := visited.paths + {canonicalFrom.value};
      assert visited.paths == {canonicalFrom.value};
    }
    out, chains := ExpandImportsRec(fs, src, fs.parent(from), 0, visited);
    ChainsAreGood(fs, Lines(src), None, fs.parent(from), 0, visited.paths);
  }

  lemma ExpandedNil(fs: Files, lines: seq<string>, fence: Option<string>, dir: Path, depth: nat, ancestors: set<Path>)
    requires depth <= MAX_IMPORT_DEPTH && lines == []
    ensures Expanded(fs, lines, fence, dir, depth, ancestors) == []
    ensures Chains(fs, lines, fence, dir, depth, ancestors) == []
  {}

  /** What the loop has to record for line `i`. */
  lemma ChainsStep(fs: Files, lines: seq<string>, i: nat, fence: Option<string>, dir: Path, depth: nat,
      ancestors: set<Path>, chains: seq<seq<Path>>)
    requires depth <= MAX_IMPORT_DEPTH && i < |lines|
    ensures var line := lines[i];
            var p := if Fenced(fence, line) then None else Imported(fs, line, dir, depth, ancestors);
            var rest := Chains(fs, lines[i + 1..], FenceAfter(fence, line), dir, depth, ancestors);
            chains + Chains(fs, lines[i..], fence, dir, depth, ancestors) ==
            (if p.None? then chains else chains + ChainsOf(fs, p.value, depth + 1, ancestors)) + rest
  {
    hide Lines, FenceAfter, Fenced, Imported, Reference, ChainsOf;
    assert lines[i..][1..] == lines[i + 1..];
  }

  lemma ExpandedCons(fs: Files, lines: seq<string>, fence: Option<string>, dir: Path, depth: nat,
      ancestors: set<Path>)
    requires depth <= MAX_IMPORT_DEPTH && lines != []
    ensures var p := if Fenced(fence, lines[0]) then None else Imported(fs, lines[0], dir, depth, ancestors);
            var rest := Expanded(fs, lines[1..], FenceAfter(fence, lines[0]), dir, depth, ancestors);
            Expanded(fs, lines, fence, dir, depth, ancestors) ==
            if p.None? then lines[0] + "\n" + rest
            else WithNewline(Expanded(fs, Lines(fs.texts[p.value]), None, fs.parent(p.value), depth + 1,
              ancestors + {p.value})) + rest
  {
    hide Lines, FenceAfter, Fenced, Imported, WithNewline;
  }

  /** What the loop has to append for line `i`. */
  lemma ExpandedStep(fs: Files, lines: seq<string>, i: nat, fence: Option<string>, dir: Path, depth: nat,
      ancestors: set<Path>, out: string)
    requires depth <= MAX_IMPORT_DEPTH && i < |lines|
    ensures var line := lines[i];
            var p := if Fenced(fence, line) then None else Imported(fs, line, dir, depth, ancestors);
            var rest := Expanded(fs, lines[i + 1..], FenceAfter(fence, line), dir, depth, ancestors);
            out + Expanded(fs, lines[i..], fence, dir, depth, ancestors) ==
            if p.None? then out + line + "\n" + rest
            else
              var e := Expanded(fs, Lines(fs.texts[p.value]), None, fs.parent(p.value), depth + 1,
                ancestors + {p.value});
              (if e != [] && e[|e| - 1] == '\n' then out + e else out + e + "\n") + rest
  {
    hide Lines, FenceAfter, Fenced, Imported, Expanded;
    var line := lines[i];
    ExpandedCons(fs, lines[i..], fence, dir, depth, ancestors);
    assert lines[i..][1..] == lines[i + 1..];
    assert out + (line + "\n" + Expanded(fs, lines[i + 1..], FenceAfter(fence, line), dir, depth, ancestors)) ==
           out + line + "\n" + Expanded(fs, lines[i + 1..], FenceAfter(fence, line), dir, depth, ancestors);
  }

  // ----- What the expansion guarantees -----

  ghost predicate NoRepeats(chain: seq<Path>) {
    forall i, j :: 0 <= i < j < |chain| ==> chain[i] != chain[j]
  }

  /** A chain of existing files, none twice and none among the ancestors, and no longer than the depth left. */
  ghost predicate GoodChain(fs: Files, chain: seq<Path>, depth: nat, ancestors: set<Path>) {
    && NoRepeats(chain)
    && (forall i :: 0 <= i < |chain| ==> chain[i] !in ancestors && chain[i] in fs.texts)
    && depth + |chain| <= MAX_IMPORT_DEPTH
  }

  lemma {:induction false} ChainsAreGood(fs: Files, lines: seq<string>, fence: Option<string>, dir: Path, depth: nat,
      ancestors: set<Path>)
    requires depth <= MAX_IMPORT_DEPTH
    ensures forall c :: c in Chains(fs, lines, fence, dir, depth, ancestors) ==> GoodChain(fs, c, depth, ancestors)
    decreases MAX_IMPORT_DEPTH - depth, |lines|
  {
    hide Lines, FenceAfter, Fenced, Reference, GoodChain;
    if lines != [] {
      ChainsAreGood(fs, lines[1..], FenceAfter(fence, lines[0]), dir, depth, ancestors);
      var p := if Fenced(fence, lines[0]) then None else Imported(fs, lines[0], dir, depth, ancestors);
      if p.Some? {
        var inner := Chains(fs, Lines(fs.texts[p.value]), None, fs.parent(p.value), depth + 1, ancestors + {p.value});
        ChainsAreGood(fs, Lines(fs.texts[p.value]), None, fs.parent(p.value), depth + 1, ancestors + {p.value});
        OneIsGood(fs, p.value, depth, ancestors);
        forall i | 0 <= i < |inner|
          ensures GoodChain(fs, Under(p.value, inner)[i], depth, ancestors)
        {
          assert inner[i] in inner;
          LongerIsGood(fs, p.value, inner[i], depth, ancestors);
        }
      }
    }
  }

  lemma OneIsGood(fs: Files, p: Path, depth: nat, ancestors: set<Path>)
    requires p !in ancestors && p in fs.texts && depth < MAX_IMPORT_DEPTH
    ensures GoodChain(fs, [p], depth, ancestors)
  {}

  lemma LongerIsGood(fs: Files, p: Path, chain: seq<Path>, depth: nat, ancestors: set<Path>)
    requires GoodChain(fs, chain, depth + 1, ancestors + {p}) && p !in ancestors && p in fs.texts
    ensures GoodChain(fs, [p] + chain, depth, ancestors)
  {}

  /** No file is ever expanded inside its own expansion or the top-level file's, and nesting stops at five. */
  lemma ExpansionIsAcyclic(fs: Files, src: string, dir: Path, top: Path)
    ensures forall c :: c in Chains(fs, Lines(src), None, dir, 0, {top}) ==>
              |c| <= MAX_IMPORT_DEPTH && NoRepeats(c) && top !in c
  {
    hide Chains, Lines;
    ChainsAreGood(fs, Lines(src), None, dir, 0, {top});
  }

  /** The fence around line `i`. */
  function FenceAt(lines: seq<string>, i: nat): Option<string>
    requires i <= |lines|
  {
    if i == 0 then None else FenceAfter(FenceAt(lines, i - 1), lines[i - 1])
  }

  /** What comes out for line `i` alone. */
  function Piece(fs: Files, lines: seq<string>, i: nat, dir: Path, depth: nat, ancestors: set<Path>): string
    requires depth <= MAX_IMPORT_DEPTH && i < |lines|
  {
    var p := if Fenced(FenceAt(lines, i), lines[i]) then None else Imported(fs, lines[i], dir, depth, ancestors);
    if p.None? then lines[i] + "\n"
    else WithNewline(Expanded(fs, Lines(fs.texts[p.value]), None, fs.parent(p.value), depth + 1, ancestors + {p.value}))
  }

  function Pieces(fs: Files, lines: seq<string>, i: nat, dir: Path, depth: nat, ancestors: set<Path>): string
    requires depth <= MAX_IMPORT_DEPTH && i <= |lines|
    decreases |lines| - i
  {
    if i == |lines| then []
    else Piece(fs, lines, i, dir, depth, ancestors) + Pieces(fs, lines, i + 1, dir, depth, ancestors)
  }

  lemma {:induction false} ExpandedIsPieces(fs: Files, lines: seq<string>, i: nat, dir: Path, depth: nat,
      ancestors: set<Path>)
    requires depth <= MAX_IMPORT_DEPTH && i <= |lines|
    ensures Expanded(fs, lines[i..], FenceAt(lines, i), dir, depth, ancestors) ==
            Pieces(fs, lines, i, dir, depth, ancestors)
    decreases |lines| - i
  {
    hide Lines, FenceAfter, Fenced, Imported;
    if i < |lines| {
      ExpandedIsPieces(fs, lines, i + 1, dir, depth, ancestors);
      assert lines[i..][1..] == lines[i + 1..];
    }
  }

  /** The output is the lines in order, each replaced at its own place; a line of a fence, a line without a
      reference and a line at the depth limit stay as they are. */
  lemma LinesInPlace(fs: Files, src: string, dir: Path, depth: nat, ancestors: set<Path>)
    requires depth <= MAX_IMPORT_DEPTH
    ensures Expanded(fs, Lines(src), None, dir, depth, ancestors) == Pieces(fs, Lines(src), 0, dir, depth, ancestors)
    ensures forall i | 0 <= i < |Lines(src)| ::
              Fenced(FenceAt(Lines(src), i), Lines(src)[i]) || Reference(Lines(src)[i]).None? || depth == 5 ==>
              Piece(fs, Lines(src), i, dir, depth, ancestors) == Lines(src)[i] + "\n"
  {
    hide Lines, Expanded, FenceAfter, Fenced, Reference, Pieces, WithNewline;
    var lines := Lines(src);
    ExpandedIsPieces(fs, lines, 0, dir, depth, ancestors);
    assert lines[0..] == lines;
  }

  // ----- An import within an import -----

  /** A line that is text and neither a reference nor the opening of a fence. */
  predicate PlainLine(line: string) {
    line != "" && '\n' !in line && Reference(line).None? && !Fenced(None, line)
  }

  /** A reference in a file is looked up from that file's own directory, and its text takes the place of the line. */
  lemma NestedImport(fs: Files, dir: Path, a: string, p: Path, b: string, q: Path, text: string)
    requires IsToken(a) && IsToken(b) && PlainLine(text)
    requires fs.resolve(dir, a) == Some(p) && p in fs.texts && fs.texts[p] == "@" + b
    requires fs.resolve(fs.parent(p), b) == Some(q) && q in fs.texts && fs.texts[q] == text && p != q
    ensures Expanded(fs, Lines("@" + a), None, dir, 0, {}) == text + "\n"
  {
    hide Expanded, Lines, Reference, Fenced, FenceAfter, Imported, IsToken;
    ReferenceLine(a);
    ReferenceLine(b);
    LinesLast(text);
    NothingImported(fs, text, fs.parent(q), 2, {p} + {q});
    OneLine(fs, text, fs.parent(q), 2, {p} + {q});
    OneLine(fs, "@" + b, fs.parent(p), 1, {p});
    OneLine(fs, "@" + a, dir, 0, {});
    ImportedIff(fs, "@" + b, fs.parent(p), 1, {p}, q);
    ImportedIff(fs, "@" + a, dir, 0, {}, p);
    assert {} + {p} == {p};
  }

  lemma NothingImported(fs: Files, line: string, dir: Path, depth: nat, ancestors: set<Path>)
    requires Reference(line).None?
    ensures Imported(fs, line, dir, depth, ancestors).None?
  {
    hide Reference;
  }

  lemma ReferenceLine(token: string)
    requires IsToken(token)
    ensures var line := "@" + token;
            Lines(line) == [line] && Reference(line) == Some(token) && !Fenced(None, line)
  {
    hide Lines, Reference, Fenced, FenceAfter, IsWhitespace, TrimStart;
    var line := "@" + token;
    AsciiWhitespace('\n');
    AsciiWhitespace('@');
    LinesLast(line);
    ReferenceTo("", token, "");
    assert "" + "@" + token + "" == line;
    TrimStartIs("", line);
    assert "" + line == line;
    FencedIs(None, line);
    assert forall t: string :: ("```" + t)[0] == '`' && ("~~~" + t)[0] == '~';
  }

  /** What a single line outside a fence becomes. */
  lemma OneLine(fs: Files, line: string, dir: Path, depth: nat, ancestors: set<Path>)
    requires depth <= MAX_IMPORT_DEPTH && !Fenced(None, line)
    ensures var p := Imported(fs, line, dir, depth, ancestors);
            Expanded(fs, [line], None, dir, depth, ancestors) ==
            if p.None? then line + "\n"
            else
              var e := Expanded(fs, Lines(fs.texts[p.value]), None, fs.parent(p.value), depth + 1,
                ancestors + {p.value});
              if e != [] && e[|e| - 1] == '\n' then e else e + "\n"
  {
    hide Lines, Fenced, FenceAfter, Imported, Expanded;
    ExpandedCons(fs, [line], None, dir, depth, ancestors);
    ExpandedNil(fs, [line][1..], FenceAfter(None, line), dir, depth, ancestors);
  }
}
