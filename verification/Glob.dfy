/** The guard matcher of the instruction files, and what its patterns mean. */
module Glob {

  /** `Segments` is a globstar together with the slash behind it. */
  datatype Token = Literal(c: char) | AnyOne | Star | GlobStar | Segments

  predicate IsGlobStar(p: string) {
    |p| >= 2 && p[0] == '*' && p[1] == '*'
  }

  /** The pattern behind a globstar and the slash that may follow it. */
  function AfterGlobStar(p: string): (rest: string)
    requires IsGlobStar(p)
    ensures |rest| < |p|
  {
    if |p| >= 3 && p[2] == '/' then p[3..] else p[2..]
  }

  function Tokens(p: string): seq<Token>
    decreases |p|
  {
    if p == [] then []
    else if IsGlobStar(p) then
      [if |p| >= 3 && p[2] == '/' then Segments else GlobStar] + Tokens(AfterGlobStar(p))
    else [if p[0] == '*' then Star else if p[0] == '?' then AnyOne else Literal(p[0])] + Tokens(p[1..])
  }

  // ----- What a pattern means -----

  predicate Fits(token: Token, part: string) {
    match token
    case Literal(c) => part == [c]
    case AnyOne => |part| == 1
    case Star => true
    case GlobStar => true
    case Segments => true
  }

  function Join(parts: seq<string>): string {
    if parts == [] then [] else parts[0] + Join(parts[1..])
  }

  ghost predicate Decomposes(tokens: seq<Token>, parts: seq<string>, t: string) {
    |parts| == |tokens| && Join(parts) == t && forall i :: 0 <= i < |tokens| ==> Fits(tokens[i], parts[i])
  }

  /** The text is a string of parts, one for each token. */
  ghost predicate Accepts(tokens: seq<Token>, t: string) {
    exists parts :: Decomposes(tokens, parts, t)
  }

  lemma AcceptsNil(t: string)
    ensures Accepts([], t) <==> t == []
  {
    if t == [] {
      assert Decomposes([], [], []);
    }
  }

  /** The first part is a prefix that fits the first token; the rest decomposes alike. */
  lemma AcceptsCons(tokens: seq<Token>, t: string)
    requires tokens != []
    ensures Accepts(tokens, t) <==> exists i :: 0 <= i <= |t| && Fits(tokens[0], t[..i]) && Accepts(tokens[1..], t[i..])
  {
    if parts :| Decomposes(tokens, parts, t) {
      var i := |parts[0]|;
      assert t[..i] == parts[0] && t[i..] == Join(parts[1..]);
      assert Decomposes(tokens[1..], parts[1..], t[i..]);
    }
    if i :| 0 <= i <= |t| && Fits(tokens[0], t[..i]) && Accepts(tokens[1..], t[i..]) {
      var rest :| Decomposes(tokens[1..], rest, t[i..]);
      var parts := [t[..i]] + rest;
      assert parts[1..] == rest && t == t[..i] + t[i..];
      assert Decomposes(tokens, parts, t);
    }
  }

  lemma AcceptsOne(tokens: seq<Token>, t: string)
    requires tokens != [] && (tokens[0].AnyOne? || tokens[0].Literal?)
    ensures Accepts(tokens, t) <==>
            t != [] && (tokens[0].AnyOne? || tokens[0].c == t[0]) && Accepts(tokens[1..], t[1..])
  {
    hide Accepts;
    AcceptsCons(tokens, t);
    if t != [] {
      assert t[..1] == [t[0]];
    }
  }

  /** A star is nothing, or one character more than a star. */
  lemma AcceptsStar(tokens: seq<Token>, t: string)
    requires tokens != [] && (tokens[0].Star? || tokens[0].GlobStar?)
    ensures Accepts(tokens, t) <==> Accepts(tokens[1..], t) || (t != [] && Accepts(tokens, t[1..]))
  {
    hide Accepts;
    AcceptsCons(tokens, t);
    assert t[0..] == t;
    if t != [] {
      AcceptsCons(tokens, t[1..]);
      assert forall i :: 0 < i <= |t| ==> t[1..][i - 1..] == t[i..];
      assert forall i :: 0 <= i < |t| ==> t[1..][i..] == t[i + 1..];
    }
  }

  // ----- The matcher -----

  method GlobRec(p: string, t: string) returns (b: bool)
    ensures b <==> Accepts(Tokens(p), t)
    decreases |p|, |t|
  {
    hide Accepts;
    if IsGlobStar(p) {
      var trailingSlash := |p| >= 3 && p[2] == '/';
      var rest := if trailingSlash then p[3..] else p[2..];
      GlobStarSplits(p, t);
      for i := 0 to |t| + 1
        invariant forall j :: 0 <= j < i ==> !Accepts(Tokens(rest), t[j..])
      {
        var here := GlobRec(rest, t[i..]);
        if here {
          return true;
        }
        if trailingSlash && i < |t| && t[i] == '/' {
          var past := GlobRec(rest, t[i + 1..]);
          if past {
            return true;
          }
        }
      }
      return false;
    }
    if p == [] {
      AcceptsNil(t);
      return t == [];
    }
    assert Tokens(p)[1..] == Tokens(p[1..]);
    if p[0] == '*' {
      AcceptsStar(Tokens(p), t);
      b := GlobRec(p[1..], t);
      if !b && t != [] {
        b := GlobRec(p, t[1..]);
      }
      return;
    }
    AcceptsOne(Tokens(p), t);
    if t != [] && (p[0] == '?' || p[0] == t[0]) {
      b := GlobRec(p[1..], t[1..]);
    } else {
      b := false;
    }
  }

  lemma GlobStarSplits(p: string, t: string)
    requires IsGlobStar(p)
    ensures Accepts(Tokens(p), t) <==> exists i :: 0 <= i <= |t| && Accepts(Tokens(AfterGlobStar(p)), t[i..])
  {
    hide Accepts;
    AcceptsCons(Tokens(p), t);
    assert Tokens(p)[1..] == Tokens(AfterGlobStar(p));
  }

  // ----- Patterns as they are written -----

  /** Nothing but the empty text is accepted by the empty pattern, and any character but the two wildcards accepts
      itself alone. */
  lemma OrdinaryPattern(c: char, p: string, t: string)
    requires c != '*' && c != '?'
    ensures Accepts(Tokens(""), t) <==> t == ""
    ensures Accepts(Tokens([c] + p), t) <==> t != "" && t[0] == c && Accepts(Tokens(p), t[1..])
  {
    hide Accepts;
    AcceptsNil(t);
    assert ([c] + p)[1..] == p;
    AcceptsOne(Tokens([c] + p), t);
  }

  /** A question mark accepts any one character. */
  lemma QuestionPattern(p: string, t: string)
    ensures Accepts(Tokens("?" + p), t) <==> t != "" && Accepts(Tokens(p), t[1..])
  {
    hide Accepts;
    assert ("?" + p)[1..] == p;
    AcceptsOne(Tokens("?" + p), t);
  }

  /** One star, two, and two with the slash behind them accept any text; three stars are two and one. */
  lemma StarPattern(p: string, t: string)
    ensures (p == "" || p[0] != '*') ==>
              (Accepts(Tokens("*" + p), t) <==> exists i :: 0 <= i <= |t| && Accepts(Tokens(p), t[i..]))
    ensures (p == "" || p[0] != '/') ==>
              (Accepts(Tokens("**" + p), t) <==> exists i :: 0 <= i <= |t| && Accepts(Tokens(p), t[i..]))
    ensures Accepts(Tokens("**/" + p), t) <==> exists i :: 0 <= i <= |t| && Accepts(Tokens(p), t[i..])
  {
    hide Accepts;
    if p == "" || p[0] != '*' {
      assert ("*" + p)[1..] == p;
      AcceptsCons(Tokens("*" + p), t);
    }
    if p == "" || p[0] != '/' {
      assert ("**" + p)[2..] == p;
      GlobStarSplits("**" + p, t);
    }
    assert ("**/" + p)[3..] == p;
    GlobStarSplits("**/" + p, t);
  }

  /** A pattern without wildcards accepts exactly itself. */
  lemma {:induction false} PlainPattern(p: string, t: string)
    requires '*' !in p && '?' !in p
    ensures Accepts(Tokens(p), t) <==> t == p
  {
    hide Accepts;
    if p == "" {
      AcceptsNil(t);
    } else {
      OrdinaryPattern(p[0], p[1..], t);
      assert p == [p[0]] + p[1..];
      if t != "" {
        PlainPattern(p[1..], t[1..]);
        assert t == [t[0]] + t[1..];
      }
    }
  }

  // ----- The matcher without its trailing-slash branch -----

  /** The matcher as a recursive predicate, with or without the branch that steps over a slash. */
  predicate Matches(p: string, t: string, slashBranch: bool)
    decreases |p|, |t|
  {
    if IsGlobStar(p) then
      var rest := AfterGlobStar(p);
      || (exists i :: 0 <= i <= |t| && Matches(rest, t[i..], slashBranch))
      || (slashBranch && |p| >= 3 && p[2] == '/' &&
          exists i :: 0 <= i < |t| && t[i] == '/' && Matches(rest, t[i + 1..], slashBranch))
    else if p == [] then t == []
    else if p[0] == '*' then Matches(p[1..], t, slashBranch) || (t != [] && Matches(p, t[1..], slashBranch))
    else t != [] && (p[0] == '?' || p[0] == t[0]) && Matches(p[1..], t[1..], slashBranch)
  }

  lemma {:induction false} MatchesMeans(p: string, t: string, slashBranch: bool)
    ensures Matches(p, t, slashBranch) <==> Accepts(Tokens(p), t)
    decreases |p|, |t|
  {
    hide Accepts;
    if IsGlobStar(p) {
      GlobStarSplits(p, t);
      forall i | 0 <= i <= |t|
        ensures Matches(AfterGlobStar(p), t[i..], slashBranch) <==> Accepts(Tokens(AfterGlobStar(p)), t[i..])
      {
        MatchesMeans(AfterGlobStar(p), t[i..], slashBranch);
      }
    } else if p == [] {
      AcceptsNil(t);
    } else {
      assert Tokens(p)[1..] == Tokens(p[1..]);
      if p[0] == '*' {
        AcceptsStar(Tokens(p), t);
        MatchesMeans(p[1..], t, slashBranch);
        if t != [] {
          MatchesMeans(p, t[1..], slashBranch);
        }
      } else {
        AcceptsOne(Tokens(p), t);
        if t != [] {
          MatchesMeans(p[1..], t[1..], slashBranch);
        }
      }
    }
  }

  /** Without the branch that steps over a slash the matcher accepts the same texts, for every pattern. */
  lemma SlashBranchAddsNothing(p: string, t: string)
    ensures Matches(p, t, true) <==> Matches(p, t, false)
  {
    MatchesMeans(p, t, true);
    MatchesMeans(p, t, false);
  }

  // ----- The documented meaning -----

  /** As documented, a single star stays within a path segment, and a globstar with its slash stands for zero or more
      whole segments. */
  predicate FitsAsDocumented(token: Token, part: string) {
    && Fits(token, part)
    && (token.Star? ==> '/' !in part)
    && (token.Segments? ==> part == [] || part[|part| - 1] == '/')
  }

  ghost predicate DecomposesAsDocumented(tokens: seq<Token>, parts: seq<string>, t: string) {
    Decomposes(tokens, parts, t) && forall i :: 0 <= i < |tokens| ==> FitsAsDocumented(tokens[i], parts[i])
  }

  ghost predicate AcceptsAsDocumented(tokens: seq<Token>, t: string) {
    exists parts :: DecomposesAsDocumented(tokens, parts, t)
  }

  /** The code and its documentation say the same about the pattern and the text. */
  ghost predicate Agrees(p: string, t: string) {
    Accepts(Tokens(p), t) <==> AcceptsAsDocumented(Tokens(p), t)
  }

  lemma {:induction false} PartsInside(parts: seq<string>, i: nat, k: nat)
    requires i < |parts| && k < |parts[i]|
    ensures parts[i][k] in Join(parts)
  {
    if i > 0 {
      PartsInside(parts[1..], i - 1, k);
    }
  }

  /** They agree when the parts of any decomposition fit as documented. */
  lemma AgreesWhen(p: string, t: string)
    requires forall parts, i :: Decomposes(Tokens(p), parts, t) && 0 <= i < |parts| ==>
               FitsAsDocumented(Tokens(p)[i], parts[i])
    ensures Agrees(p, t)
  {
    if parts :| Decomposes(Tokens(p), parts, t) {
      assert DecomposesAsDocumented(Tokens(p), parts, t);
    }
  }

  /** A pattern with neither a single star nor a globstar with a slash means what is documented, on every text. */
  lemma NeitherAgrees(p: string, t: string)
    requires Star !in Tokens(p) && Segments !in Tokens(p)
    ensures Agrees(p, t)
  {
    AgreesWhen(p, t);
  }

  // ----- Where a single star fails -----

  lemma StarAlone(t: string)
    ensures Tokens("*") == [Star] && Accepts(Tokens("*"), t)
    ensures '/' in t ==> !Agrees("*", t)
  {
    assert "*"[1..] == "";
    assert Join([t]) == t + Join([t][1..]) == t;
    assert Decomposes([Star], [t], t);
    forall parts | Decomposes([Star], parts, t)
      ensures parts[0] == t
    {
      assert parts[1..] == [];
    }
  }

  /** Among the patterns without a globstar with a slash, all agree on a text exactly when it has no slash. */
  lemma SegmentlessIff(t: string)
    ensures (forall p :: Segments !in Tokens(p) ==> Agrees(p, t)) <==> '/' !in t
  {
    if '/' !in t {
      forall p | Segments !in Tokens(p)
        ensures Agrees(p, t)
      {
        forall parts, i | Decomposes(Tokens(p), parts, t) && 0 <= i < |parts|
          ensures FitsAsDocumented(Tokens(p)[i], parts[i])
        {
          forall k | 0 <= k < |parts[i]|
            ensures parts[i][k] != '/'
          {
            PartsInside(parts, i, k);
          }
        }
        AgreesWhen(p, t);
      }
    } else {
      StarAlone(t);
      assert Segments !in Tokens("*");
    }
  }

  // ----- Where a globstar with a slash fails -----

  function Questions(n: nat): (p: string)
    ensures |p| == n
  {
    if n == 0 then "" else "?" + Questions(n - 1)
  }

  /** `**` and its slash, and then `n` single characters. */
  function LastAfterSegments(n: nat): string { "**/" + Questions(n) }

  lemma {:induction false} QuestionsAre(n: nat)
    ensures |Tokens(Questions(n))| == n && forall i :: 0 <= i < n ==> Tokens(Questions(n))[i] == AnyOne
  {
    if n > 0 {
      assert Questions(n)[1..] == Questions(n - 1);
      QuestionsAre(n - 1);
    }
  }

  lemma {:induction false} QuestionsAccept(n: nat, t: string)
    requires |t| == n
    ensures Accepts(Tokens(Questions(n)), t)
  {
    hide Accepts;
    QuestionsAre(n);
    if n == 0 {
      AcceptsNil(t);
    } else {
      AcceptsOne(Tokens(Questions(n)), t);
      assert Questions(n)[1..] == Questions(n - 1);
      assert Tokens(Questions(n))[1..] == Tokens(Questions(n - 1));
      QuestionsAccept(n - 1, t[1..]);
    }
  }

  lemma {:induction false} OnesJoin(parts: seq<string>)
    requires forall i :: 0 <= i < |parts| ==> |parts[i]| == 1
    ensures |Join(parts)| == |parts|
  {
    if parts != [] {
      OnesJoin(parts[1..]);
    }
  }

  lemma SegmentsTokens(n: nat)
    ensures Tokens(LastAfterSegments(n)) == [Segments] + Tokens(Questions(n))
  {
    assert AfterGlobStar(LastAfterSegments(n)) == Questions(n);
  }

  /** A pattern without a single star that takes `t` apart behind the character `k`, which is no slash. */
  lemma HalfSegment(t: string, k: nat)
    requires k < |t| && t[k] != '/'
    ensures var p := LastAfterSegments(|t| - k - 1);
            Star !in Tokens(p) && Accepts(Tokens(p), t) && !AcceptsAsDocumented(Tokens(p), t)
  {
    hide Accepts;
    var n := |t| - k - 1;
    var tokens := Tokens(LastAfterSegments(n));
    SegmentsTokens(n);
    QuestionsAre(n);
    QuestionsAccept(n, t[k + 1..]);
    AcceptsCons(tokens, t);
    assert tokens[1..] == Tokens(Questions(n)) && Accepts(tokens[1..], t[k + 1..]);
    forall parts
      ensures !DecomposesAsDocumented(tokens, parts, t)
    {
      if Decomposes(tokens, parts, t) {
        forall i | 0 <= i < |parts[1..]|
          ensures |parts[1..][i]| == 1
        {
          assert tokens[i + 1] == AnyOne && Fits(tokens[i + 1], parts[i + 1]);
        }
        OnesJoin(parts[1..]);
        assert t == parts[0] + Join(parts[1..]);
        assert parts[0] == t[..k + 1];
        assert !FitsAsDocumented(tokens[0], parts[0]);
      }
    }
  }

  /** For instance: a globstar with its slash before a name also accepts longer names. */
  lemma LongerNameAccepted()
    ensures Tokens("**/b") == [Segments, Literal('b')]
    ensures Accepts(Tokens("**/b"), "ab") && !AcceptsAsDocumented(Tokens("**/b"), "ab")
  {
    assert AfterGlobStar("**/b") == "b" && "b"[1..] == "";
    var tokens := [Segments, Literal('b')];
    assert Tokens("b") == [Literal('b')];
    assert Tokens("**/b") == tokens;
    var parts := ["a", "b"];
    assert parts[1..] == ["b"] && ["b"][1..] == [];
    assert Join(["b"]) == "b" && Join(parts) == "ab";
    assert Decomposes(tokens, parts, "ab");
    forall other
      ensures !DecomposesAsDocumented(tokens, other, "ab")
    {
      if Decomposes(tokens, other, "ab") {
        assert Fits(tokens[1], other[1]) && other[1..] == [other[1]];
        OnesJoin(other[1..]);
        assert "ab" == other[0] + Join(other[1..]);
        assert other[0] == "ab"[..1] == "a";
        assert !FitsAsDocumented(tokens[0], other[0]);
      }
    }
  }

  lemma SlashesAgree(p: string, t: string)
    requires Star !in Tokens(p) && forall k :: 0 <= k < |t| ==> t[k] == '/'
    ensures Agrees(p, t)
  {
    forall parts, i | Decomposes(Tokens(p), parts, t) && 0 <= i < |parts|
      ensures FitsAsDocumented(Tokens(p)[i], parts[i])
    {
      if parts[i] != [] {
        PartsInside(parts, i, |parts[i]| - 1);
      }
    }
    AgreesWhen(p, t);
  }

  /** Among the patterns without a single star, all agree on a text exactly when it consists of slashes. */
  lemma StarlessIff(t: string)
    ensures (forall p :: Star !in Tokens(p) ==> Agrees(p, t)) <==> forall k :: 0 <= k < |t| ==> t[k] == '/'
  {
    if k :| 0 <= k < |t| && t[k] != '/' {
      HalfSegment(t, k);
      assert !Agrees(LastAfterSegments(|t| - k - 1), t);
    } else {
      forall p | Star !in Tokens(p)
        ensures Agrees(p, t)
      {
        SlashesAgree(p, t);
      }
    }
  }

  /** The code and its documentation agree on a text for all patterns exactly when the text is empty. */
  lemma DocumentedIff(t: string)
    ensures (forall p :: Agrees(p, t)) <==> t == []
  {
    if t == [] {
      forall p
        ensures Agrees(p, t)
      {
        EmptyAgrees(p);
      }
    } else if t[0] == '/' {
      StarAlone(t);
    } else {
      HalfSegment(t, 0);
      assert !Agrees(LastAfterSegments(|t| - 1), t);
    }
  }

  lemma EmptyAgrees(p: string)
    ensures Agrees(p, [])
  {
    forall parts, i | Decomposes(Tokens(p), parts, []) && 0 <= i < |parts|
      ensures FitsAsDocumented(Tokens(p)[i], parts[i])
    {
      if parts[i] != [] {
        PartsInside(parts, i, 0);
      }
    }
    AgreesWhen(p, []);
  }
}
