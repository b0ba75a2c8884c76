/** Shake: which regions of a transcript a pass elides, and what splicing its plan does to a message. */
module Shake {
  import opened Bytes
  import opened Option
  import opened Chat
  import opened Fences
  import opened Splicing
  import Regions
  import Prune
  import Utf8

  /** `key` says which path strings name the same path. */
  datatype ShakeConfig = ShakeConfig(
    fenceMinTokens: nat,
    xmlMinTokens: nat,
    toolBodyMinTokens: nat,
    protectTokens: nat,
    minimumSavings: nat,
    cacheWarmSuffixTokens: nat,
    boundaryIds: set<string>,
    protectedPaths: set<string>,
    key: string -> string)

  /** Everything a pass is given besides the transcript; `placeholder` words the marker for a kind and a size. */
  datatype Pass = Pass(config: ShakeConfig, suffixAfter: nat -> nat, warm: bool, placeholder: (Kind, nat) -> string)

  datatype Candidate = Candidate(index: nat, action: ShakeAction)

  // ----- The regions of one message, by byte offsets -----

  function Offset(s: string, i: nat): nat {
    if i <= |s| then Size(s[..i]) else Size(s)
  }

  function InBytes(s: string, r: Region): Region {
    Region(Range(Offset(s, r.range.start), Offset(s, r.range.end)), r.kind)
  }

  function RegionsOf(m: ChatMessage): seq<Region> {
    match m.role
    case Tool => [Region(Range(0, Size(m.content)), ToolBody)]
    case User => MapBytes(m.content, Regions.Scanned(m.content))
    case Assistant => MapBytes(m.content, Regions.Scanned(m.content))
    case System => []
    case Agent(_) => []
  }

  function MapBytes(s: string, regions: seq<Region>): (r: seq<Region>)
    ensures |r| == |regions|
  {
    seq(|regions|, k requires 0 <= k < |regions| => InBytes(s, regions[k]))
  }

  function Minimum(config: ShakeConfig, kind: Kind): nat {
    match kind
    case Fence(_) => config.fenceMinTokens
    case Xml(_) => config.xmlMinTokens
    case ToolBody => config.toolBodyMinTokens
  }

  function Mark(pass: Pass, index: nat, m: ChatMessage, r: Region): Candidate {
    Candidate(index, ShakeAction(m.id, r.range, r.kind, pass.placeholder(r.kind, Length(r.range))))
  }

  /** The regions that are big enough, marked. */
  function Marked(pass: Pass, index: nat, m: ChatMessage, regions: seq<Region>): seq<Candidate> {
    if regions == [] then [] else
    var last := regions[|regions| - 1];
    Marked(pass, index, m, regions[..|regions| - 1]) +
      if Length(last.range) / 4 < Minimum(pass.config, last.kind) then [] else [Mark(pass, index, m, last)]
  }

  // ----- The plan -----

  /** A read of a protected path. */
  predicate ProtectedRead(config: ShakeConfig, calls: seq<Prune.Placed>, m: ChatMessage) {
    && m.role == Tool
    && var call := Prune.Answered(calls, m);
    && call.Some? && Prune.ReadPath(call.value).Some?
    && config.key(Prune.ReadPath(call.value).value) in config.protectedPaths
  }

  predicate Spared(pass: Pass, calls: seq<Prune.Placed>, m: ChatMessage, suffix: nat) {
    || m.id in pass.config.boundaryIds
    || ProtectedRead(pass.config, calls, m)
    || suffix < pass.config.protectTokens
    || (pass.warm && suffix > pass.config.cacheWarmSuffixTokens)
  }

  function Found(pass: Pass, transcript: seq<ChatMessage>, i: nat): seq<Candidate>
    requires i < |transcript|
  {
    if Spared(pass, Prune.Calls(transcript), transcript[i], pass.suffixAfter(i)) then []
    else Marked(pass, i, transcript[i], RegionsOf(transcript[i]))
  }

  function Candidates(pass: Pass, transcript: seq<ChatMessage>, n: nat): seq<Candidate>
    requires n <= |transcript|
  {
    if n == 0 then [] else Candidates(pass, transcript, n - 1) + Found(pass, transcript, n - 1)
  }

  function Freed(a: ShakeAction): nat {
    if Length(a.range) >= Size(a.placeholder) then Length(a.range) - Size(a.placeholder) else 0
  }

  function TotalFreed(candidates: seq<Candidate>): nat {
    if candidates == [] then 0
    else TotalFreed(candidates[..|candidates| - 1]) + Freed(candidates[|candidates| - 1].action)
  }

  /** Ascending by message; within a message, descending by where the region starts. */
  predicate Before(a: Candidate, b: Candidate) {
    a.index < b.index || (a.index == b.index && a.action.range.start > b.action.range.start)
  }

  function Insert(sorted: seq<Candidate>, c: Candidate): seq<Candidate> {
    if sorted == [] then [c] else
    var last := sorted[|sorted| - 1];
    if Before(c, last) then Insert(sorted[..|sorted| - 1], c) + [last] else sorted + [c]
  }

  /** The stable sort. */
  function Sort(candidates: seq<Candidate>): seq<Candidate> {
    if candidates == [] then []
    else Insert(Sort(candidates[..|candidates| - 1]), candidates[|candidates| - 1])
  }

  function Planned(pass: Pass, transcript: seq<ChatMessage>): seq<Candidate> {
    var all := Candidates(pass, transcript, |transcript|);
    if TotalFreed(all) / 4 < pass.config.minimumSavings then [] else Sort(all)
  }

  function Actions(candidates: seq<Candidate>): (r: seq<ShakeAction>)
    ensures |r| == |candidates|
  {
    seq(|candidates|, k requires 0 <= k < |candidates| => candidates[k].action)
  }

  // ----- The code -----

  method ShakeMessage(pass: Pass, transcript: seq<ChatMessage>, i: nat) returns (found: seq<Candidate>)
    requires i < |transcript|
    ensures found == Found(pass, transcript, i)
  {
    hide Prune.Answered, Prune.ReadPath, Prune.Calls, Size, Marked, Regions.Scanned, MapBytes;
    var msg := transcript[i];
    var config := pass.config;
    if msg.id in config.boundaryIds {
      return [];
    }
    if config.protectedPaths != {} && msg.role == Tool {
      var call := Prune.FindCallByResult(transcript, msg);
      if call.Some? {
        var path := Prune.ReadPath(call.value);
        if path.Some? && config.key(path.value) in config.protectedPaths {
          return [];
        }
      }
    }
    var suffix := pass.suffixAfter(i);
    if suffix < config.protectTokens {
      return [];
    }
    if pass.warm && suffix > config.cacheWarmSuffixTokens {
      return [];
    }
    match msg.role {
      case Tool =>
        var bytes := Size(msg.content);
        MarkedOne(pass, i, msg, Region(Range(0, bytes), ToolBody));
        if bytes / 4 < config.toolBodyMinTokens {
          return [];
        }
        return [Candidate(i, ShakeAction(msg.id, Range(0, bytes), ToolBody, pass.placeholder(ToolBody, bytes)))];
      case User =>
        found := ShakeText(pass, i, msg);
      case Assistant =>
        found := ShakeText(pass, i, msg);
      case System =>
        MarkedNone(pass, i, msg);
        found := [];
      case Agent(_) =>
        MarkedNone(pass, i, msg);
        found := [];
    }
  }

  lemma MarkedNone(pass: Pass, i: nat, m: ChatMessage)
    ensures Marked(pass, i, m, []) == []
  {}

  lemma MarkedNext(pass: Pass, i: nat, m: ChatMessage, regions: seq<Region>, r: Region)
    ensures Marked(pass, i, m, regions + [r]) ==
            Marked(pass, i, m, regions) +
            if Length(r.range) / 4 < Minimum(pass.config, r.kind) then [] else [Mark(pass, i, m, r)]
  {
    assert (regions + [r])[..|regions|] == regions;
  }

  lemma MarkedOne(pass: Pass, i: nat, m: ChatMessage, r: Region)
    ensures Marked(pass, i, m, [r]) ==
            if Length(r.range) / 4 < Minimum(pass.config, r.kind) then [] else [Mark(pass, i, m, r)]
  {
    assert [] + [r] == [r];
    MarkedNext(pass, i, m, [], r);
  }

  method ShakeText(pass: Pass, i: nat, msg: ChatMessage) returns (found: seq<Candidate>)
    ensures found == Marked(pass, i, msg, MapBytes(msg.content, Regions.Scanned(msg.content)))
  {
    hide Marked, Regions.Scanned, Minimum, Offset, Length;
    var regions := Regions.ScanRegions(msg.content);
    ghost var all := MapBytes(msg.content, regions);
    found := [];
    MarkedNone(pass, i, msg);
    for k := 0 to |regions|
      invariant found == Marked(pass, i, msg, all[..k])
    {
      var region := InBytes(msg.content, regions[k]);
      assert all[..k + 1] == all[..k] + [region];
      MarkedNext(pass, i, msg, all[..k], region);
      var bytes := Length(region.range);
      if bytes / 4 < Minimum(pass.config, region.kind) {
        continue;
      }
      found := found + [Candidate(i,
        ShakeAction(msg.id, region.range, region.kind, pass.placeholder(region.kind, bytes)))];
    }
    assert all[..|regions|] == all;
  }

  method PlanShake(transcript: seq<ChatMessage>, pass: Pass) returns (plan: seq<ShakeAction>)
    ensures plan == Actions(Planned(pass, transcript))
  {
    hide Found, Freed, Sort;
    var candidates: seq<Candidate> := [];
    for i := 0 to |transcript|
      invariant candidates == Candidates(pass, transcript, i)
    {
      var found := ShakeMessage(pass, transcript, i);
      candidates := candidates + found;
    }
    var totalFreed := 0;
    for k := 0 to |candidates|
      invariant totalFreed == TotalFreed(candidates[..k])
    {
      assert candidates[..k + 1][..k] == candidates[..k];
      totalFreed := totalFreed + Freed(candidates[k].action);
    }
    assert candidates[..|candidates|] == candidates;
    if totalFreed / 4 < pass.config.minimumSavings {
      return [];
    }
    var sorted := Sort(candidates);
    plan := seq(|sorted|, k requires 0 <= k < |sorted| => sorted[k].action);
  }

  // ----- The order of a plan -----

  ghost predicate Ordered(xs: seq<Candidate>) {
    forall j, k :: 0 <= j < k < |xs| ==> !Before(xs[k], xs[j])
  }

  lemma BeforeIsOrder(a: Candidate, b: Candidate, c: Candidate)
    ensures !Before(a, b) && !Before(b, c) ==> !Before(a, c)
    ensures Before(b, a) ==> !Before(a, b)
  {}

  lemma PushKeepsOrder(was: seq<Candidate>, front: seq<Candidate>, c: Candidate, last: Candidate)
    requires Ordered(front) && multiset(front) == multiset(was) + multiset{c}
    requires !Before(last, c) && forall j :: 0 <= j < |was| ==> !Before(last, was[j])
    ensures Ordered(front + [last])
  {
    hide Before;
    forall j | 0 <= j < |front|
      ensures !Before(last, front[j])
    {
      assert front[j] in multiset(front);
      assert front[j] in multiset(was) || front[j] == c;
    }
  }

  lemma {:induction false} InsertKeepsOrder(sorted: seq<Candidate>, c: Candidate)
    requires Ordered(sorted)
    ensures Ordered(Insert(sorted, c)) && multiset(Insert(sorted, c)) == multiset(sorted) + multiset{c}
  {
    hide Before;
    if sorted != [] {
      var n := |sorted| - 1;
      var last := sorted[n];
      assert sorted == sorted[..n] + [last];
      if Before(c, last) {
        InsertKeepsOrder(sorted[..n], c);
        BeforeIsOrder(last, c, c);
        PushKeepsOrder(sorted[..n], Insert(sorted[..n], c), c, last);
      } else {
        forall j | 0 <= j < n
          ensures !Before(c, sorted[j])
        {
          BeforeIsOrder(c, last, sorted[j]);
        }
      }
    }
  }

  /** The plan lists the candidates, message by message, each message's regions from the last to the first. */
  lemma {:induction false} SortOrders(candidates: seq<Candidate>)
    ensures Ordered(Sort(candidates)) && multiset(Sort(candidates)) == multiset(candidates)
  {
    if candidates != [] {
      var n := |candidates| - 1;
      assert candidates == candidates[..n] + [candidates[n]];
      SortOrders(candidates[..n]);
      InsertKeepsOrder(Sort(candidates[..n]), candidates[n]);
    }
  }

  /** One message's part of a plan. */
  function OfMessage(xs: seq<Candidate>, i: nat): seq<Candidate> {
    if xs == [] then [] else
    OfMessage(xs[..|xs| - 1], i) + if xs[|xs| - 1].index == i then [xs[|xs| - 1]] else []
  }

  lemma {:induction false} OfMessageCounts(xs: seq<Candidate>, i: nat, c: Candidate)
    ensures multiset(OfMessage(xs, i))[c] == if c.index == i then multiset(xs)[c] else 0
  {
    if xs != [] {
      OfMessageCounts(xs[..|xs| - 1], i, c);
      assert xs == xs[..|xs| - 1] + [xs[|xs| - 1]];
    }
  }

  lemma {:induction false} OfMessageOrdered(xs: seq<Candidate>, i: nat)
    requires Ordered(xs)
    ensures Ordered(OfMessage(xs, i))
    ensures forall c :: c in OfMessage(xs, i) ==> c in xs && c.index == i
  {
    hide Before;
    if xs != [] {
      var n := |xs| - 1;
      OfMessageOrdered(xs[..n], i);
      var front := OfMessage(xs[..n], i);
      forall j | 0 <= j < |front|
        ensures front[j] in xs && !Before(xs[n], front[j])
      {
        assert front[j] in xs[..n];
        var k :| 0 <= k < n && xs[..n][k] == front[j];
        assert xs[k] == front[j];
      }
    }
  }

  lemma {:induction false} OfMessageAppend(xs: seq<Candidate>, ys: seq<Candidate>, i: nat)
    ensures OfMessage(xs + ys, i) == OfMessage(xs, i) + OfMessage(ys, i)
  {
    if ys == [] {
      assert xs + ys == xs && OfMessage(ys, i) == [];
    } else {
      var n := |ys| - 1;
      var tail := if ys[n].index == i then [ys[n]] else [];
      OfMessageAppend(xs, ys[..n], i);
      var all := xs + ys;
      assert all[..|all| - 1] == xs + ys[..n] && all[|all| - 1] == ys[n];
      assert OfMessage(xs, i) + OfMessage(ys[..n], i) + tail == OfMessage(xs, i) + (OfMessage(ys[..n], i) + tail);
    }
  }

  lemma {:induction false} OfMessageUniform(xs: seq<Candidate>, at: nat, i: nat)
    requires forall c :: c in xs ==> c.index == at
    ensures OfMessage(xs, i) == if at == i then xs else []
  {
    if xs != [] {
      OfMessageUniform(xs[..|xs| - 1], at, i);
      assert xs == xs[..|xs| - 1] + [xs[|xs| - 1]];
    }
  }

  predicate Heavy(config: ShakeConfig, r: Region) {
    Length(r.range) / 4 >= Minimum(config, r.kind)
  }

  lemma {:induction false} MarkedAre(pass: Pass, i: nat, m: ChatMessage, regions: seq<Region>)
    ensures forall c :: c in Marked(pass, i, m, regions) <==>
              exists r :: r in regions && Heavy(pass.config, r) && c == Mark(pass, i, m, r)
  {
    hide Length, Minimum, Mark, Marked;
    if regions == [] {
      MarkedNone(pass, i, m);
    } else {
      var n := |regions| - 1;
      assert regions == regions[..n] + [regions[n]];
      MarkedNext(pass, i, m, regions[..n], regions[n]);
      MarkedAre(pass, i, m, regions[..n]);
    }
  }

  lemma FoundIndex(pass: Pass, transcript: seq<ChatMessage>, i: nat)
    requires i < |transcript|
    ensures forall c :: c in Found(pass, transcript, i) ==> c.index == i && c.action.messageId == transcript[i].id
  {
    hide Spared, RegionsOf;
    MarkedAre(pass, i, transcript[i], RegionsOf(transcript[i]));
  }

  lemma OfMessageNone(i: nat)
    ensures OfMessage([], i) == []
  {}

  lemma {:induction false} CandidatesByMessage(pass: Pass, transcript: seq<ChatMessage>, n: nat, i: nat)
    requires n <= |transcript| && i < |transcript|
    ensures OfMessage(Candidates(pass, transcript, n), i) == if i < n then Found(pass, transcript, i) else []
  {
    hide Found, OfMessage;
    if n == 0 {
      OfMessageNone(i);
    } else {
      CandidatesByMessage(pass, transcript, n - 1, i);
      FoundIndex(pass, transcript, n - 1);
      OfMessageUniform(Found(pass, transcript, n - 1), n - 1, i);
      OfMessageAppend(Candidates(pass, transcript, n - 1), Found(pass, transcript, n - 1), i);
    }
  }

  // ----- The plan, spliced -----

  /** With unique message ids, the edits of a plan that reach a message are those planned for it, in plan order. */
  lemma {:induction false} ReachingOwn(ids: seq<string>, xs: seq<Candidate>, i: nat)
    requires DistinctIds(ids)
    requires forall c :: c in xs ==> c.index < |ids| && c.action.messageId == ids[c.index]
    ensures Reaching(ids, Actions(xs), i) == Actions(OfMessage(xs, i))
  {
    if xs != [] {
      var n := |xs| - 1;
      ReachingOwn(ids, xs[..n], i);
      assert Actions(xs)[..n] == Actions(xs[..n]) && Actions(xs)[n] == xs[n].action;
      assert xs[n] in xs;
      LastIsOnly(ids, xs[n].index);
    }
  }

  lemma PlanReaches(pass: Pass, transcript: seq<ChatMessage>, i: nat)
    requires DistinctIds(Ids(transcript))
    ensures Reaching(Ids(transcript), Actions(Planned(pass, transcript)), i) ==
            Actions(OfMessage(Planned(pass, transcript), i))
  {
    hide Planned, Reaching, OfMessage;
    forall c | c in Planned(pass, transcript)
      ensures c.index < |transcript| && c.action.messageId == transcript[c.index].id
    {
      NeverElided(pass, transcript, c);
    }
    ReachingOwn(Ids(transcript), Planned(pass, transcript), i);
  }

  lemma {:induction false} EncodeAppend(s: string, t: string)
    ensures Utf8.Encode(s + t) == Utf8.Encode(s) + Utf8.Encode(t)
  {
    hide Utf8.EncodeChar;
    if s == [] {
      assert s + t == t;
    } else {
      assert (s + t)[1..] == s[1..] + t;
      EncodeAppend(s[1..], t);
    }
  }

  lemma EncodeNonEmpty(s: string)
    requires s != []
    ensures Utf8.Encode(s) != []
  {}

  /** Offsets grow with positions, so byte ranges lie as the character ranges do. */
  lemma OffsetsGrow(s: string, i: nat, j: nat)
    requires i <= j <= |s|
    ensures Offset(s, i) <= Offset(s, j) <= Size(s)
    ensures i < j ==> Offset(s, i) < Offset(s, j)
    ensures Utf8.Encode(s)[..Offset(s, i)] == Utf8.Encode(s[..i])
    ensures Utf8.Encode(s)[Offset(s, i)..Offset(s, j)] == Utf8.Encode(s[i..j])
  {
    hide Utf8.Encode, Offset, Size;
    OffsetIs(s, i);
    OffsetIs(s, j);
    Encodings(s, i, j);
    Parts(Utf8.Encode(s[..i]), Utf8.Encode(s[i..j]), Utf8.Encode(s[j..]));
    if i < j {
      EncodeNonEmpty(s[i..j]);
    }
  }

  lemma EncodeSplit(s: string, i: nat)
    requires i <= |s|
    ensures Utf8.Encode(s) == Utf8.Encode(s[..i]) + Utf8.Encode(s[i..])
  {
    hide Utf8.Encode;
    assert s == s[..i] + s[i..];
    EncodeAppend(s[..i], s[i..]);
  }

  lemma OffsetIs(s: string, i: nat)
    requires i <= |s|
    ensures Offset(s, i) == |Utf8.Encode(s[..i])| && Size(s) == |Utf8.Encode(s)|
  {
    hide Utf8.Encode;
  }

  lemma Slices(s: string, i: nat, j: nat)
    requires i <= j <= |s|
    ensures s[i..][..j - i] == s[i..j] && s[i..][j - i..] == s[j..]
    ensures s[..j][..i] == s[..i] && s[..j][i..] == s[i..j]
  {}

  lemma Encodings(s: string, i: nat, j: nat)
    requires i <= j <= |s|
    ensures Utf8.Encode(s) == Utf8.Encode(s[..i]) + (Utf8.Encode(s[i..j]) + Utf8.Encode(s[j..]))
    ensures Utf8.Encode(s[..j]) == Utf8.Encode(s[..i]) + Utf8.Encode(s[i..j])
  {
    hide Utf8.Encode;
    Slices(s, i, j);
    EncodeSplit(s, i);
    EncodeSplit(s[i..], j - i);
    EncodeSplit(s[..j], i);
  }

  lemma Parts(a: seq<u8>, b: seq<u8>, c: seq<u8>)
    ensures (a + (b + c))[..|a|] == a && (a + (b + c))[|a|..|a| + |b|] == b
  {}

  ghost predicate Spread(regions: seq<Region>, size: nat) {
    && (forall k :: 0 <= k < |regions| ==> regions[k].range.start < regions[k].range.end <= size)
    && Regions.PairwiseDisjoint(regions)
  }

  lemma ScannedInBounds(s: string)
    ensures forall k :: 0 <= k < |Regions.Scanned(s)| ==>
              Regions.Scanned(s)[k].range.start < Regions.Scanned(s)[k].range.end <= |s|
  {
    hide FencesFrom, Regions.XmlFrom, OpenerAt, ClosesAt, Regions.OpenTagAt, Regions.ClosesTagAt;
    FencesAreBlocks(s, 0);
    Regions.XmlAreBlocks(s, FencesFrom(s, 0), 0);
  }

  lemma BytesSpread(s: string, regions: seq<Region>)
    requires Spread(regions, |s|)
    ensures Spread(MapBytes(s, regions), Size(s))
  {
    hide Offset, Size;
    var bytes := MapBytes(s, regions);
    forall k | 0 <= k < |bytes|
      ensures bytes[k].range.start < bytes[k].range.end <= Size(s)
    {
      OffsetsGrow(s, regions[k].range.start, regions[k].range.end);
    }
    forall j, k | 0 <= j < k < |bytes|
      ensures Regions.Disjoint(bytes[j], bytes[k])
    {
      if regions[j].range.end <= regions[k].range.start {
        OffsetsGrow(s, regions[j].range.end, regions[k].range.start);
      } else {
        OffsetsGrow(s, regions[k].range.end, regions[j].range.start);
      }
    }
  }

  lemma {:induction false} MarkedApart(pass: Pass, i: nat, m: ChatMessage, regions: seq<Region>, size: nat)
    requires Spread(regions, size)
    ensures Apart(Actions(Marked(pass, i, m, regions)), size)
  {
    hide Marked, Mark, Apart, Length, Minimum, Actions, Spread;
    if regions == [] {
      MarkedNone(pass, i, m);
      NothingApart(size);
    } else {
      var n := |regions| - 1;
      assert regions == regions[..n] + [regions[n]];
      MarkedNext(pass, i, m, regions[..n], regions[n]);
      SpreadFront(regions, size);
      MarkedApart(pass, i, m, regions[..n], size);
      MarkedAre(pass, i, m, regions[..n]);
      MarkKeepsRange(pass, i, m);
      var front := Marked(pass, i, m, regions[..n]);
      forall c | c in front
        ensures c.action.range.end <= regions[n].range.start || regions[n].range.end <= c.action.range.start
      {
        var r :| r in regions[..n] && c == Mark(pass, i, m, r);
      }
      PushApart(front, Mark(pass, i, m, regions[n]), size);
      assert front + [] == front;
    }
  }

  lemma NothingApart(size: nat)
    ensures Apart(Actions([]), size)
  {}

  lemma MarkKeepsRange(pass: Pass, i: nat, m: ChatMessage)
    ensures forall r :: Mark(pass, i, m, r).action.range == r.range
  {}

  lemma SpreadFront(regions: seq<Region>, size: nat)
    requires regions != [] && Spread(regions, size)
    ensures var n := |regions| - 1;
            && Spread(regions[..n], size)
            && regions[n].range.start < regions[n].range.end <= size
            && forall r :: r in regions[..n] ==>
                 r.range.end <= regions[n].range.start || regions[n].range.end <= r.range.start
  {
    var n := |regions| - 1;
    forall r | r in regions[..n]
      ensures Regions.Disjoint(r, regions[n])
    {
      var k :| 0 <= k < n && regions[..n][k] == r;
      assert regions[k] == r;
    }
  }

  lemma PushApart(xs: seq<Candidate>, c: Candidate, size: nat)
    requires Apart(Actions(xs), size) && c.action.range.start < c.action.range.end <= size
    requires forall x :: x in xs ==>
               x.action.range.end <= c.action.range.start || c.action.range.end <= x.action.range.start
    ensures Apart(Actions(xs + [c]), size)
  {
    var all := Actions(xs + [c]);
    forall k | 0 <= k < |xs|
      ensures all[k] == Actions(xs)[k] && xs[k] in xs
    {}
  }

  lemma {:induction false} ApartCountsOnce(xs: seq<Candidate>, size: nat, c: Candidate)
    requires Apart(Actions(xs), size)
    ensures multiset(xs)[c] <= 1
  {
    if xs != [] {
      var n := |xs| - 1;
      assert Actions(xs)[..n] == Actions(xs[..n]);
      ApartCountsOnce(xs[..n], size, c);
      assert xs == xs[..n] + [xs[n]];
      if c == xs[n] {
        forall k | 0 <= k < n
          ensures xs[..n][k] != c
        {
          assert Actions(xs)[k] == xs[k].action && Actions(xs)[n] == c.action;
        }
      }
    }
  }

  lemma TwiceCounts(xs: seq<Candidate>, j: nat, k: nat)
    requires j < k < |xs| && xs[j] == xs[k]
    ensures multiset(xs)[xs[j]] >= 2
  {
    assert xs == xs[..k] + ([xs[k]] + xs[k + 1..]);
    assert xs[j] in xs[..k];
  }

  /** A sorted rearrangement of ranges apart from each other runs from the last range to the first. */
  lemma SortedDescends(xs: seq<Candidate>, sorted: seq<Candidate>, i: nat, size: nat)
    requires Apart(Actions(xs), size) && multiset(sorted) == multiset(xs) && Ordered(sorted)
    requires forall c :: c in xs ==> c.index == i
    ensures Descending(Actions(sorted), size)
  {
    forall k | 0 <= k < |sorted|
      ensures sorted[k] in xs
    {
      assert sorted[k] in multiset(sorted);
    }
    forall j, k | 0 <= j < k < |sorted|
      ensures sorted[k].action.range.end <= sorted[j].action.range.start
    {
      if sorted[j] == sorted[k] {
        TwiceCounts(sorted, j, k);
        ApartCountsOnce(xs, size, sorted[j]);
        assert false;
      }
      var x :| 0 <= x < |xs| && xs[x] == sorted[j];
      var y :| 0 <= y < |xs| && xs[y] == sorted[k];
      assert Actions(xs)[x] == sorted[j].action && Actions(xs)[y] == sorted[k].action;
      assert !Before(sorted[k], sorted[j]);
    }
    forall k | 0 <= k < |sorted|
      ensures sorted[k].action.range.start < sorted[k].action.range.end <= size
    {
      var x :| 0 <= x < |xs| && xs[x] == sorted[k];
      assert Actions(xs)[x] == sorted[k].action;
    }
  }

  /** A plan holds every candidate of every message, or nothing. */
  lemma PlanHolds(pass: Pass, transcript: seq<ChatMessage>, i: nat)
    requires i < |transcript|
    ensures Ordered(Planned(pass, transcript))
    ensures var own := OfMessage(Planned(pass, transcript), i);
            && Ordered(own)
            && (Planned(pass, transcript) == [] || multiset(own) == multiset(Found(pass, transcript, i)))
  {
    hide Found, Before, OfMessage, Sort, Candidates;
    var all := Candidates(pass, transcript, |transcript|);
    SortOrders(all);
    OfMessageOrdered(Planned(pass, transcript), i);
    if Planned(pass, transcript) != [] {
      CandidatesByMessage(pass, transcript, |transcript|, i);
      SameOfMessage(Sort(all), all, i);
    }
  }

  lemma SameOfMessage(xs: seq<Candidate>, ys: seq<Candidate>, i: nat)
    requires multiset(xs) == multiset(ys)
    ensures multiset(OfMessage(xs, i)) == multiset(OfMessage(ys, i))
  {
    hide OfMessage;
    forall c
      ensures multiset(OfMessage(xs, i))[c] == multiset(OfMessage(ys, i))[c]
    {
      OfMessageCounts(xs, i, c);
      OfMessageCounts(ys, i, c);
    }
  }

  lemma FoundApart(pass: Pass, transcript: seq<ChatMessage>, i: nat)
    requires i < |transcript| && (transcript[i].role == User || transcript[i].role == Assistant)
    requires Regions.PairwiseDisjoint(Regions.Scanned(transcript[i].content))
    ensures Apart(Actions(Found(pass, transcript, i)), Size(transcript[i].content))
  {
    hide Regions.Scanned, MapBytes, Marked, Spared, Size;
    var m := transcript[i];
    ScannedInBounds(m.content);
    BytesSpread(m.content, Regions.Scanned(m.content));
    MarkedApart(pass, i, m, RegionsOf(m), Size(m.content));
  }

  /** Disjoint regions make disjoint planned ranges, whichever of them are planned. */
  lemma PlanStaysDisjoint(pass: Pass, transcript: seq<ChatMessage>, i: nat)
    requires i < |transcript| && (transcript[i].role == User || transcript[i].role == Assistant)
    requires Regions.PairwiseDisjoint(Regions.Scanned(transcript[i].content))
    ensures OneSideOrOther(Actions(OfMessage(Planned(pass, transcript), i)))
  {
    hide Regions.Scanned, Found, Planned, OfMessage, Regions.PairwiseDisjoint, Apart, Ordered, Size;
    var own := OfMessage(Planned(pass, transcript), i);
    FoundApart(pass, transcript, i);
    FoundIndex(pass, transcript, i);
    PlanHolds(pass, transcript, i);
    if Planned(pass, transcript) == [] {
      OfMessageNone(i);
    } else {
      SortedDescends(Found(pass, transcript, i), own, i, Size(transcript[i].content));
    }
  }

  lemma MapBytesAt(s: string, regions: seq<Region>, r: Region)
    requires r in MapBytes(s, regions)
    ensures exists k :: 0 <= k < |regions| && r == InBytes(s, regions[k])
  {
    var k :| 0 <= k < |regions| && MapBytes(s, regions)[k] == r;
  }

  /** Ordered ranges that do not overlap run from the last to the first. */
  lemma OrderedDescends(own: seq<Candidate>, i: nat, size: nat)
    requires Ordered(own) && OneSideOrOther(Actions(own))
    requires forall k :: 0 <= k < |own| ==>
               own[k].index == i && own[k].action.range.start < own[k].action.range.end <= size
    ensures Descending(Actions(own), size)
  {
    var actions := Actions(own);
    forall j, k | 0 <= j < k < |own|
      ensures actions[k].range.end <= actions[j].range.start
    {
      assert !Before(own[k], own[j]) && actions[j] == own[j].action && actions[k] == own[k].action;
    }
  }

  lemma PlannedOnBoundaries(pass: Pass, transcript: seq<ChatMessage>, i: nat, c: Candidate)
    requires i < |transcript| && (transcript[i].role == User || transcript[i].role == Assistant)
    requires c in Planned(pass, transcript) && c.index == i
    ensures var text := Utf8.Encode(transcript[i].content);
            && c.action.range.start < c.action.range.end <= |text|
            && Boundary(text, c.action.range.start) && Boundary(text, c.action.range.end)
  {
    hide Planned, Regions.Scanned, MapBytes, Offset, Size, Spared, Heavy, Boundary, Utf8.Encode;
    var m := transcript[i];
    PlanIsComplete(pass, transcript);
    assert Elides(pass, transcript, c);
    var r :| r in RegionsOf(m) && Heavy(pass.config, r) && c == Mark(pass, i, m, r);
    var regions := Regions.Scanned(m.content);
    MapBytesAt(m.content, regions, r);
    var k :| 0 <= k < |regions| && r == InBytes(m.content, regions[k]);
    ScannedInBounds(m.content);
    OffsetsGrow(m.content, regions[k].range.start, regions[k].range.end);
    OffsetIs(m.content, regions[k].range.start);
    OffsetOnBoundary(m.content, regions[k].range.start);
    OffsetOnBoundary(m.content, regions[k].range.end);
  }

  lemma OffsetOnBoundary(s: string, i: nat)
    requires i <= |s|
    ensures Boundary(Utf8.Encode(s), Offset(s, i))
  {
    hide Utf8.Encode, Offset, Size, IsContinuation;
    OffsetIs(s, i);
    EncodeSplit(s, i);
    EncodeStarts(s[i..]);
    BoundaryBetween(Utf8.Encode(s[..i]), Utf8.Encode(s[i..]));
  }

  /** When the ranges planned for a message do not overlap, carrying out its part of the plan in plan order skips none
      of them, replaces all of them at once, and changes the length by the placeholders less the regions. */
  lemma PlanSplices(pass: Pass, transcript: seq<ChatMessage>, i: nat)
    requires i < |transcript| && (transcript[i].role == User || transcript[i].role == Assistant)
    requires OneSideOrOther(Actions(OfMessage(Planned(pass, transcript), i)))
    ensures var text := Utf8.Encode(transcript[i].content);
            var own := Actions(OfMessage(Planned(pass, transcript), i));
            && Descending(own, |text|) && NoneSkipped(text, own)
            && Edited(text, own) == Replaced(text, own, |text|)
            && |Edited(text, own)| == |text| + Growth(own)
  {
    hide Planned, OfMessage, Spliced, Edited, NoneSkipped, Replaced, Growth, Utf8.Encode, Descending, Ordered,
      OneSideOrOther, Boundary;
    var text := Utf8.Encode(transcript[i].content);
    var own := OfMessage(Planned(pass, transcript), i);
    PlanHolds(pass, transcript, i);
    OfMessageOrdered(Planned(pass, transcript), i);
    forall k | 0 <= k < |own|
      ensures own[k].index == i && own[k].action.range.start < own[k].action.range.end <= |text|
      ensures Boundary(text, own[k].action.range.start) && Boundary(text, own[k].action.range.end)
    {
      PlannedOnBoundaries(pass, transcript, i, own[k]);
    }
    OrderedDescends(own, i, |text|);
    DescendingAlone(Actions(own), |text|);
    assert text + [] == text;
    EditedIsSpliced(text, [], Actions(own));
    SplicedIsReplaced(text, Actions(own), Actions(own), |text|);
    assert text[..|text|] == text;
    SplicedLength(text, Actions(own));
  }

  /** A tool result has one region, its whole body, and what is left of it is the placeholder; an empty body is left
      as it is. */
  lemma ToolBodySplices(pass: Pass, transcript: seq<ChatMessage>, i: nat)
    requires i < |transcript| && transcript[i].role == Tool
    ensures var text := Utf8.Encode(transcript[i].content);
            var own := Actions(OfMessage(Planned(pass, transcript), i));
            own == [] || Edited(text, own) == if text == [] then [] else Utf8.Encode(pass.placeholder(ToolBody, |text|))
  {
    hide Planned, OfMessage, Utf8.Encode, Marked, Spared, Edited, Splice;
    var text := Utf8.Encode(transcript[i].content);
    var own := OfMessage(Planned(pass, transcript), i);
    var found := Found(pass, transcript, i);
    PlanHolds(pass, transcript, i);
    OfMessageNone(i);
    MarkedOne(pass, i, transcript[i], Region(Range(0, |text|), ToolBody));
    if own != [] {
      assert own[0] in multiset(own);
      assert |own| == |multiset(own)| == |found| == 1;
      EditedOne(text, Actions(own));
      WholeBody(text, Actions(own)[0]);
    }
  }

  ghost predicate Elides(pass: Pass, transcript: seq<ChatMessage>, c: Candidate) {
    && c.index < |transcript|
    && var m := transcript[c.index];
    && !Spared(pass, Prune.Calls(transcript), m, pass.suffixAfter(c.index))
    && exists r :: r in RegionsOf(m) && Heavy(pass.config, r) && c == Mark(pass, c.index, m, r)
  }

  lemma {:induction false} CandidatesAre(pass: Pass, transcript: seq<ChatMessage>, n: nat)
    requires n <= |transcript|
    ensures forall c :: c in Candidates(pass, transcript, n) <==> c.index < n && Elides(pass, transcript, c)
  {
    hide Found, Elides;
    if n > 0 {
      CandidatesAre(pass, transcript, n - 1);
      FoundElides(pass, transcript, n - 1);
    }
  }

  lemma FoundElides(pass: Pass, transcript: seq<ChatMessage>, i: nat)
    requires i < |transcript|
    ensures forall c :: c in Found(pass, transcript, i) <==> c.index == i && Elides(pass, transcript, c)
  {
    hide Spared, RegionsOf, Heavy, Marked;
    MarkedAre(pass, i, transcript[i], RegionsOf(transcript[i]));
  }

  /** A plan elides exactly the heavy regions of the messages no rule spares, or nothing at all. */
  lemma PlanIsComplete(pass: Pass, transcript: seq<ChatMessage>)
    ensures Planned(pass, transcript) == [] ||
            forall c :: c in Planned(pass, transcript) <==> Elides(pass, transcript, c)
  {
    hide Elides, Candidates, Sort;
    var all := Candidates(pass, transcript, |transcript|);
    SortOrders(all);
    CandidatesAre(pass, transcript, |transcript|);
    ElidesIndex(pass, transcript);
    if Planned(pass, transcript) != [] {
      forall c
        ensures c in Sort(all) <==> c in all
      {
        assert c in Sort(all) <==> c in multiset(Sort(all));
      }
    }
  }

  lemma ElidesIndex(pass: Pass, transcript: seq<ChatMessage>)
    ensures forall c :: Elides(pass, transcript, c) ==> c.index < |transcript|
  {
    hide Spared;
  }

  /** No action touches a boundary message, a system or agent message, the protected window or, when warm, the
      cached one, or the result of a read of a protected path. */
  lemma NeverElided(pass: Pass, transcript: seq<ChatMessage>, c: Candidate)
    requires c in Planned(pass, transcript)
    ensures c.index < |transcript| && c.action.messageId == transcript[c.index].id
    ensures var m, config := transcript[c.index], pass.config;
            && m.id !in config.boundaryIds
            && (m.role == Tool || m.role == User || m.role == Assistant)
            && config.protectTokens <= pass.suffixAfter(c.index)
            && (pass.warm ==> pass.suffixAfter(c.index) <= config.cacheWarmSuffixTokens)
            && (m.role == Tool ==>
                  var call := Prune.Answered(Prune.Calls(transcript), m);
                  call.Some? && Prune.ReadPath(call.value).Some? ==>
                    config.key(Prune.ReadPath(call.value).value) !in config.protectedPaths)
  {
    hide Planned, Prune.Answered, Prune.ReadPath, Prune.Calls, MapBytes, Heavy;
    PlanIsComplete(pass, transcript);
    assert Elides(pass, transcript, c);
  }

  ghost predicate Stricter(a: Pass, b: Pass) {
    && a.config.fenceMinTokens >= b.config.fenceMinTokens
    && a.config.xmlMinTokens >= b.config.xmlMinTokens
    && a.config.toolBodyMinTokens >= b.config.toolBodyMinTokens
    && a.config.protectTokens >= b.config.protectTokens
    && a.config.minimumSavings >= b.config.minimumSavings
    && a.config.cacheWarmSuffixTokens <= b.config.cacheWarmSuffixTokens
    && a.config.boundaryIds >= b.config.boundaryIds
    && a.config.protectedPaths >= b.config.protectedPaths
    && (b.warm ==> a.warm)
    && a.config.key == b.config.key && a.suffixAfter == b.suffixAfter && a.placeholder == b.placeholder
  }

  lemma StricterElides(a: Pass, b: Pass, transcript: seq<ChatMessage>, c: Candidate)
    requires Stricter(a, b) && Elides(a, transcript, c)
    ensures Elides(b, transcript, c)
  {
    hide Prune.Answered, Prune.ReadPath, Prune.Calls, RegionsOf, Length;
    var m := transcript[c.index];
    var r :| r in RegionsOf(m) && Heavy(a.config, r) && c == Mark(a, c.index, m, r);
    assert Heavy(b.config, r) && c == Mark(b, c.index, m, r);
  }

  lemma {:induction false} TotalFreedAppend(xs: seq<Candidate>, ys: seq<Candidate>)
    ensures TotalFreed(xs + ys) == TotalFreed(xs) + TotalFreed(ys)
  {
    hide Freed;
    if ys == [] {
      assert xs + ys == xs;
    } else {
      assert (xs + ys)[..|xs + ys| - 1] == xs + ys[..|ys| - 1];
      TotalFreedAppend(xs, ys[..|ys| - 1]);
    }
  }

  lemma {:induction false} StricterMarksLess(a: Pass, b: Pass, i: nat, m: ChatMessage, regions: seq<Region>)
    requires Stricter(a, b)
    ensures TotalFreed(Marked(a, i, m, regions)) <= TotalFreed(Marked(b, i, m, regions))
  {
    hide Freed, Marked, Length, TotalFreed;
    if regions == [] {
      MarkedNone(a, i, m);
      MarkedNone(b, i, m);
    } else {
      var n := |regions| - 1;
      assert regions == regions[..n] + [regions[n]];
      StricterMarksLess(a, b, i, m, regions[..n]);
      MarkedNext(a, i, m, regions[..n], regions[n]);
      MarkedNext(b, i, m, regions[..n], regions[n]);
      var x, y := Marked(a, i, m, regions[..n]), Marked(b, i, m, regions[..n]);
      TotalFreedAppend(x, [Mark(a, i, m, regions[n])]);
      TotalFreedAppend(y, [Mark(b, i, m, regions[n])]);
      assert x + [] == x && y + [] == y;
    }
  }

  lemma StricterSpares(a: Pass, b: Pass, calls: seq<Prune.Placed>, m: ChatMessage, suffix: nat)
    requires Stricter(a, b) && Spared(b, calls, m, suffix)
    ensures Spared(a, calls, m, suffix)
  {
    hide Prune.Answered, Prune.ReadPath;
  }

  lemma {:induction false} StricterFreesLess(a: Pass, b: Pass, transcript: seq<ChatMessage>, n: nat)
    requires Stricter(a, b) && n <= |transcript|
    ensures TotalFreed(Candidates(a, transcript, n)) <= TotalFreed(Candidates(b, transcript, n))
  {
    hide Spared, Marked, RegionsOf, TotalFreed, Prune.Calls;
    if n > 0 {
      var i := n - 1;
      StricterFreesLess(a, b, transcript, i);
      TotalFreedAppend(Candidates(a, transcript, i), Found(a, transcript, i));
      TotalFreedAppend(Candidates(b, transcript, i), Found(b, transcript, i));
      StricterMarksLess(a, b, i, transcript[i], RegionsOf(transcript[i]));
      if Spared(b, Prune.Calls(transcript), transcript[i], b.suffixAfter(i)) {
        StricterSpares(a, b, Prune.Calls(transcript), transcript[i], b.suffixAfter(i));
      }
      NothingFreed();
    }
  }

  lemma NothingFreed()
    ensures TotalFreed([]) == 0
  {}

  /** Raising a threshold, protecting more, or going from cold to warm only drops actions. */
  lemma StricterPlansLess(a: Pass, b: Pass, transcript: seq<ChatMessage>)
    requires Stricter(a, b)
    ensures forall c :: c in Planned(a, transcript) ==> c in Planned(b, transcript)
  {
    hide Elides, Candidates, Sort, TotalFreed;
    StricterFreesLess(a, b, transcript, |transcript|);
    PlanIsComplete(a, transcript);
    SortOrders(Candidates(b, transcript, |transcript|));
    CandidatesAre(b, transcript, |transcript|);
    ElidesIndex(b, transcript);
    forall c | c in Planned(a, transcript)
      ensures c in Planned(b, transcript)
    {
      StricterElides(a, b, transcript, c);
      assert c in Candidates(b, transcript, |transcript|);
      assert c in multiset(Sort(Candidates(b, transcript, |transcript|)));
    }
  }

  // ----- The rules, written out -----

  /** Which regions a message has: a tool result its whole body, a user's or assistant's message those the scan finds,
      any other message none. */
  lemma RegionsOfAre(m: ChatMessage)
    ensures m.role == Tool ==> RegionsOf(m) == [Region(Range(0, |Utf8.Encode(m.content)|), ToolBody)]
    ensures m.role == User || m.role == Assistant ==>
              && |RegionsOf(m)| == |Regions.Scanned(m.content)|
              && forall k :: 0 <= k < |RegionsOf(m)| ==>
                   var r := Regions.Scanned(m.content)[k];
                   RegionsOf(m)[k] == Region(Range(Offset(m.content, r.range.start), Offset(m.content, r.range.end)),
                     r.kind)
    ensures m.role == System || m.role.Agent? ==> RegionsOf(m) == []
  {
    hide Regions.Scanned, Utf8.Encode, Offset;
  }

  /** A region is heavy when its bytes make up the threshold of its own kind, at four bytes a token. */
  lemma HeavyIs(config: ShakeConfig, r: Region)
    requires r.range.start <= r.range.end
    ensures r.kind.Fence? ==> (Heavy(config, r) <==> r.range.end - r.range.start >= 4 * config.fenceMinTokens)
    ensures r.kind.Xml? ==> (Heavy(config, r) <==> r.range.end - r.range.start >= 4 * config.xmlMinTokens)
    ensures r.kind == ToolBody ==> (Heavy(config, r) <==> r.range.end - r.range.start >= 4 * config.toolBodyMinTokens)
  {}

  /** Whether the rules let a pass touch a message at all. */
  ghost predicate Touchable(pass: Pass, transcript: seq<ChatMessage>, i: nat)
    requires i < |transcript|
  {
    var m, config, suffix := transcript[i], pass.config, pass.suffixAfter(i);
    && m.id !in config.boundaryIds
    && config.protectTokens <= suffix
    && (pass.warm ==> suffix <= config.cacheWarmSuffixTokens)
    && (m.role == Tool ==>
          var call := Prune.Answered(Prune.Calls(transcript), m);
          call.Some? && Prune.ReadPath(call.value).Some? ==>
            config.key(Prune.ReadPath(call.value).value) !in config.protectedPaths)
  }

  /** What a plan elides, when it is not empty: every region of a message that may be touched whose bytes make up the
      threshold of its kind, and nothing else. */
  lemma PlannedMeans(pass: Pass, transcript: seq<ChatMessage>, i: nat, r: Region)
    requires Planned(pass, transcript) != [] && i < |transcript| && r in RegionsOf(transcript[i])
    requires r.range.start <= r.range.end
    ensures var m, size := transcript[i], r.range.end - r.range.start;
            var action := ShakeAction(m.id, r.range, r.kind, pass.placeholder(r.kind, size));
            Candidate(i, action) in Planned(pass, transcript) <==>
            && Touchable(pass, transcript, i)
            && (r.kind.Fence? ==> size >= 4 * pass.config.fenceMinTokens)
            && (r.kind.Xml? ==> size >= 4 * pass.config.xmlMinTokens)
            && (r.kind == ToolBody ==> size >= 4 * pass.config.toolBodyMinTokens)
  {
    hide Planned, Prune.Answered, Prune.ReadPath, Prune.Calls, RegionsOf, Heavy;
    var m, size := transcript[i], r.range.end - r.range.start;
    var c := Candidate(i, ShakeAction(m.id, r.range, r.kind, pass.placeholder(r.kind, size)));
    PlanIsComplete(pass, transcript);
    HeavyIs(pass.config, r);
    assert c == Mark(pass, i, m, r);
    if Elides(pass, transcript, c) {
      var other :| other in RegionsOf(m) && Heavy(pass.config, other) && c == Mark(pass, i, m, other);
      assert other == r;
    }
  }

  /** When a plan is empty: nothing qualifies, or what the qualifying regions would free falls short of the minimum, at
      four bytes a token. */
  lemma GateIs(pass: Pass, transcript: seq<ChatMessage>)
    ensures var all := Candidates(pass, transcript, |transcript|);
            Planned(pass, transcript) == [] <==> all == [] || TotalFreed(all) < 4 * pass.config.minimumSavings
  {
    hide Candidates, TotalFreed, Sort;
    var all := Candidates(pass, transcript, |transcript|);
    SortOrders(all);
    assert |Sort(all)| == |multiset(Sort(all))| == |all|;
    assert all == [] ==> Sort(all) == [];
  }

  /** What a list of edits counts as freed is no less than what it takes off the length, and the same when no
      placeholder is longer than its region. */
  lemma {:induction false} FreedIsShrinkage(xs: seq<Candidate>)
    ensures TotalFreed(xs) >= -Growth(Actions(xs))
    ensures TotalFreed(xs) == -Growth(Actions(xs)) <==>
            forall c :: c in xs ==> |Utf8.Encode(c.action.placeholder)| <= Length(c.action.range)
  {
    hide Utf8.Encode, Length;
    if xs != [] {
      assert Actions(xs)[1..] == Actions(xs[1..]) && Actions(xs)[0] == xs[0].action;
      assert xs == [xs[0]] + xs[1..];
      TotalFreedAppend([xs[0]], xs[1..]);
      OneFreed(xs[0]);
      FreedIsShrinkage(xs[1..]);
    }
  }

  /** An edit frees what it takes off the text, and nothing when its placeholder is longer. */
  lemma FreedIs(a: ShakeAction)
    requires a.range.start <= a.range.end
    ensures var before, after := a.range.end - a.range.start, |Utf8.Encode(a.placeholder)|;
            && (after <= before ==> Freed(a) == before - after)
            && (after > before ==> Freed(a) == 0)
  {
    hide Utf8.Encode;
  }

  lemma OneFreed(c: Candidate)
    ensures TotalFreed([c]) == Freed(c.action)
  {
    assert [c][..0] == [];
  }

  // ----- Character boundaries -----

  lemma CharContinues(c: char)
    ensures forall k :: 1 <= k < |Utf8.EncodeChar(c)| ==> IsContinuation(Utf8.EncodeChar(c)[k])
  {}

  /** The boundaries an edit is held to are the positions between characters, and no others. */
  lemma {:induction false} BoundaryIs(s: string, i: nat)
    requires i <= Size(s)
    ensures Boundary(Utf8.Encode(s), i) <==> exists k: nat :: k <= |s| && i == Offset(s, k)
  {
    hide Utf8.Encode, Offset, Size, IsContinuation, Boundary;
    if k: nat :| k <= |s| && i == Offset(s, k) {
      OffsetOnBoundary(s, k);
    }
    OffsetIs(s, 0);
    assert s[..0] == [];
    EncodeStarts([]);
    if Boundary(Utf8.Encode(s), i) && i > 0 {
      OffsetIs(s, |s|);
      assert s[..|s|] == s;
      EncodeStarts(s);
      assert s != [];
      var k := BoundaryFrom(s, i);
      assert k <= |s| && i == Offset(s, k);
    }
  }

  lemma {:induction false} BoundaryFrom(s: string, i: nat) returns (k: nat)
    requires s != [] && 0 < i <= Size(s) && Boundary(Utf8.Encode(s), i)
    ensures k <= |s| && i == Offset(s, k)
  {
    hide Utf8.EncodeChar, IsContinuation;
    var e, rest := Utf8.EncodeChar(s[0]), Utf8.Encode(s[1..]);
    assert Utf8.Encode(s) == e + rest;
    CharContinues(s[0]);
    assert i >= |e|;
    var j := i - |e|;
    if j == 0 {
      k := 1;
      OffsetTail(s, 0);
      assert s[1..][..0] == [];
    } else {
      assert j < |rest| ==> (e + rest)[i] == rest[j];
      k := BoundaryFrom(s[1..], j);
      OffsetTail(s, k);
      k := k + 1;
    }
  }

  lemma OffsetTail(s: string, k: nat)
    requires s != [] && k <= |s| - 1
    ensures Offset(s, k + 1) == |Utf8.EncodeChar(s[0])| + Offset(s[1..], k)
  {
    hide Utf8.EncodeChar;
    assert s[..k + 1][1..] == s[1..][..k] && s[..k + 1][0] == s[0];
  }
}
