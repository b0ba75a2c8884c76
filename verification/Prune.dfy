/** Supersede pruning: which tool results a pass blanks, and what a pass never does. */
module Prune {
  import opened Option
  import opened Chat
  import Json
  import Utf8

  const SUPERSEDED_PLACEHOLDER: string := "[Superseded by a newer read of this file]"

  /** `key` says which path strings name the same path. */
  datatype PruneConfig = PruneConfig(
    protectTokens: nat,
    minimumSavings: nat,
    minPruneTokens: nat,
    cacheWarmSuffixTokens: nat,
    protectedPaths: set<string>,
    key: string -> string)

  datatype Action = Blank(messageId: string, placeholder: string)

  /** A call and the index of the message that issued it. */
  datatype Placed = Placed(call: ToolCall, index: nat)

  function Tokens(s: string): nat { |Utf8.Encode(s)| / 4 }

  // ----- The calls of a transcript, in order -----

  function PlacedAt(calls: seq<ToolCall>, index: nat): (r: seq<Placed>)
    ensures |r| == |calls|
  {
    seq(|calls|, i requires 0 <= i < |calls| => Placed(calls[i], index))
  }

  /** The calls of the assistant messages among the first `n`. */
  function CallsBefore(transcript: seq<ChatMessage>, n: nat): seq<Placed>
    requires n <= |transcript|
  {
    if n == 0 then [] else
    CallsBefore(transcript, n - 1) +
      if transcript[n - 1].role == Assistant then PlacedAt(transcript[n - 1].toolCalls, n - 1) else []
  }

  function Calls(transcript: seq<ChatMessage>): seq<Placed> {
    CallsBefore(transcript, |transcript|)
  }

  /** The path a call reads, if it is a well-formed read. */
  function ReadPath(call: ToolCall): Option<string> {
    if call.toolName == "read_file" then Json.StringAt(call.arguments, "path") else None
  }

  /** Whether the index takes the call under this key. */
  predicate ReadsKey(config: PruneConfig, call: ToolCall, k: string) {
    ReadPath(call).Some? && call.id.Some? && config.key(ReadPath(call).value) == k
  }

  /** The last read of the key. */
  function Newest(config: PruneConfig, calls: seq<Placed>, k: string): (r: Option<nat>)
    ensures r.Some? ==> r.value < |calls| && ReadsKey(config, calls[r.value].call, k)
    ensures forall i :: (if r.Some? then r.value + 1 else 0) <= i < |calls| ==> !ReadsKey(config, calls[i].call, k)
  {
    if calls == [] then None
    else if ReadsKey(config, calls[|calls| - 1].call, k) then Some(|calls| - 1)
    else Newest(config, calls[..|calls| - 1], k)
  }

  /** The first call with the id. */
  function First(calls: seq<Placed>, id: string): (r: Option<nat>)
    ensures r.Some? ==> r.value < |calls| && calls[r.value].call.id == Some(id)
    ensures forall i :: 0 <= i < (if r.Some? then r.value else |calls|) ==> calls[i].call.id != Some(id)
  {
    if calls == [] then None
    else if calls[0].call.id == Some(id) then Some(0)
    else
      var r := First(calls[1..], id);
      if r.None? then None else Some(r.value + 1)
  }

  // ----- The plan -----

  /** The call a message answers. */
  function Answered(calls: seq<Placed>, m: ChatMessage): Option<ToolCall> {
    if m.toolCallId.None? then None else
    var i := First(calls, m.toolCallId.value);
    if i.None? then None else Some(calls[i.value].call)
  }

  /** Whether the path of `call` has been read again since, under another id. */
  predicate Superseded(config: PruneConfig, calls: seq<Placed>, call: ToolCall) {
    && ReadPath(call).Some?
    && var n := Newest(config, calls, config.key(ReadPath(call).value));
    && n.Some? && call.id.Some? && calls[n.value].call.id != call.id
  }

  predicate IsCandidate(config: PruneConfig, calls: seq<Placed>, m: ChatMessage, suffix: nat, warm: bool) {
    && m.role == Tool
    && m.content != SUPERSEDED_PLACEHOLDER
    && var call := Answered(calls, m);
    && call.Some? && ReadPath(call.value).Some?
    && config.key(ReadPath(call.value).value) !in config.protectedPaths
    && Superseded(config, calls, call.value)
    && Tokens(m.content) >= config.minPruneTokens
    && suffix >= config.protectTokens
    && !(warm && suffix > config.cacheWarmSuffixTokens)
  }

  /** The messages among the first `n` that a pass would blank, by index. */
  function Candidates(config: PruneConfig, transcript: seq<ChatMessage>, suffixAfter: nat -> nat, warm: bool,
      n: nat): (r: seq<nat>)
    requires n <= |transcript|
    ensures forall k :: 0 <= k < |r| ==> r[k] < n
  {
    if n == 0 then [] else
    Candidates(config, transcript, suffixAfter, warm, n - 1) +
      if IsCandidate(config, Calls(transcript), transcript[n - 1], suffixAfter(n - 1), warm) then [n - 1] else []
  }

  predicate Within(indices: seq<nat>, n: nat) {
    forall k :: 0 <= k < |indices| ==> indices[k] < n
  }

  /** The tokens that blanking the message saves. */
  function Freed(m: ChatMessage): nat {
    var placeholder := Tokens(SUPERSEDED_PLACEHOLDER);
    if Tokens(m.content) >= placeholder then Tokens(m.content) - placeholder else 0
  }

  function TotalFreed(transcript: seq<ChatMessage>, indices: seq<nat>): nat
    requires Within(indices, |transcript|)
  {
    if indices == [] then 0 else
    TotalFreed(transcript, indices[..|indices| - 1]) + Freed(transcript[indices[|indices| - 1]])
  }

  /** The candidates, or none of them when together they would save too little. */
  function Planned(config: PruneConfig, transcript: seq<ChatMessage>, suffixAfter: nat -> nat,
      warm: bool): (r: seq<nat>)
    ensures Within(r, |transcript|)
  {
    var all := Candidates(config, transcript, suffixAfter, warm, |transcript|);
    if TotalFreed(transcript, all) < config.minimumSavings then [] else all
  }

  function Actions(transcript: seq<ChatMessage>, indices: seq<nat>): seq<Action>
    requires Within(indices, |transcript|)
  {
    seq(|indices|, k requires 0 <= k < |indices| => Blank(transcript[indices[k]].id, SUPERSEDED_PLACEHOLDER))
  }

  // ----- The code -----

  type Index = map<string, (string, nat)>

  ghost predicate Indexes(config: PruneConfig, index: Index, calls: seq<Placed>) {
    forall k ::
      if Newest(config, calls, k).None? then k !in index
      else
        var p := calls[Newest(config, calls, k).value];
        k in index && Some(index[k].0) == p.call.id && index[k].1 == p.index
  }

  lemma IndexSkip(config: PruneConfig, index: Index, calls: seq<Placed>, p: Placed)
    requires Indexes(config, index, calls) && (ReadPath(p.call).None? || p.call.id.None?)
    ensures Indexes(config, index, calls + [p])
  {
    hide ReadPath;
    assert (calls + [p])[..|calls|] == calls;
  }

  lemma IndexPut(config: PruneConfig, index: Index, calls: seq<Placed>, p: Placed)
    requires Indexes(config, index, calls) && ReadPath(p.call).Some? && p.call.id.Some?
    ensures Indexes(config, index[config.key(ReadPath(p.call).value) := (p.call.id.value, p.index)], calls + [p])
  {
    hide ReadPath;
    assert (calls + [p])[..|calls|] == calls;
  }

  method BuildIndex(config: PruneConfig, transcript: seq<ChatMessage>) returns (index: Index)
    ensures Indexes(config, index, Calls(transcript))
  {
    hide Indexes, ReadPath, CallsBefore, PlacedAt;
    index := map[];
    NoCalls(config, transcript);
    for i := 0 to |transcript|
      invariant Indexes(config, index, CallsBefore(transcript, i))
    {
      MoreCalls(transcript, i);
      var msg := transcript[i];
      if msg.role != Assistant {
        continue;
      }
      ghost var before := CallsBefore(transcript, i);
      for j := 0 to |msg.toolCalls|
        invariant Indexes(config, index, before + PlacedAt(msg.toolCalls, i)[..j])
      {
        var call := msg.toolCalls[j];
        PlacedNext(before, msg.toolCalls, i, j);
        ghost var done := before + PlacedAt(msg.toolCalls, i)[..j];
        var path := ReadPath(call);
        if path.None? || call.id.None? {
          IndexSkip(config, index, done, Placed(call, i));
          continue;
        }
        IndexPut(config, index, done, Placed(call, i));
        index := index[config.key(path.value) := (call.id.value, i)];
      }
      PlacedAll(before, msg.toolCalls, i);
    }
  }

  lemma NoCalls(config: PruneConfig, transcript: seq<ChatMessage>)
    ensures Indexes(config, map[], CallsBefore(transcript, 0))
  {}

  lemma MoreCalls(transcript: seq<ChatMessage>, i: nat)
    requires i < |transcript|
    ensures var before := CallsBefore(transcript, i);
            CallsBefore(transcript, i + 1) ==
            if transcript[i].role == Assistant then before + PlacedAt(transcript[i].toolCalls, i) else before
    ensures CallsBefore(transcript, i) + PlacedAt(transcript[i].toolCalls, i)[..0] == CallsBefore(transcript, i)
  {}

  lemma PlacedNext(before: seq<Placed>, calls: seq<ToolCall>, i: nat, j: nat)
    requires j < |calls|
    ensures |PlacedAt(calls, i)| == |calls|
    ensures before + PlacedAt(calls, i)[..j + 1] == before + PlacedAt(calls, i)[..j] + [Placed(calls[j], i)]
  {}

  lemma PlacedAll(before: seq<Placed>, calls: seq<ToolCall>, i: nat)
    ensures PlacedAt(calls, i)[..|calls|] == PlacedAt(calls, i)
  {}

  method FindCallByResult(transcript: seq<ChatMessage>, result: ChatMessage) returns (r: Option<ToolCall>)
    ensures r == Answered(Calls(transcript), result)
  {
    hide First, CallsBefore, PlacedAt;
    if result.toolCallId.None? {
      return None;
    }
    var want := result.toolCallId.value;
    FirstNone(want);
    assert CallsBefore(transcript, 0) == [] by { NoneBefore(transcript); }
    for i := 0 to |transcript|
      invariant First(CallsBefore(transcript, i), want) == None
    {
      MoreCalls(transcript, i);
      var msg := transcript[i];
      if msg.role != Assistant {
        continue;
      }
      ghost var before := CallsBefore(transcript, i);
      for j := 0 to |msg.toolCalls|
        invariant First(before + PlacedAt(msg.toolCalls, i)[..j], want) == None
      {
        var call := msg.toolCalls[j];
        PlacedNext(before, msg.toolCalls, i, j);
        FirstPush(before + PlacedAt(msg.toolCalls, i)[..j], Placed(call, i), want);
        if call.id == Some(want) {
          FirstInLonger(transcript, i, j, want);
          return Some(call);
        }
      }
      PlacedAll(before, msg.toolCalls, i);
    }
    return None;
  }

  lemma NoneBefore(transcript: seq<ChatMessage>)
    ensures CallsBefore(transcript, 0) == []
  {}

  lemma FirstNone(id: string)
    ensures First([], id) == None
  {}

  lemma {:induction false} FirstAppend(a: seq<Placed>, b: seq<Placed>, id: string)
    ensures First(a, id).Some? ==> First(a + b, id) == First(a, id)
    ensures First(a, id).None? ==>
            First(a + b, id) == if First(b, id).None? then None else Some(|a| + First(b, id).value)
  {
    if a == [] {
      assert a + b == b;
    } else {
      assert (a + b)[1..] == a[1..] + b;
      FirstAppend(a[1..], b, id);
    }
  }

  lemma FirstPush(calls: seq<Placed>, p: Placed, id: string)
    requires First(calls, id) == None
    ensures First(calls + [p], id) == if p.call.id == Some(id) then Some(|calls|) else None
  {
    FirstAppend(calls, [p], id);
  }

  lemma {:induction false} CallsPrefix(transcript: seq<ChatMessage>, n: nat, m: nat)
    requires n <= m <= |transcript|
    ensures CallsBefore(transcript, n) <= CallsBefore(transcript, m)
    decreases m
  {
    if n < m {
      CallsPrefix(transcript, n, m - 1);
    }
  }

  /** The first hit within the calls looked at so far is the first of all. */
  lemma FirstInLonger(transcript: seq<ChatMessage>, i: nat, j: nat, id: string)
    requires i < |transcript| && transcript[i].role == Assistant && j < |transcript[i].toolCalls|
    requires var seen := CallsBefore(transcript, i) + PlacedAt(transcript[i].toolCalls, i)[..j];
             First(seen, id) == None && transcript[i].toolCalls[j].id == Some(id)
    ensures var all := Calls(transcript);
            First(all, id).Some? && all[First(all, id).value].call == transcript[i].toolCalls[j]
  {
    hide First, PlacedAt;
    var before, here := CallsBefore(transcript, i), PlacedAt(transcript[i].toolCalls, i);
    var call := Placed(transcript[i].toolCalls[j], i);
    var seen := before + here[..j];
    PlacedNext(before, transcript[i].toolCalls, i, j);
    FirstPush(seen, call, id);
    CallsPrefix(transcript, i + 1, |transcript|);
    MoreCalls(transcript, i);
    assert here == here[..j + 1] + here[j + 1..];
    assert before + here == (seen + [call]) + here[j + 1..];
    var all := Calls(transcript);
    assert all == (seen + [call]) + (here[j + 1..] + all[|before + here|..]);
    FirstAppend(seen + [call], here[j + 1..] + all[|before + here|..], id);
    assert all[|seen|] == call;
  }

  /** What the index says about one path: exactly whether a read of it carries another id. */
  lemma IndexAnswers(config: PruneConfig, index: Index, calls: seq<Placed>, call: ToolCall)
    requires Indexes(config, index, calls) && ReadPath(call).Some?
    ensures var k := config.key(ReadPath(call).value);
            Superseded(config, calls, call) <==> k in index && call.id.Some? && index[k].0 != call.id.value
  {
    hide ReadPath;
    var n := Newest(config, calls, config.key(ReadPath(call).value));
  }

  lemma CandidatesNext(config: PruneConfig, transcript: seq<ChatMessage>, suffixAfter: nat -> nat, warm: bool, n: nat)
    requires n < |transcript|
    ensures Candidates(config, transcript, suffixAfter, warm, 0) == []
    ensures Candidates(config, transcript, suffixAfter, warm, n + 1) ==
            Candidates(config, transcript, suffixAfter, warm, n) +
            if IsCandidate(config, Calls(transcript), transcript[n], suffixAfter(n), warm) then [n] else []
  {
    hide IsCandidate;
  }

  /** One message of the walk, decided by the same tests in the same order. */
  method Consider(config: PruneConfig, transcript: seq<ChatMessage>, index: Index, msg: ChatMessage, suffix: nat,
      warm: bool)
      returns (take: bool)
    requires Indexes(config, index, Calls(transcript))
    ensures take == IsCandidate(config, Calls(transcript), msg, suffix, warm)
  {
    hide Indexes, Superseded, ReadPath, Answered, Tokens, CallsBefore;
    if msg.role != Tool {
      return false;
    }
    if msg.content == SUPERSEDED_PLACEHOLDER {
      return false;
    }
    var call := FindCallByResult(transcript, msg);
    if call.None? {
      return false;
    }
    var path := ReadPath(call.value);
    if path.None? {
      return false;
    }
    var k := config.key(path.value);
    if k in config.protectedPaths {
      return false;
    }
    IndexAnswers(config, index, Calls(transcript), call.value);
    if k !in index || call.value.id.None? || index[k].0 == call.value.id.value {
      return false;
    }
    if Tokens(msg.content) < config.minPruneTokens {
      return false;
    }
    if suffix < config.protectTokens {
      return false;
    }
    if warm && suffix > config.cacheWarmSuffixTokens {
      return false;
    }
    return true;
  }

  method PlanPrune(transcript: seq<ChatMessage>, config: PruneConfig, suffixAfter: nat -> nat, warm: bool)
      returns (plan: seq<Action>)
    ensures plan == Actions(transcript, Planned(config, transcript, suffixAfter, warm))
  {
    hide Indexes, IsCandidate, Freed, CallsBefore, Candidates, TotalFreed;
    var index := BuildIndex(config, transcript);
    var candidates: seq<(Action, nat)> := [];
    ghost var chosen: seq<nat> := [];
    ghost var all := Candidates(config, transcript, suffixAfter, warm, |transcript|);
    NoCandidates(config, transcript, suffixAfter, warm);
    for i := 0 to |transcript|
      invariant chosen == Candidates(config, transcript, suffixAfter, warm, i)
      invariant Within(chosen, |transcript|) && |candidates| == |chosen|
      invariant forall k :: 0 <= k < |chosen| ==>
                  candidates[k] == (Blank(transcript[chosen[k]].id, SUPERSEDED_PLACEHOLDER),
                    Freed(transcript[chosen[k]]))
    {
      CandidatesNext(config, transcript, suffixAfter, warm, i);
      var take := Consider(config, transcript, index, transcript[i], suffixAfter(i), warm);
      if take {
        candidates := candidates + [(Blank(transcript[i].id, SUPERSEDED_PLACEHOLDER), Freed(transcript[i]))];
        chosen := chosen + [i];
      }
    }
    var total := 0;
    NothingFreed(transcript);
    for k := 0 to |candidates|
      invariant total == TotalFreed(transcript, chosen[..k])
    {
      assert chosen[..k + 1] == chosen[..k] + [chosen[k]];
      FreedPush(transcript, chosen[..k], chosen[k]);
      total := total + candidates[k].1;
    }
    assert chosen[..|chosen|] == chosen;
    if total < config.minimumSavings {
      return [];
    }
    plan := seq(|candidates|, k requires 0 <= k < |candidates| => candidates[k].0);
  }

  lemma NothingFreed(transcript: seq<ChatMessage>)
    ensures TotalFreed(transcript, []) == 0
  {}

  lemma NoCandidates(config: PruneConfig, transcript: seq<ChatMessage>, suffixAfter: nat -> nat, warm: bool)
    ensures Candidates(config, transcript, suffixAfter, warm, 0) == []
    ensures Within(Candidates(config, transcript, suffixAfter, warm, |transcript|), |transcript|)
  {}

  // ----- What a plan never does -----

  lemma {:induction false} CandidatesAre(config: PruneConfig, transcript: seq<ChatMessage>, suffixAfter: nat -> nat,
      warm: bool, n: nat)
    requires n <= |transcript|
    ensures var r := Candidates(config, transcript, suffixAfter, warm, n);
            forall i: nat :: i in r <==>
              i < n && IsCandidate(config, Calls(transcript), transcript[i], suffixAfter(i), warm)
    ensures var r := Candidates(config, transcript, suffixAfter, warm, n);
            forall j, k :: 0 <= j < k < |r| ==> r[j] < r[k]
  {
    hide IsCandidate;
    if n > 0 {
      CandidatesAre(config, transcript, suffixAfter, warm, n - 1);
    }
  }

  /** The messages of a plan are the candidates, in transcript order, unless they are too few to bother. */
  lemma PlannedAre(config: PruneConfig, transcript: seq<ChatMessage>, suffixAfter: nat -> nat, warm: bool)
    ensures var r := Planned(config, transcript, suffixAfter, warm);
            forall j, k :: 0 <= j < k < |r| ==> r[j] < r[k]
    ensures var r := Planned(config, transcript, suffixAfter, warm);
            forall i :: i in r ==>
              i < |transcript| && IsCandidate(config, Calls(transcript), transcript[i], suffixAfter(i), warm)
  {
    hide IsCandidate;
    CandidatesAre(config, transcript, suffixAfter, warm, |transcript|);
  }

  /** Whatever is blanked has been read again: a call after the one it answers reads the same path. */
  lemma BlankedIsReadLater(config: PruneConfig, transcript: seq<ChatMessage>, suffixAfter: nat -> nat, warm: bool,
      i: nat)
    requires i in Planned(config, transcript, suffixAfter, warm)
    ensures i < |transcript| && transcript[i].role == Tool && transcript[i].toolCallId.Some?
    ensures var calls := Calls(transcript);
            var p := First(calls, transcript[i].toolCallId.value);
            && p.Some? && ReadPath(calls[p.value].call).Some?
            && var k := config.key(ReadPath(calls[p.value].call).value);
            exists q :: p.value < q < |calls| && ReadsKey(config, calls[q].call, k)
  {
    hide Planned, ReadPath, CallsBefore;
    PlannedAre(config, transcript, suffixAfter, warm);
    var calls := Calls(transcript);
    var p := First(calls, transcript[i].toolCallId.value).value;
    var k := config.key(ReadPath(calls[p].call).value);
    assert ReadsKey(config, calls[p].call, k);
    assert p < Newest(config, calls, k).value;
  }

  ghost predicate UniqueIds(calls: seq<Placed>) {
    forall i, j :: 0 <= i < j < |calls| && calls[i].call.id.Some? ==> calls[i].call.id != calls[j].call.id
  }

  /** With unique call ids, the result of the newest read of a path is never blanked. */
  lemma NewestIsKept(config: PruneConfig, transcript: seq<ChatMessage>, suffixAfter: nat -> nat, warm: bool, k: string,
      i: nat)
    requires UniqueIds(Calls(transcript)) && Newest(config, Calls(transcript), k).Some?
    requires i < |transcript|
    requires transcript[i].toolCallId == Calls(transcript)[Newest(config, Calls(transcript), k).value].call.id
    ensures i !in Planned(config, transcript, suffixAfter, warm)
  {
    hide Planned, ReadPath, CallsBefore;
    var calls := Calls(transcript);
    var n := Newest(config, calls, k).value;
    var p := First(calls, calls[n].call.id.value);
    assert p == Some(n);
    PlannedAre(config, transcript, suffixAfter, warm);
  }

  /** The first call with the id is a read of a path whose newest read carries another id. */
  predicate FirstIsStale(config: PruneConfig, calls: seq<Placed>, id: string) {
    && First(calls, id).Some?
    && var call := calls[First(calls, id).value].call;
    && ReadPath(call).Some? && Superseded(config, calls, call)
  }

  ghost predicate NeverBlanked(config: PruneConfig, transcript: seq<ChatMessage>, i: nat) {
    forall c: PruneConfig, suffixAfter, warm :: c.key == config.key ==> i !in Planned(c, transcript, suffixAfter, warm)
  }

  /** Whatever the ids: no settings ever blank a result exactly when the first call with its id is not a stale read. */
  lemma NeverBlankedIff(config: PruneConfig, transcript: seq<ChatMessage>, i: nat)
    requires i < |transcript| && transcript[i].role == Tool && transcript[i].toolCallId.Some?
    requires transcript[i].content != SUPERSEDED_PLACEHOLDER
    ensures NeverBlanked(config, transcript, i) <==>
            !FirstIsStale(config, Calls(transcript), transcript[i].toolCallId.value)
  {
    hide FirstIsStale, IsCandidate, Planned, CallsBefore;
    var id := transcript[i].toolCallId.value;
    if FirstIsStale(config, Calls(transcript), id) {
      var c := PruneConfig(0, 0, 0, 0, {}, config.key);
      StaleIsCandidate(config, c, Calls(transcript), transcript[i]);
      CandidatesAre(c, transcript, n => 0, false, |transcript|);
      NoGate(c, transcript, n => 0, false);
      assert i in Planned(c, transcript, n => 0, false);
    } else {
      forall c: PruneConfig, suffixAfter, warm | c.key == config.key
        ensures i !in Planned(c, transcript, suffixAfter, warm)
      {
        PlannedAre(c, transcript, suffixAfter, warm);
        FreshIsNoCandidate(config, c, Calls(transcript), transcript[i], suffixAfter(i), warm);
      }
    }
  }

  lemma StaleIsCandidate(config: PruneConfig, c: PruneConfig, calls: seq<Placed>, m: ChatMessage)
    requires c == PruneConfig(0, 0, 0, 0, {}, config.key)
    requires m.role == Tool && m.toolCallId.Some? && m.content != SUPERSEDED_PLACEHOLDER
    requires FirstIsStale(config, calls, m.toolCallId.value)
    ensures IsCandidate(c, calls, m, 0, false)
  {
    hide Newest, Tokens, ReadPath;
    var call := Answered(calls, m).value;
    SameNewest(config, c, calls, config.key(ReadPath(call).value));
  }

  lemma FreshIsNoCandidate(config: PruneConfig, c: PruneConfig, calls: seq<Placed>, m: ChatMessage, suffix: nat,
      warm: bool)
    requires c.key == config.key && m.toolCallId.Some? && !FirstIsStale(config, calls, m.toolCallId.value)
    ensures !IsCandidate(c, calls, m, suffix, warm)
  {
    hide Newest, Tokens, ReadPath;
    var call := Answered(calls, m);
    if call.Some? && ReadPath(call.value).Some? {
      SameNewest(config, c, calls, config.key(ReadPath(call.value).value));
    }
  }

  lemma NoGate(config: PruneConfig, transcript: seq<ChatMessage>, suffixAfter: nat -> nat, warm: bool)
    requires config.minimumSavings == 0
    ensures Planned(config, transcript, suffixAfter, warm) ==
            Candidates(config, transcript, suffixAfter, warm, |transcript|)
  {
    hide Candidates, TotalFreed;
  }

  // ----- When a newer copy is left -----

  /** A result of the call with this id that still has its text. */
  ghost predicate LiveAnswer(transcript: seq<ChatMessage>, j: nat, id: Option<string>) {
    && j < |transcript| && transcript[j].role == Tool
    && id.Some? && transcript[j].toolCallId == id
    && transcript[j].content != SUPERSEDED_PLACEHOLDER
  }

  /** The plan leaves some result of a read of `k` that comes after call `p`. */
  ghost predicate LeavesNewer(config: PruneConfig, transcript: seq<ChatMessage>, planned: seq<nat>, k: string, p: nat) {
    var calls := Calls(transcript);
    exists j: nat, q: nat ::
      && p < q < |calls| && ReadsKey(config, calls[q].call, k)
      && LiveAnswer(transcript, j, calls[q].call.id) && j !in planned
  }

  /** Under all settings, a plan that blanks the result leaves a newer one. */
  ghost predicate AlwaysLeavesNewer(config: PruneConfig, transcript: seq<ChatMessage>, i: nat, k: string, p: nat) {
    forall c: PruneConfig, suffixAfter, warm ::
      c.key == config.key && i in Planned(c, transcript, suffixAfter, warm) ==>
        LeavesNewer(config, transcript, Planned(c, transcript, suffixAfter, warm), k, p)
  }

  /** With unique call ids: whatever the settings, blanking a stale result leaves a newer result of its path, if and
      only if the newest read of that path has been answered. */
  lemma NewerIsLeftIff(config: PruneConfig, transcript: seq<ChatMessage>, i: nat, k: string, p: nat)
    requires var calls := Calls(transcript);
             && UniqueIds(calls) && p < |calls| && ReadsKey(config, calls[p].call, k)
             && LiveAnswer(transcript, i, calls[p].call.id)
             && p != Newest(config, calls, k).value
    ensures var n := Newest(config, Calls(transcript), k).value;
            AlwaysLeavesNewer(config, transcript, i, k, p) <==>
            exists j: nat :: LiveAnswer(transcript, j, Calls(transcript)[n].call.id)
  {
    hide CallsBefore, Planned, ReadPath, IsCandidate, ReadsKey;
    var calls := Calls(transcript);
    var n := Newest(config, calls, k).value;
    NewestFacts(config, calls, k, p);
    if j: nat :| LiveAnswer(transcript, j, calls[n].call.id) {
      forall c: PruneConfig, suffixAfter, warm | c.key == config.key
        ensures LeavesNewer(config, transcript, Planned(c, transcript, suffixAfter, warm), k, p)
      {
        SameNewest(config, c, calls, k);
        NewestIsKept(c, transcript, suffixAfter, warm, k, j);
      }
    } else {
      var c := PruneConfig(0, 0, 0, 0, {}, config.key);
      NoGate(c, transcript, m => 0, false);
      CandidatesAre(c, transcript, m => 0, false, |transcript|);
      StaleReadIsCandidate(config, c, transcript, i, k, p);
      forall j: nat, q: nat | p < q < |calls| && ReadsKey(config, calls[q].call, k)
        && LiveAnswer(transcript, j, calls[q].call.id)
        ensures j in Planned(c, transcript, m => 0, false)
      {
        StaleReadIsCandidate(config, c, transcript, j, k, q);
      }
      var planned := Planned(c, transcript, m => 0, false);
      assert i in planned && !LeavesNewer(config, transcript, planned, k, p);
    }
  }

  lemma NewestFacts(config: PruneConfig, calls: seq<Placed>, k: string, p: nat)
    requires p < |calls| && ReadsKey(config, calls[p].call, k)
    ensures Newest(config, calls, k).Some?
    ensures var n := Newest(config, calls, k).value; p <= n < |calls| && ReadsKey(config, calls[n].call, k)
  {
    hide ReadPath, ReadsKey;
  }

  /** With unique ids, the result of any read of `k` but the newest is a candidate when nothing spares it. */
  lemma StaleReadIsCandidate(config: PruneConfig, c: PruneConfig, transcript: seq<ChatMessage>, j: nat, k: string,
      q: nat)
    requires c == PruneConfig(0, 0, 0, 0, {}, config.key)
    requires var calls := Calls(transcript);
             && UniqueIds(calls) && q < |calls| && ReadsKey(config, calls[q].call, k)
             && LiveAnswer(transcript, j, calls[q].call.id)
             && q != Newest(config, calls, k).value
    ensures IsCandidate(c, Calls(transcript), transcript[j], 0, false)
  {
    hide CallsBefore, Tokens, ReadPath;
    var calls := Calls(transcript);
    NewestFacts(config, calls, k, q);
    SameNewest(config, c, calls, k);
    FirstIsUnique(calls, q);
  }

  lemma FirstIsUnique(calls: seq<Placed>, q: nat)
    requires UniqueIds(calls) && q < |calls| && calls[q].call.id.Some?
    ensures First(calls, calls[q].call.id.value) == Some(q)
  {}

  // ----- The order of a plan -----

  /** The plan runs from the oldest message to the newest, so it runs from the newest to the oldest exactly when there
      is at most one candidate, or they free too little together. */
  lemma NewestFirstIff(config: PruneConfig, transcript: seq<ChatMessage>, suffixAfter: nat -> nat, warm: bool)
    ensures var all := Candidates(config, transcript, suffixAfter, warm, |transcript|);
            var r := Planned(config, transcript, suffixAfter, warm);
            (forall j, k :: 0 <= j < k < |r| ==> r[j] > r[k]) <==>
            || (forall i, j :: 0 <= i < j < |transcript| ==>
                  !IsCandidate(config, Calls(transcript), transcript[i], suffixAfter(i), warm) ||
                  !IsCandidate(config, Calls(transcript), transcript[j], suffixAfter(j), warm))
            || TotalFreed(transcript, all) < config.minimumSavings
  {
    hide Planned, IsCandidate, CallsBefore, Candidates, TotalFreed;
    CandidatesAre(config, transcript, suffixAfter, warm, |transcript|);
    PlannedGate(config, transcript, suffixAfter, warm);
    var all := Candidates(config, transcript, suffixAfter, warm, |transcript|);
    if |all| > 1 {
      assert all[0] < all[1] && all[0] in all && all[1] in all;
    }
  }

  /** Three reads of one path, of which the first two are answered: a plan of two actions, the older one first. */
  lemma OldestFirst(config: PruneConfig, body: string)
    requires body != SUPERSEDED_PLACEHOLDER
    requires config.protectTokens == config.minPruneTokens == config.minimumSavings == 0
    requires config.protectedPaths == {} && forall p :: config.key(p) == p
    ensures Planned(config, ReadThrice(body), i => 0, false) == [1, 2]
  {
    hide *;
    var t := ReadThrice(body);
    assert |t| == 3 by { ThriceLength(body); }
    ThriceCandidates(config, body);
    CandidatesNone(config, t, i => 0, false);
    CandidatesNext(config, t, i => 0, false, 0);
    CandidatesNext(config, t, i => 0, false, 1);
    CandidatesNext(config, t, i => 0, false, 2);
    assert [1] + [2] == [1, 2];
    NoGate(config, t, i => 0, false);
  }

  lemma ThriceLength(body: string)
    ensures |ReadThrice(body)| == 3
  {}

  function ReadThrice(body: string): seq<ChatMessage> {
    [ ChatMessage("m0", Assistant, "", [Read("1", "a"), Read("2", "a"), Read("3", "a")], None),
      ChatMessage("m1", Tool, body, [], Some("1")),
      ChatMessage("m2", Tool, body, [], Some("2")) ]
  }

  lemma ThriceCalls(body: string)
    ensures Calls(ReadThrice(body)) == [Placed(Read("1", "a"), 0), Placed(Read("2", "a"), 0), Placed(Read("3", "a"), 0)]
  {
    hide Read;
    var t := ReadThrice(body);
    assert CallsBefore(t, 0) == [];
    assert CallsBefore(t, 1) == PlacedAt(t[0].toolCalls, 0);
    assert CallsBefore(t, 2) == CallsBefore(t, 1);
    assert CallsBefore(t, 3) == CallsBefore(t, 2);
  }

  lemma ThriceNewest(config: PruneConfig, calls: seq<Placed>)
    requires calls == [Placed(Read("1", "a"), 0), Placed(Read("2", "a"), 0), Placed(Read("3", "a"), 0)]
    requires forall p :: config.key(p) == p
    ensures Newest(config, calls, "a") == Some(2) && First(calls, "1") == Some(0) && First(calls, "2") == Some(1)
  {
    hide ReadPath;
    ReadsPath("3", "a");
    assert ReadsKey(config, calls[2].call, "a");
  }

  lemma ThriceCandidates(config: PruneConfig, body: string)
    requires body != SUPERSEDED_PLACEHOLDER
    requires config.protectTokens == config.minPruneTokens == 0
    requires config.protectedPaths == {} && forall p :: config.key(p) == p
    ensures var t := ReadThrice(body);
            && !IsCandidate(config, Calls(t), t[0], 0, false)
            && IsCandidate(config, Calls(t), t[1], 0, false) && IsCandidate(config, Calls(t), t[2], 0, false)
  {
    hide Tokens, ReadPath, CallsBefore, Newest, First;
    ThriceCalls(body);
    ThriceNewest(config, Calls(ReadThrice(body)));
    ReadsPath("1", "a");
    ReadsPath("2", "a");
  }

  // ----- Carrying out a plan -----

  /** What the last action that reaches message `i` puts there; an id reaches the last message that has it. */
  function BlankFor(ids: seq<string>, plan: seq<Action>, i: nat): Option<string> {
    if plan == [] then None else
    var last := plan[|plan| - 1];
    if LastWith(ids, last.messageId) == Some(i) then Some(last.placeholder)
    else BlankFor(ids, plan[..|plan| - 1], i)
  }

  function Blanked(m: ChatMessage, body: Option<string>): ChatMessage {
    if body.Some? then m.(content := body.value) else m
  }

  function Applied(transcript: seq<ChatMessage>, plan: seq<Action>): (r: seq<ChatMessage>)
    ensures |r| == |transcript|
  {
    seq(|transcript|, i requires 0 <= i < |transcript| => Blanked(transcript[i], BlankFor(Ids(transcript), plan, i)))
  }

  method ApplyPrune(turns: array<ChatMessage>, plan: seq<Action>)
    modifies turns
    ensures turns[..] == Applied(old(turns[..]), plan)
  {
    ghost var was := turns[..];
    var ids := Ids(turns[..]);
    var index := IndexIds(ids);
    for k := 0 to |plan|
      invariant forall i :: 0 <= i < turns.Length ==> turns[i] == Blanked(was[i], BlankFor(ids, plan[..k], i))
    {
      var action := plan[k];
      assert plan[..k + 1][..k] == plan[..k];
      if action.messageId !in index {
        continue;
      }
      var i := index[action.messageId];
      turns[i] := turns[i].(content := action.placeholder);
    }
    assert plan[..|plan|] == plan;
  }

  lemma {:induction false} BlankForPlan(transcript: seq<ChatMessage>, indices: seq<nat>, i: nat)
    requires Within(indices, |transcript|)
    ensures var ids := Ids(transcript);
            BlankFor(ids, Actions(transcript, indices), i) ==
            if exists j :: j in indices && LastWith(ids, transcript[j].id) == Some(i) then Some(SUPERSEDED_PLACEHOLDER)
            else None
  {
    hide LastWith;
    if indices != [] {
      var n := |indices| - 1;
      assert Actions(transcript, indices)[..n] == Actions(transcript, indices[..n]);
      assert indices == indices[..n] + [indices[n]];
      BlankForPlan(transcript, indices[..n], i);
    }
  }

  /** With unique message ids the planned messages, and no others, get the placeholder, and keep all the rest. */
  lemma AppliedIs(transcript: seq<ChatMessage>, planned: seq<nat>, i: nat)
    requires DistinctIds(Ids(transcript)) && Within(planned, |transcript|) && i < |transcript|
    ensures Applied(transcript, Actions(transcript, planned))[i] ==
            if i in planned then transcript[i].(content := "[Superseded by a newer read of this file]")
            else transcript[i]
  {
    hide LastWith, DistinctIds, BlankFor, SUPERSEDED_PLACEHOLDER;
    var ids := Ids(transcript);
    BlankForPlan(transcript, planned, i);
    PlaceholderIs();
    forall j | j in planned
      ensures LastWith(ids, transcript[j].id) == Some(j)
    {
      LastIsOnly(ids, j);
    }
  }

  lemma PlaceholderIs()
    ensures SUPERSEDED_PLACEHOLDER == "[Superseded by a newer read of this file]"
  {}

  lemma {:induction false} SameCalls(transcript: seq<ChatMessage>, plan: seq<Action>, n: nat)
    requires n <= |transcript|
    ensures CallsBefore(Applied(transcript, plan), n) == CallsBefore(transcript, n)
  {
    hide PlacedAt, BlankFor;
    if n > 0 {
      SameCalls(transcript, plan, n - 1);
    }
  }

  lemma {:induction false} NoneLeft(config: PruneConfig, transcript: seq<ChatMessage>, suffixAfter: nat -> nat,
      warm: bool, n: nat)
    requires n <= |transcript|
    requires forall i :: 0 <= i < n ==> !IsCandidate(config, Calls(transcript), transcript[i], suffixAfter(i), warm)
    ensures Candidates(config, transcript, suffixAfter, warm, n) == []
  {
    hide IsCandidate;
    if n > 0 {
      NoneLeft(config, transcript, suffixAfter, warm, n - 1);
    }
  }

  /** Every planned message is the last one with its id, so that the plan reaches it. */
  ghost predicate AllReached(transcript: seq<ChatMessage>, planned: seq<nat>)
    requires Within(planned, |transcript|)
  {
    forall i :: i in planned ==> LastWith(Ids(transcript), transcript[i].id) == Some(i)
  }

  /** Planning again after a plan has been carried out finds nothing to do when the plan reached its messages, as it
      does when message ids are unique; and, with no gate on the savings, only then. */
  lemma PruneTwice(config: PruneConfig, transcript: seq<ChatMessage>, suffixAfter: nat -> nat, warm: bool)
    ensures var chosen := Planned(config, transcript, suffixAfter, warm);
            var again := Planned(config, Applied(transcript, Actions(transcript, chosen)), suffixAfter, warm);
            && (DistinctIds(Ids(transcript)) ==> AllReached(transcript, chosen))
            && (AllReached(transcript, chosen) ==> again == [])
            && (config.minimumSavings == 0 ==> (again == [] <==> AllReached(transcript, chosen)))
  {
    hide *;
    var chosen := Planned(config, transcript, suffixAfter, warm);
    PlannedGate(config, transcript, suffixAfter, warm);
    var plan := Actions(transcript, chosen);
    var after := Applied(transcript, plan);
    AppliedLength(transcript, plan);
    PlannedGate(config, after, suffixAfter, warm);
    SameCalls(transcript, plan, |transcript|);
    assert Calls(after) == Calls(transcript) by { CallsAre(after); CallsAre(transcript); }
    if DistinctIds(Ids(transcript)) {
      DistinctReached(transcript, chosen);
    }
    if AllReached(transcript, chosen) {
      if chosen == [] {
        AppliedNothing(transcript);
      } else {
        forall i | 0 <= i < |after|
          ensures !IsCandidate(config, Calls(after), after[i], suffixAfter(i), warm)
        {
          BlankedOrUnfit(config, transcript, suffixAfter, warm, i);
        }
        NoneLeft(config, after, suffixAfter, warm, |after|);
      }
    } else if config.minimumSavings == 0 {
      var i := Unreached(transcript, chosen);
      PlannedAre(config, transcript, suffixAfter, warm);
      StaysAsIs(transcript, chosen, i);
      CandidatesAre(config, after, suffixAfter, warm, |after|);
      assert i in Planned(config, after, suffixAfter, warm);
    }
  }

  lemma DistinctReached(transcript: seq<ChatMessage>, planned: seq<nat>)
    requires DistinctIds(Ids(transcript)) && Within(planned, |transcript|)
    ensures AllReached(transcript, planned)
  {
    hide LastWith, DistinctIds;
    forall i | i in planned
      ensures LastWith(Ids(transcript), transcript[i].id) == Some(i)
    {
      LastIsOnly(Ids(transcript), i);
    }
  }

  lemma Unreached(transcript: seq<ChatMessage>, planned: seq<nat>) returns (i: nat)
    requires Within(planned, |transcript|) && !AllReached(transcript, planned)
    ensures i in planned && i < |transcript| && LastWith(Ids(transcript), transcript[i].id) != Some(i)
  {
    hide LastWith;
    i :| i in planned && LastWith(Ids(transcript), transcript[i].id) != Some(i);
  }

  /** A message that is not the last with its id is out of reach. */
  lemma StaysAsIs(transcript: seq<ChatMessage>, planned: seq<nat>, i: nat)
    requires Within(planned, |transcript|) && i < |transcript|
    requires LastWith(Ids(transcript), transcript[i].id) != Some(i)
    ensures Applied(transcript, Actions(transcript, planned))[i] == transcript[i]
  {
    BlankForPlan(transcript, planned, i);
    forall j | j in planned
      ensures LastWith(Ids(transcript), transcript[j].id) != Some(i)
    {
      LastHasId(Ids(transcript), transcript[j].id);
    }
  }

  lemma LastHasId(ids: seq<string>, id: string)
    ensures LastWith(ids, id).Some? ==> LastWith(ids, id).value < |ids| && ids[LastWith(ids, id).value] == id
  {}

  lemma AppliedLength(transcript: seq<ChatMessage>, plan: seq<Action>)
    ensures |Applied(transcript, plan)| == |transcript|
  {}

  lemma CallsAre(transcript: seq<ChatMessage>)
    ensures Calls(transcript) == CallsBefore(transcript, |transcript|)
  {}

  lemma AppliedNothing(transcript: seq<ChatMessage>)
    ensures Applied(transcript, Actions(transcript, [])) == transcript
  {}

  lemma BlankedOrUnfit(config: PruneConfig, transcript: seq<ChatMessage>, suffixAfter: nat -> nat, warm: bool, i: nat)
    requires i < |transcript|
    requires Planned(config, transcript, suffixAfter, warm) != []
    requires AllReached(transcript, Planned(config, transcript, suffixAfter, warm))
    ensures var plan := Actions(transcript, Planned(config, transcript, suffixAfter, warm));
            var after := Applied(transcript, plan);
            !IsCandidate(config, Calls(transcript), after[i], suffixAfter(i), warm)
  {
    hide Superseded, Answered, ReadPath, Tokens, CallsBefore, BlankFor, LastWith;
    CandidatesAre(config, transcript, suffixAfter, warm, |transcript|);
    BlankForPlan(transcript, Planned(config, transcript, suffixAfter, warm), i);
  }

  // ----- Stricter settings -----

  ghost predicate Stricter(a: PruneConfig, warmA: bool, b: PruneConfig, warmB: bool) {
    && a.protectTokens >= b.protectTokens
    && a.minimumSavings >= b.minimumSavings
    && a.minPruneTokens >= b.minPruneTokens
    && a.cacheWarmSuffixTokens <= b.cacheWarmSuffixTokens
    && a.protectedPaths >= b.protectedPaths
    && a.key == b.key
    && (warmB ==> warmA)
  }

  lemma {:induction false} SameNewest(a: PruneConfig, b: PruneConfig, calls: seq<Placed>, k: string)
    requires a.key == b.key
    ensures Newest(a, calls, k) == Newest(b, calls, k)
  {
    hide ReadPath;
    if calls != [] {
      SameNewest(a, b, calls[..|calls| - 1], k);
    }
  }

  lemma StricterCandidate(a: PruneConfig, warmA: bool, b: PruneConfig, warmB: bool, calls: seq<Placed>, m: ChatMessage,
      suffix: nat)
    requires Stricter(a, warmA, b, warmB) && IsCandidate(a, calls, m, suffix, warmA)
    ensures IsCandidate(b, calls, m, suffix, warmB)
  {
    hide Newest, Tokens;
    var call := Answered(calls, m).value;
    SameNewest(a, b, calls, a.key(ReadPath(call).value));
  }

  lemma WithinAll(config: PruneConfig, transcript: seq<ChatMessage>, suffixAfter: nat -> nat, warm: bool, n: nat)
    requires n <= |transcript|
    ensures Within(Candidates(config, transcript, suffixAfter, warm, n), |transcript|)
  {
    hide IsCandidate, CallsBefore;
  }

  lemma CandidatesNone(config: PruneConfig, transcript: seq<ChatMessage>, suffixAfter: nat -> nat, warm: bool)
    ensures Candidates(config, transcript, suffixAfter, warm, 0) == []
  {
    hide IsCandidate, CallsBefore;
  }

  lemma FreedPush(transcript: seq<ChatMessage>, indices: seq<nat>, i: nat)
    requires Within(indices, |transcript|) && i < |transcript|
    ensures Within(indices + [i], |transcript|)
    ensures TotalFreed(transcript, indices + [i]) == TotalFreed(transcript, indices) + Freed(transcript[i])
  {
    hide Freed;
    assert (indices + [i])[..|indices|] == indices;
  }

  lemma {:induction false} StricterFreesLess(a: PruneConfig, warmA: bool, b: PruneConfig, warmB: bool,
      transcript: seq<ChatMessage>, suffixAfter: nat -> nat, n: nat)
    requires Stricter(a, warmA, b, warmB) && n <= |transcript|
    ensures TotalFreed(transcript, Candidates(a, transcript, suffixAfter, warmA, n)) <=
            TotalFreed(transcript, Candidates(b, transcript, suffixAfter, warmB, n))
  {
    hide *;
    WithinAll(a, transcript, suffixAfter, warmA, n);
    WithinAll(b, transcript, suffixAfter, warmB, n);
    if n > 0 {
      var i := n - 1;
      StricterFreesLess(a, warmA, b, warmB, transcript, suffixAfter, i);
      WithinAll(a, transcript, suffixAfter, warmA, i);
      WithinAll(b, transcript, suffixAfter, warmB, i);
      CandidatesNext(a, transcript, suffixAfter, warmA, i);
      CandidatesNext(b, transcript, suffixAfter, warmB, i);
      var x, y := Candidates(a, transcript, suffixAfter, warmA, i), Candidates(b, transcript, suffixAfter, warmB, i);
      FreedPush(transcript, x, i);
      FreedPush(transcript, y, i);
      assert x + [] == x && y + [] == y;
      if IsCandidate(a, Calls(transcript), transcript[i], suffixAfter(i), warmA) {
        StricterCandidate(a, warmA, b, warmB, Calls(transcript), transcript[i], suffixAfter(i));
      }
    } else {
      CandidatesNone(a, transcript, suffixAfter, warmA);
      CandidatesNone(b, transcript, suffixAfter, warmB);
    }
  }

  lemma PlannedGate(config: PruneConfig, transcript: seq<ChatMessage>, suffixAfter: nat -> nat, warm: bool)
    ensures var all := Candidates(config, transcript, suffixAfter, warm, |transcript|);
            && Within(all, |transcript|)
            && Planned(config, transcript, suffixAfter, warm) ==
               if TotalFreed(transcript, all) < config.minimumSavings then [] else all
  {
    hide Candidates;
    WithinAll(config, transcript, suffixAfter, warm, |transcript|);
  }

  lemma StricterGate(a: PruneConfig, warmA: bool, b: PruneConfig, warmB: bool)
    requires Stricter(a, warmA, b, warmB)
    ensures a.minimumSavings >= b.minimumSavings
  {}

  /** Raising a threshold, protecting more paths or going from cold to warm only drops actions. */
  lemma StricterPlansLess(a: PruneConfig, warmA: bool, b: PruneConfig, warmB: bool,
      transcript: seq<ChatMessage>, suffixAfter: nat -> nat)
    requires Stricter(a, warmA, b, warmB)
    ensures forall i :: i in Planned(a, transcript, suffixAfter, warmA) ==>
            i in Planned(b, transcript, suffixAfter, warmB)
  {
    hide *;
    PlannedGate(a, transcript, suffixAfter, warmA);
    PlannedGate(b, transcript, suffixAfter, warmB);
    StricterGate(a, warmA, b, warmB);
    StricterFreesLess(a, warmA, b, warmB, transcript, suffixAfter, |transcript|);
    CandidatesAre(a, transcript, suffixAfter, warmA, |transcript|);
    CandidatesAre(b, transcript, suffixAfter, warmB, |transcript|);
    forall i: nat | i < |transcript| && IsCandidate(a, Calls(transcript), transcript[i], suffixAfter(i), warmA)
      ensures IsCandidate(b, Calls(transcript), transcript[i], suffixAfter(i), warmB)
    {
      StricterCandidate(a, warmA, b, warmB, Calls(transcript), transcript[i], suffixAfter(i));
    }
  }

  // ----- Why the ids must be unique -----

  function Read(id: string, path: string): ToolCall {
    ToolCall(Some(id), "read_file", Json.Object([Json.Field("path", Json.String(path))]))
  }

  /** Three reads, the first and the last under one id, then the answer to the last. */
  function Reused(body: string): seq<ChatMessage> {
    [ ChatMessage("m0", Assistant, "", [Read("1", "a"), Read("2", "a"), Read("1", "b")], None),
      ChatMessage("m1", Tool, body, [], Some("1")) ]
  }

  lemma ReadsPath(id: string, path: string)
    ensures ReadPath(Read(id, path)) == Some(path)
  {}

  lemma ReusedCalls(body: string)
    ensures Calls(Reused(body)) == [Placed(Read("1", "a"), 0), Placed(Read("2", "a"), 0), Placed(Read("1", "b"), 0)]
  {
    hide Read;
    var t := Reused(body);
    assert CallsBefore(t, 0) == [];
    assert CallsBefore(t, 1) == PlacedAt(t[0].toolCalls, 0);
    assert CallsBefore(t, 2) == CallsBefore(t, 1);
  }

  lemma ReusedNewest(config: PruneConfig, calls: seq<Placed>)
    requires calls == [Placed(Read("1", "a"), 0), Placed(Read("2", "a"), 0), Placed(Read("1", "b"), 0)]
    requires forall p :: config.key(p) == p
    ensures Newest(config, calls, "a") == Some(1) && Newest(config, calls, "b") == Some(2) &&
            First(calls, "1") == Some(0)
  {
    hide ReadPath;
    ReadsPath("1", "a");
    ReadsPath("2", "a");
    ReadsPath("1", "b");
    assert !ReadsKey(config, calls[2].call, "a") && ReadsKey(config, calls[1].call, "a");
    assert ReadsKey(config, calls[2].call, "b");
  }

  lemma ReusedIsCandidate(config: PruneConfig, body: string)
    requires body != SUPERSEDED_PLACEHOLDER
    requires config.protectTokens == config.minPruneTokens == 0
    requires config.protectedPaths == {} && forall p :: config.key(p) == p
    ensures IsCandidate(config, Calls(Reused(body)), Reused(body)[1], 0, false)
  {
    hide Tokens, ReadPath, CallsBefore, Newest, First;
    ReusedCalls(body);
    ReusedNewest(config, Calls(Reused(body)));
    ReadsPath("1", "a");
    ReadsPath("2", "a");
  }

  /** A reused id makes the pass blank the newest, and only, read of `b`: it looks at the first call with the id. */
  lemma ReusedIdLosesNewest(config: PruneConfig, body: string)
    requires body != SUPERSEDED_PLACEHOLDER
    requires config.protectTokens == config.minPruneTokens == config.minimumSavings == 0
    requires config.protectedPaths == {} && forall p :: config.key(p) == p
    ensures var t := Reused(body);
            && Newest(config, Calls(t), "b").Some?
            && Calls(t)[Newest(config, Calls(t), "b").value].call.id == t[1].toolCallId
            && 1 in Planned(config, t, i => 0, false)
  {
    hide IsCandidate, Newest, CallsBefore, Candidates;
    ReusedIsCandidate(config, body);
    ReusedCalls(body);
    ReusedNewest(config, Calls(Reused(body)));
    CandidatesAre(config, Reused(body), i => 0, false, 2);
  }

  // ----- The rules, written out -----

  /** A read: a call of `read_file` whose arguments are an object with a string under `path`. */
  lemma ReadPathIs(call: ToolCall, path: string)
    ensures ReadPath(call) == Some(path) <==>
            && call.toolName == "read_file" && call.arguments.Object?
            && Json.HasKey(call.arguments.fields, "path")
            && Json.Get(call.arguments.fields, "path") == Json.String(path)
  {
    hide Json.HasKey, Json.Get;
  }

  /** The calls of a transcript are those of its assistant messages, in order of the messages. */
  lemma {:induction false} CallsAreThose(transcript: seq<ChatMessage>, n: nat)
    requires n <= |transcript|
    ensures forall p :: p in CallsBefore(transcript, n) <==>
              p.index < n && transcript[p.index].role == Assistant && p.call in transcript[p.index].toolCalls
  {
    hide PlacedAt;
    if n > 0 {
      CallsAreThose(transcript, n - 1);
      PlacedAre(transcript[n - 1].toolCalls, n - 1);
    }
  }

  ghost predicate InOrder(calls: seq<Placed>) {
    forall i, j :: 0 <= i < j < |calls| ==> calls[i].index <= calls[j].index
  }

  lemma {:induction false} CallsInOrder(transcript: seq<ChatMessage>, n: nat)
    requires n <= |transcript|
    ensures InOrder(CallsBefore(transcript, n))
  {
    hide PlacedAt;
    if n > 0 {
      CallsInOrder(transcript, n - 1);
      CallsAreThose(transcript, n - 1);
      var last := transcript[n - 1].toolCalls;
      PlacedAre(last, n - 1);
      OrderAppend(CallsBefore(transcript, n - 1), PlacedAt(last, n - 1), n - 1);
      assert CallsBefore(transcript, n - 1) + [] == CallsBefore(transcript, n - 1);
    }
  }

  lemma OrderAppend(a: seq<Placed>, b: seq<Placed>, n: nat)
    requires InOrder(a) && (forall p :: p in a ==> p.index <= n) && forall k :: 0 <= k < |b| ==> b[k].index == n
    ensures InOrder(a + b)
  {
    var c := a + b;
    forall i, j | 0 <= i < j < |c|
      ensures c[i].index <= c[j].index
    {
      if i < |a| {
        assert c[i] == a[i] && a[i] in a;
      }
      if j < |a| {
        assert c[j] == a[j];
      }
    }
  }

  lemma PlacedAre(calls: seq<ToolCall>, index: nat)
    ensures forall p :: p in PlacedAt(calls, index) <==> p.index == index && p.call in calls
    ensures forall k :: 0 <= k < |PlacedAt(calls, index)| ==> PlacedAt(calls, index)[k] == Placed(calls[k], index)
  {
    forall c | c in calls
      ensures Placed(c, index) in PlacedAt(calls, index)
    {
      var k :| 0 <= k < |calls| && calls[k] == c;
      assert PlacedAt(calls, index)[k] == Placed(c, index);
    }
  }

  /** What makes a message a candidate, at four bytes a token: a tool result with its text, of a read of a path that is
      not protected, last read under another id, heavy enough, and neither in the protected window nor, when warm, in
      the cached one. */
  lemma CandidateIs(config: PruneConfig, calls: seq<Placed>, m: ChatMessage, suffix: nat, warm: bool,
      call: ToolCall, path: string)
    requires Answered(calls, m) == Some(call) && ReadPath(call) == Some(path)
    ensures var n := Newest(config, calls, config.key(path));
            IsCandidate(config, calls, m, suffix, warm) <==>
            && m.role == Tool && m.content != "[Superseded by a newer read of this file]"
            && config.key(path) !in config.protectedPaths
            && n.Some? && call.id.Some? && calls[n.value].call.id != call.id
            && |Utf8.Encode(m.content)| >= 4 * config.minPruneTokens
            && config.protectTokens <= suffix
            && (warm ==> suffix <= config.cacheWarmSuffixTokens)
  {
    hide ReadPath, Answered, Newest, Utf8.Encode;
  }

  lemma OnlyReadsAre(config: PruneConfig, calls: seq<Placed>, m: ChatMessage, suffix: nat, warm: bool)
    requires Answered(calls, m).None? || ReadPath(Answered(calls, m).value).None?
    ensures !IsCandidate(config, calls, m, suffix, warm)
  {
    hide ReadPath, Answered, Newest, Tokens, SUPERSEDED_PLACEHOLDER;
  }

  /** The placeholder is counted as ten tokens. */
  lemma FreedIs(m: ChatMessage)
    ensures Freed(m) == if |Utf8.Encode(m.content)| / 4 >= 10 then |Utf8.Encode(m.content)| / 4 - 10 else 0
  {
    hide Utf8.Encode;
    AsciiSize(SUPERSEDED_PLACEHOLDER);
    assert |SUPERSEDED_PLACEHOLDER| == 41;
  }

  lemma {:induction false} AsciiSize(s: string)
    requires forall i :: 0 <= i < |s| ==> s[i] < '\U{80}'
    ensures |Utf8.Encode(s)| == |s|
  {
    if s != [] {
      AsciiSize(s[1..]);
      assert s[0] as nat < 0x80 && |Utf8.EncodeChar(s[0])| == 1;
      assert Utf8.Encode(s) == Utf8.EncodeChar(s[0]) + Utf8.Encode(s[1..]);
    }
  }

  /** When a plan is empty: there is no candidate, or together they free too little. */
  lemma GateIs(config: PruneConfig, transcript: seq<ChatMessage>, suffixAfter: nat -> nat, warm: bool)
    ensures var all := Candidates(config, transcript, suffixAfter, warm, |transcript|);
            && (Planned(config, transcript, suffixAfter, warm) == [] <==>
                all == [] || TotalFreed(transcript, all) < config.minimumSavings)
            && (Planned(config, transcript, suffixAfter, warm) != [] ==>
                Planned(config, transcript, suffixAfter, warm) == all)
  {
    hide Candidates, TotalFreed;
    PlannedGate(config, transcript, suffixAfter, warm);
  }
}
