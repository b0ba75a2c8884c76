/** The digest memo, and a receiver that is sent only what the memo says has changed. */
module DeltaSync {
  import opened Option
  import opened Chat
  import opened Digest

  datatype SyncOutcome = Append | Compaction | InPlaceRewrite(stablePrefix: nat)

  function Digests<D>(digest: ChatMessage -> D, log: seq<ChatMessage>): (r: seq<D>)
    ensures |r| == |log|
    ensures forall i :: 0 <= i < |log| ==> r[i] == digest(log[i])
  {
    seq(|log|, i requires 0 <= i < |log| => digest(log[i]))
  }

  /** The length of the longest common prefix. */
  ghost predicate IsCommonPrefix<D>(a: seq<D>, b: seq<D>, n: nat) {
    && n <= |a| && n <= |b| && a[..n] == b[..n]
    && (n == |a| || n == |b| || a[n] != b[n])
  }

  /** What the outcome promises about the digests of the last log and of this one. */
  ghost predicate Reports<D>(memo: seq<D>, log: seq<D>, outcome: SyncOutcome) {
    match outcome
    case Compaction => |log| < |memo|
    case Append => memo <= log
    case InPlaceRewrite(n) => |memo| <= |log| && !(memo <= log) && IsCommonPrefix(memo, log, n)
  }

  /** There is exactly one outcome to report. */
  lemma OneOutcome<D(!new)>(memo: seq<D>, log: seq<D>, a: SyncOutcome, b: SyncOutcome)
    requires Reports(memo, log, a) && Reports(memo, log, b)
    ensures a == b
  {
    if a.InPlaceRewrite? && b.InPlaceRewrite? {
      SamePrefix(memo, log, a.stablePrefix);
      SamePrefix(memo, log, b.stablePrefix);
    }
  }

  lemma SamePrefix<D>(a: seq<D>, b: seq<D>, n: nat)
    requires n <= |a| && n <= |b| && a[..n] == b[..n]
    ensures forall i :: 0 <= i < n ==> a[i] == b[i]
  {
    forall i | 0 <= i < n
      ensures a[i] == b[i]
    {
      assert a[..n][i] == b[..n][i];
    }
  }

  class DigestMemo<D(==, !new)> {
    var entries: seq<(string, D)>
    const digest: ChatMessage -> D

    ghost function Recorded(): (r: seq<D>)
      reads this
      ensures |r| == |entries|
      ensures forall i :: 0 <= i < |entries| ==> r[i] == entries[i].1
    {
      seq(|entries|, i requires 0 <= i < |entries| reads this => entries[i].1)
    }

    constructor (digest: ChatMessage -> D)
      ensures entries == [] && this.digest == digest
    {
      entries := [];
      this.digest := digest;
    }

    method Clear()
      modifies this
      ensures entries == []
    {
      entries := [];
    }

    method Record(log: seq<ChatMessage>)
      modifies this
      ensures |entries| == |log| && forall i :: 0 <= i < |log| ==> entries[i] == (log[i].id, digest(log[i]))
      ensures Recorded() == Digests(digest, log)
    {
      entries := [];
      for i := 0 to |log|
        invariant |entries| == i && forall j :: 0 <= j < i ==> entries[j] == (log[j].id, digest(log[j]))
      {
        entries := entries + [(log[i].id, digest(log[i]))];
      }
    }
  }

  method SyncMessages<D(==, !new)>(log: seq<ChatMessage>, memo: DigestMemo<D>) returns (outcome: SyncOutcome)
    modifies memo
    ensures Reports(old(memo.Recorded()), Digests(memo.digest, log), outcome)
    ensures memo.Recorded() == Digests(memo.digest, log)
  {
    if |log| < |memo.entries| {
      memo.Record(log);
      return Compaction;
    }
    ghost var last := memo.Recorded();
    var stable := 0;
    var i := 0;
    while i < |log|
      invariant 0 <= i <= |log| && stable == i <= |last|
      invariant last[..i] == Digests(memo.digest, log)[..i]
      invariant memo.entries == old(memo.entries)
    {
      if i >= |memo.entries| {
        break;
      }
      if memo.entries[i].1 == memo.digest(log[i]) {
        stable := stable + 1;
      } else {
        break;
      }
      i := i + 1;
    }
    var memoLenBefore := |memo.entries|;
    memo.Record(log);
    if stable == memoLenBefore {
      return Append;
    } else {
      return InPlaceRewrite(stable);
    }
  }

  // ----- The protocol -----

  /** `held` is what the receiver has, `log` the last log the memo was told of. */
  datatype State<D> = State(memo: seq<D>, held: seq<ChatMessage>, log: seq<ChatMessage>)

  /** A sync; a full re-emit outside the protocol; or the memo forgotten. */
  datatype Event = Sync(log: seq<ChatMessage>) | Record(log: seq<ChatMessage>) | Clear

  /** How much of what it holds the receiver keeps. */
  function Kept<D>(memo: seq<D>, outcome: SyncOutcome): nat {
    match outcome
    case Append => |memo|
    case Compaction => 0
    case InPlaceRewrite(n) => n
  }

  ghost predicate Next<D(!new)>(digest: ChatMessage -> D, s: State<D>, e: Event, s': State<D>) {
    match e
    case Sync(log) =>
      exists outcome ::
        && Reports(s.memo, Digests(digest, log), outcome)
        && Kept(s.memo, outcome) <= |s.held| && Kept(s.memo, outcome) <= |log|
        && s' == State(Digests(digest, log), s.held[..Kept(s.memo, outcome)] + log[Kept(s.memo, outcome)..], log)
    case Record(log) => s' == State(Digests(digest, log), log, log)
    case Clear => s' == s.(memo := [])
  }

  ghost predicate IsRun<D(!new)>(digest: ChatMessage -> D, events: seq<Event>, states: seq<State<D>>) {
    && |states| == |events| + 1
    && states[0] == State([], [], [])
    && forall i :: 0 <= i < |events| ==> Next(digest, states[i], events[i], states[i + 1])
  }

  /** The receiver's copy has the digests of the sender's log, and the memo, unless cleared, those of the log too. */
  ghost predicate Invariant<D(!new)>(digest: ChatMessage -> D, s: State<D>) {
    Digests(digest, s.held) == Digests(digest, s.log) && (s.memo == [] || s.memo == Digests(digest, s.log))
  }

  lemma NextKeepsInvariant<D(!new)>(digest: ChatMessage -> D, s: State<D>, e: Event, s': State<D>)
    requires Invariant(digest, s) && Next(digest, s, e, s')
    ensures Invariant(digest, s')
  {
    if e.Sync? {
      var log := e.log;
      var outcome :|
        && Reports(s.memo, Digests(digest, log), outcome)
        && Kept(s.memo, outcome) <= |s.held| && Kept(s.memo, outcome) <= |log|
        && s' == State(Digests(digest, log), s.held[..Kept(s.memo, outcome)] + log[Kept(s.memo, outcome)..], log);
      var n := Kept(s.memo, outcome);
      assert |Digests(digest, s.held)| == |Digests(digest, s.log)|;
      forall i | 0 <= i < |log|
        ensures digest(s'.held[i]) == digest(log[i])
      {
        if i < n {
          assert digest(s.held[i]) == Digests(digest, s.held)[i] == s.memo[i];
          assert s.memo[i] == s.memo[..n][i] == Digests(digest, log)[..n][i];
        }
      }
    }
  }

  /** A sync never asks the receiver to keep more than it has. */
  lemma KeptIsHeld<D(!new)>(digest: ChatMessage -> D, s: State<D>, log: seq<ChatMessage>, outcome: SyncOutcome)
    requires Invariant(digest, s) && Reports(s.memo, Digests(digest, log), outcome)
    ensures Kept(s.memo, outcome) <= |s.held| && Kept(s.memo, outcome) <= |log|
  {
    assert |Digests(digest, s.held)| == |Digests(digest, s.log)|;
  }

  lemma {:induction false} CommonPrefix<D(!new)>(a: seq<D>, b: seq<D>) returns (n: nat)
    ensures IsCommonPrefix(a, b, n)
  {
    if a == [] || b == [] || a[0] != b[0] {
      n := 0;
    } else {
      n := CommonPrefix(a[1..], b[1..]);
      assert a[..n + 1] == [a[0]] + a[1..][..n] && b[..n + 1] == [b[0]] + b[1..][..n];
      n := n + 1;
    }
  }

  /** A shorter log is sent in full; of any other the receiver keeps exactly the longest prefix the memo has. */
  lemma SyncKeeps<D(!new)>(digest: ChatMessage -> D, s: State<D>, log: seq<ChatMessage>, n: nat, s': State<D>)
    requires Invariant(digest, s) && Next(digest, s, Sync(log), s')
    requires IsCommonPrefix(s.memo, Digests(digest, log), n)
    ensures n <= |s.held| && n <= |log|
    ensures s'.held == if |log| < |s.memo| then log else s.held[..n] + log[n..]
  {
    var now := Digests(digest, log);
    var outcome :| && Reports(s.memo, now, outcome)
                   && Kept(s.memo, outcome) <= |s.held| && Kept(s.memo, outcome) <= |log|
                   && s' == State(now, s.held[..Kept(s.memo, outcome)] + log[Kept(s.memo, outcome)..], log);
    KeptIsHeld(digest, s, log, outcome);
    assert |Digests(digest, s.held)| == |Digests(digest, s.log)|;
    SamePrefix(s.memo, now, n);
    if outcome.InPlaceRewrite? {
      SamePrefix(s.memo, now, outcome.stablePrefix);
    } else if outcome.Append? {
      assert n == |s.memo|;
    }
  }

  /** Every log can be synced to, and there is one state it leads to. */
  lemma SyncIsPossible<D(!new)>(digest: ChatMessage -> D, s: State<D>, log: seq<ChatMessage>) returns (next: State<D>)
    requires Invariant(digest, s)
    ensures forall s' :: Next(digest, s, Sync(log), s') <==> s' == next
  {
    var now := Digests(digest, log);
    var n := CommonPrefix(s.memo, now);
    var outcome := if |log| < |s.memo| then Compaction else if s.memo <= now then Append else InPlaceRewrite(n);
    assert Reports(s.memo, now, outcome);
    KeptIsHeld(digest, s, log, outcome);
    next := State(now, s.held[..Kept(s.memo, outcome)] + log[Kept(s.memo, outcome)..], log);
    assert Next(digest, s, Sync(log), next);
    forall s' | Next(digest, s, Sync(log), s')
      ensures s' == next
    {
      var other :| && Reports(s.memo, now, other)
                   && Kept(s.memo, other) <= |s.held| && Kept(s.memo, other) <= |log|
                   && s' == State(now, s.held[..Kept(s.memo, other)] + log[Kept(s.memo, other)..], log);
      OneOutcome(s.memo, now, outcome, other);
    }
  }

  lemma {:induction false} RunKeepsInvariant<D(!new)>(digest: ChatMessage -> D, events: seq<Event>,
      states: seq<State<D>>, i: nat)
    requires IsRun(digest, events, states) && i < |states|
    ensures Invariant(digest, states[i])
  {
    if i > 0 {
      RunKeepsInvariant(digest, events, states, i - 1);
      NextKeepsInvariant(digest, states[i - 1], events[i - 1], states[i]);
    }
  }

  /** Equal digests mean equal wire content, for all messages that ever occur. */
  ghost predicate Faithful<D(!new)>(digest: ChatMessage -> D, domain: iset<ChatMessage>) {
    forall a, b :: a in domain && b in domain && digest(a) == digest(b) ==> WireEqual(a, b)
  }

  ghost predicate Within<D>(s: State<D>, domain: iset<ChatMessage>) {
    (forall m :: m in s.held ==> m in domain) && (forall m :: m in s.log ==> m in domain)
  }

  /** At every point of every run the receiver holds the sender's last log, up to what the wire shows. */
  lemma ReceiverInStep<D(!new)>(digest: ChatMessage -> D, domain: iset<ChatMessage>, events: seq<Event>,
      states: seq<State<D>>, i: nat)
    requires IsRun(digest, events, states) && i < |states|
    requires Faithful(digest, domain) && Within(states[i], domain)
    ensures |states[i].held| == |states[i].log|
    ensures forall j :: 0 <= j < |states[i].log| ==> WireEqual(states[i].held[j], states[i].log[j])
  {
    hide WireEqual;
    var s := states[i];
    RunKeepsInvariant(digest, events, states, i);
    assert |Digests(digest, s.held)| == |Digests(digest, s.log)|;
    forall j | 0 <= j < |s.log|
      ensures WireEqual(s.held[j], s.log[j])
    {
      assert Digests(digest, s.held)[j] == Digests(digest, s.log)[j];
      assert s.held[j] in s.held && s.log[j] in s.log;
    }
  }

  /** The stream itself is a faithful digest of encodable messages: what the hash is asked to stand for. */
  lemma StreamIsFaithful()
    ensures Faithful(Stream, iset m | Encodable(m))
  {
    hide Stream, Encodable, WireEqual;
    forall a, b | Encodable(a) && Encodable(b) && Stream(a) == Stream(b)
      ensures WireEqual(a, b)
    {
      StreamEqualIff(a, b);
    }
  }
}
