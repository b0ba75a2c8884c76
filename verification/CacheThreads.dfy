/** Threads sharing one parse cache.  A probe and an insertion each hold the lock; the parse between them does
    not, so any number of other steps may come in between. */
module CacheThreads {
  import opened Bytes
  import opened Option
  import opened Recency

  /** Where a thread stands inside a call of `parse`. */
  datatype Pc<+Tree> =
    | Idle
    | Missed(lang: Lang, source: seq<u8>)
    | Parsed(lang: Lang, source: seq<u8>, tree: Tree)

  datatype Answer<+Tree> = Answer(lang: Lang, source: seq<u8>, result: Option<Tree>)

  /** `uses` logs the keys hit or inserted since the cache was last empty, `answers` what the calls returned. */
  datatype State<+Tree> = State(
    items: seq<Item<Tree>>,
    threads: map<nat, Pc<Tree>>,
    uses: seq<Key>,
    answers: seq<Answer<Tree>>)

  /** A parse may also give up, as it does at its deadline. */
  datatype Step =
    | Probe(thread: nat, lang: Lang, source: seq<u8>)
    | Parse(thread: nat, givesUp: bool)
    | Insert(thread: nat)
    | Clear

  /** The parser and the hash the threads share; nothing is asked of either. */
  datatype World<!Tree> = World(parse: (Lang, seq<u8>) -> Option<Tree>, hash: seq<u8> -> nat) {
    function KeyOf(lang: Lang, source: seq<u8>): Key {
      Key(hash(source), lang, source)
    }
  }

  function PcOf<Tree>(s: State<Tree>, t: nat): Pc<Tree> {
    if t in s.threads then s.threads[t] else Idle
  }

  predicate Enabled<Tree>(s: State<Tree>, step: Step) {
    match step
    case Probe(t, _, _) => PcOf(s, t).Idle?
    case Parse(t, _) => PcOf(s, t).Missed?
    case Insert(t) => PcOf(s, t).Parsed?
    case Clear => true
  }

  function Next<Tree>(w: World<Tree>, s: State<Tree>, step: Step): State<Tree>
    requires Enabled(s, step)
  {
    match step
    case Probe(t, lang, source) =>
      var k := w.KeyOf(lang, source);
      var found := Find(s.items, k);
      if found.Some? then
        s.(items := Probed(s.items, k), uses := s.uses + [k], answers := s.answers + [Answer(lang, source, found)])
      else
        s.(threads := s.threads[t := Missed(lang, source)])
    case Parse(t, givesUp) =>
      var pc := PcOf(s, t);
      var tree := if givesUp then None else w.parse(pc.lang, pc.source);
      if tree.None? then
        s.(threads := s.threads[t := Idle], answers := s.answers + [Answer(pc.lang, pc.source, None)])
      else
        s.(threads := s.threads[t := Parsed(pc.lang, pc.source, tree.value)])
    case Insert(t) =>
      var pc := PcOf(s, t);
      var k := w.KeyOf(pc.lang, pc.source);
      s.(items := Inserted(s.items, k, pc.tree),
         threads := s.threads[t := Idle],
         uses := if |pc.source| <= MAX_TOTAL_SOURCE_BYTES then s.uses + [k] else s.uses,
         answers := s.answers + [Answer(pc.lang, pc.source, Some(pc.tree))])
    case Clear =>
      s.(items := [], uses := [])
  }

  /** The state after the steps that are enabled when their turn comes. */
  function Run<Tree>(w: World<Tree>, s: State<Tree>, steps: seq<Step>): State<Tree>
    decreases |steps|
  {
    if steps == [] then s
    else Run(w, if Enabled(s, steps[0]) then Next(w, s, steps[0]) else s, steps[1..])
  }

  function Start<Tree>(): State<Tree> {
    State([], map[], [], [])
  }

  // ----- The order of last use -----

  /** The distinct keys of a log, in the order of their last use. */
  function ByLastUse(uses: seq<Key>): seq<Key> {
    if uses == [] then [] else Touch(ByLastUse(uses[..|uses| - 1]), uses[|uses| - 1])
  }

  function LastUse(uses: seq<Key>, k: Key): (i: nat)
    requires k in uses
    ensures i < |uses| && uses[i] == k && forall j :: i < j < |uses| ==> uses[j] != k
  {
    if uses[|uses| - 1] == k then |uses| - 1 else LastUse(uses[..|uses| - 1], k)
  }

  /** `ByLastUse` has every key of the log once, and a key used later stands later. */
  lemma {:induction false} ByLastUseOrder(uses: seq<Key>)
    ensures Distinct(ByLastUse(uses))
    ensures forall k :: k in ByLastUse(uses) <==> k in uses
    ensures forall i, j :: 0 <= i < j < |ByLastUse(uses)| ==>
              LastUse(uses, ByLastUse(uses)[i]) < LastUse(uses, ByLastUse(uses)[j])
    decreases |uses|
  {
    if uses != [] {
      var before, k := uses[..|uses| - 1], uses[|uses| - 1];
      var order, rest := ByLastUse(before), Without(ByLastUse(before), k);
      ByLastUseOrder(before);
      TouchDistinct(order, k);
      WithoutMembers(order, k);
      assert uses == before + [k];
      assert forall x :: x in rest ==> x in before && x != k;
      forall i, j | 0 <= i < j < |ByLastUse(uses)|
        ensures LastUse(uses, ByLastUse(uses)[i]) < LastUse(uses, ByLastUse(uses)[j])
      {
        assert rest[i] in rest;
        if j < |rest| {
          assert rest[j] in rest;
          WithoutOrder(order, k, i, j);
        }
      }
    }
  }

  lemma {:induction false} WithoutMembers(keys: seq<Key>, k: Key)
    requires Distinct(keys)
    ensures forall x :: x in Without(keys, k) <==> x in keys && x != k
  {
    if keys != [] {
      assert forall i :: 0 <= i < |keys[1..]| ==> keys[1..][i] == keys[i + 1];
      WithoutMembers(keys[1..], k);
    }
  }

  /** `Without` keeps the order. */
  lemma {:induction false} WithoutOrder(keys: seq<Key>, k: Key, i: nat, j: nat)
    requires i < j < |Without(keys, k)|
    ensures exists i', j' :: 0 <= i' < j' < |keys| && keys[i'] == Without(keys, k)[i] && keys[j'] == Without(keys, k)[j]
  {
    if keys[0] == k {
      assert keys[i + 1] == Without(keys, k)[i] && keys[j + 1] == Without(keys, k)[j];
    } else if i == 0 {
      WithoutSize(keys[1..], k);
      assert Without(keys, k)[j] in keys[1..];
      var j' :| 0 <= j' < |keys[1..]| && keys[1..][j'] == Without(keys, k)[j];
      assert keys[0] == Without(keys, k)[i] && keys[j' + 1] == Without(keys, k)[j];
    } else {
      WithoutOrder(keys[1..], k, i - 1, j - 1);
      var i', j' :| 0 <= i' < j' < |keys[1..]| && keys[1..][i'] == Without(keys[1..], k)[i - 1] &&
        keys[1..][j'] == Without(keys[1..], k)[j - 1];
      assert keys[i' + 1] == Without(keys, k)[i] && keys[j' + 1] == Without(keys, k)[j];
    }
  }

  // ----- Every run -----

  ghost predicate Invariant<Tree(!new)>(w: World<Tree>, s: State<Tree>) {
    && Tracks(s.items, ByLastUse(s.uses))
    && TreesCorrect(s.items, w.parse)
    && (forall t :: t in s.threads && s.threads[t].Parsed? ==>
          w.parse(s.threads[t].lang, s.threads[t].source) == Some(s.threads[t].tree))
    && (forall a :: a in s.answers && a.result.Some? ==> a.result == w.parse(a.lang, a.source))
  }

  lemma UsesPush(uses: seq<Key>, k: Key)
    ensures ByLastUse(uses + [k]) == Touch(ByLastUse(uses), k)
  {
    assert (uses + [k])[..|uses|] == uses;
  }

  lemma NextKeepsInvariant<Tree(!new)>(w: World<Tree>, s: State<Tree>, step: Step)
    requires Invariant(w, s) && Enabled(s, step)
    ensures Invariant(w, Next(w, s, step))
  {
    hide Tracks, Find, Probed, Inserted, ByLastUse;
    match step
    case Probe(t, lang, source) =>
      var k := w.KeyOf(lang, source);
      ProbeTracks(s.items, ByLastUse(s.uses), k, w.parse);
      UsesPush(s.uses, k);
    case Parse(t, givesUp) =>
    case Insert(t) =>
      var pc := PcOf(s, t);
      var k := w.KeyOf(pc.lang, pc.source);
      InsertTracks(s.items, ByLastUse(s.uses), k, pc.tree, w.parse);
      UsesPush(s.uses, k);
    case Clear =>
      EmptyTracks<Tree>();
  }

  lemma EmptyTracks<Tree(!new)>()
    ensures Tracks<Tree>([], ByLastUse([]))
  {
    NothingFits();
  }

  lemma {:induction false} RunKeepsInvariant<Tree(!new)>(w: World<Tree>, s: State<Tree>, steps: seq<Step>)
    requires Invariant(w, s)
    ensures Invariant(w, Run(w, s, steps))
    decreases |steps|
  {
    hide Invariant, Next;
    if steps != [] {
      if Enabled(s, steps[0]) {
        NextKeepsInvariant(w, s, steps[0]);
      }
      RunKeepsInvariant(w, if Enabled(s, steps[0]) then Next(w, s, steps[0]) else s, steps[1..]);
    }
  }

  /** Whatever the interleaving and whatever the hash collisions: the cache holds exactly the most recently used
      keys that fit both caps, and no call ever answers with a tree that is not the parse of its own source. */
  lemma EveryRun<Tree(!new)>(w: World<Tree>, steps: seq<Step>)
    ensures var s := Run(w, Start(), steps);
            && Keys(s.items) == LongestFit(ByLastUse(s.uses))
            && (exists n: nat :: FirstFit(ByLastUse(s.uses), n) && Keys(s.items) == ByLastUse(s.uses)[n..])
            && (forall n: nat :: FirstFit(ByLastUse(s.uses), n) ==> Keys(s.items) == ByLastUse(s.uses)[n..])
            && Distinct(Keys(s.items)) && Fits(Keys(s.items))
            && (forall x :: x in s.items ==> w.parse(x.key.lang, x.key.source) == Some(x.tree))
            && (forall a :: a in s.answers && a.result.Some? ==> a.result == w.parse(a.lang, a.source))
  {
    hide Run, LongestFit, Fits, FirstFit;
    EmptyTracks<Tree>();
    RunKeepsInvariant(w, Start(), steps);
    var s := Run(w, Start(), steps);
    SuffixDistinct(ByLastUse(s.uses));
    LongestFitIsLongest(ByLastUse(s.uses));
    forall n: nat | FirstFit(ByLastUse(s.uses), n)
      ensures n <= |ByLastUse(s.uses)| && LongestFit(ByLastUse(s.uses)) == ByLastUse(s.uses)[n..]
    {
      FirstFitIsLongestFit(ByLastUse(s.uses), n);
      FitInRange(ByLastUse(s.uses), n);
    }
    LongestFitFits(ByLastUse(s.uses));
  }

  lemma {:induction false} SuffixDistinct(keys: seq<Key>)
    requires Distinct(keys)
    ensures Distinct(LongestFit(keys))
  {
    hide Fits;
    if !Fits(keys) {
      NothingFits();
      SuffixDistinct(keys[1..]);
    }
  }

  // ----- Runs in which no parse gives up -----

  ghost predicate AllAnswered<Tree(!new)>(w: World<Tree>, s: State<Tree>) {
    forall a :: a in s.answers ==> a.result == w.parse(a.lang, a.source)
  }

  predicate Patient(step: Step) { step.Parse? ==> !step.givesUp }

  lemma NextAnswers<Tree(!new)>(w: World<Tree>, s: State<Tree>, step: Step)
    requires Invariant(w, s) && AllAnswered(w, s) && Enabled(s, step) && Patient(step)
    ensures AllAnswered(w, Next(w, s, step))
  {
    hide Touch, LongestFit, ByLastUse, Evict, Tracks;
    if step.Probe? {
      KeysOfDrop(s.items, w.KeyOf(step.lang, step.source));
    }
  }

  lemma {:induction false} RunAnswers<Tree(!new)>(w: World<Tree>, s: State<Tree>, steps: seq<Step>)
    requires Invariant(w, s) && AllAnswered(w, s) && forall step :: step in steps ==> Patient(step)
    ensures AllAnswered(w, Run(w, s, steps))
    decreases |steps|
  {
    hide Invariant, Next, AllAnswered, Patient;
    if steps != [] {
      assert steps[0] in steps;
      if Enabled(s, steps[0]) {
        NextKeepsInvariant(w, s, steps[0]);
        NextAnswers(w, s, steps[0]);
      }
      RunAnswers(w, if Enabled(s, steps[0]) then Next(w, s, steps[0]) else s, steps[1..]);
    }
  }

  /** When no parse gives up, every call of every thread answers what an uncached parse answers, failures included. */
  lemma EveryAnswer<Tree(!new)>(w: World<Tree>, steps: seq<Step>)
    requires forall step :: step in steps && step.Parse? ==> !step.givesUp
    ensures forall a :: a in Run(w, Start(), steps).answers ==> a.result == w.parse(a.lang, a.source)
  {
    hide Run, Fits;
    EmptyTracks<Tree>();
    RunAnswers(w, Start(), steps);
  }

  // ----- Every call is answered -----

  /** Clearing is always possible and leaves nothing but the threads and the answers. */
  lemma ClearEmpties<Tree>(w: World<Tree>, s: State<Tree>)
    ensures Run(w, s, [Clear]) == State([], s.threads, [], s.answers)
  {
    RunOne(w, s, Clear);
  }

  lemma {:induction false} RunAppend<Tree>(w: World<Tree>, s: State<Tree>, a: seq<Step>, b: seq<Step>)
    ensures Run(w, s, a + b) == Run(w, Run(w, s, a), b)
    decreases |a|
  {
    hide Next, Enabled;
    if a == [] {
      assert a + b == b;
    } else {
      assert (a + b)[1..] == a[1..] + b;
      RunAppend(w, if Enabled(s, a[0]) then Next(w, s, a[0]) else s, a[1..], b);
    }
  }

  /** What other threads do leaves a thread where it stands, and no answer is ever taken back. */
  lemma {:induction false} OthersRun<Tree>(w: World<Tree>, s: State<Tree>, steps: seq<Step>, t: nat)
    requires forall step :: step in steps ==> step.Clear? || step.thread != t
    ensures PcOf(Run(w, s, steps), t) == PcOf(s, t)
    ensures s.answers <= Run(w, s, steps).answers
    decreases |steps|
  {
    hide Find, Probed, Inserted;
    if steps != [] {
      assert steps[0] in steps;
      var next := if Enabled(s, steps[0]) then Next(w, s, steps[0]) else s;
      assert PcOf(next, t) == PcOf(s, t) && s.answers <= next.answers;
      OthersRun(w, next, steps[1..], t);
    }
  }

  lemma RunOne<Tree>(w: World<Tree>, s: State<Tree>, step: Step)
    ensures Run(w, s, [step]) == if Enabled(s, step) then Next(w, s, step) else s
  {
    hide Next, Enabled;
    var next := if Enabled(s, step) then Next(w, s, step) else s;
    assert Run(w, next, []) == next;
  }

  /** A call of an idle thread ends after its three steps with the uncached parse of its source as its answer, whatever
      other threads do between them. */
  lemma CallIsAnswered<Tree(!new)>(w: World<Tree>, s: State<Tree>, t: nat, lang: Lang, source: seq<u8>,
      first: seq<Step>, second: seq<Step>)
    requires Invariant(w, s) && PcOf(s, t) == Idle
    requires forall step :: step in first + second ==> step.Clear? || step.thread != t
    ensures var end := Run(w, s, [Probe(t, lang, source)] + first + [Parse(t, false)] + second + [Insert(t)]);
            && PcOf(end, t) == Idle
            && s.answers <= end.answers
            && Answer(lang, source, w.parse(lang, source)) in end.answers[|s.answers|..]
  {
    hide Run, Next, Enabled, Invariant;
    var answer := Answer(lang, source, w.parse(lang, source));
    var probe, parse, insert := Probe(t, lang, source), Parse(t, false), Insert(t);
    var s1 := Run(w, s, [probe]);
    var s2 := Run(w, s1, first);
    var s3 := Run(w, s2, [parse]);
    var s4 := Run(w, s3, second);
    RunAppend(w, s, [probe] + first + [parse] + second, [insert]);
    RunAppend(w, s, [probe] + first + [parse], second);
    RunAppend(w, s, [probe] + first, [parse]);
    RunAppend(w, s, [probe], first);
    assert forall step :: step in first ==> step in first + second;
    assert forall step :: step in second ==> step in first + second;
    RunOne(w, s, probe);
    RunOne(w, s2, parse);
    RunOne(w, s4, insert);
    OthersRun(w, s1, first, t);
    OthersRun(w, s3, second, t);
    ProbeStep(w, s, t, lang, source);
    RestOfCall(w, s2, t, lang, source);
    RestOfCall(w, s4, t, lang, source);
    var s5 := Run(w, s4, [insert]);
    if s1.answers == s.answers + [answer] {
      assert s1.answers[|s.answers|] == answer;
      assert s5.answers[|s.answers|] == answer;
    } else if s3.answers == s2.answers + [answer] {
      assert s3.answers[|s2.answers|] == answer;
      assert s5.answers[|s2.answers|] == answer;
    } else {
      assert s5.answers[|s4.answers|] == answer;
    }
  }

  /** A hit answers at once; after a miss the thread has to parse. */
  lemma ProbeStep<Tree(!new)>(w: World<Tree>, s: State<Tree>, t: nat, lang: Lang, source: seq<u8>)
    requires Invariant(w, s) && PcOf(s, t) == Idle
    ensures var step := Probe(t, lang, source);
            && Enabled(s, step)
            && var next := Next(w, s, step);
            || (PcOf(next, t) == Idle && next.answers == s.answers + [Answer(lang, source, w.parse(lang, source))])
            || (PcOf(next, t) == Missed(lang, source) && next.answers == s.answers)
  {
    hide Tracks, Probed;
    if Find(s.items, w.KeyOf(lang, source)).Some? {
      KeysOfDrop(s.items, w.KeyOf(lang, source));
    }
  }

  /** After a miss the parse is made and, when there is a tree, inserted; each is answered; a thread that has its answer
      takes neither step. */
  lemma RestOfCall<Tree>(w: World<Tree>, s: State<Tree>, t: nat, lang: Lang, source: seq<u8>)
    ensures PcOf(s, t) == Idle ==> !Enabled(s, Parse(t, false)) && !Enabled(s, Insert(t))
    ensures PcOf(s, t) == Missed(lang, source) ==>
              && Enabled(s, Parse(t, false))
              && !Enabled(s, Insert(t))
              && var next := Next(w, s, Parse(t, false));
              if w.parse(lang, source).Some?
              then PcOf(next, t) == Parsed(lang, source, w.parse(lang, source).value) && next.answers == s.answers
              else PcOf(next, t) == Idle && next.answers == s.answers + [Answer(lang, source, None)]
    ensures PcOf(s, t).Parsed? && PcOf(s, t).lang == lang && PcOf(s, t).source == source ==>
              && Enabled(s, Insert(t))
              && !Enabled(s, Parse(t, false))
              && var next := Next(w, s, Insert(t));
              && PcOf(next, t) == Idle
              && next.answers == s.answers + [Answer(lang, source, Some(PcOf(s, t).tree))]
  {
    hide Inserted;
  }
}
