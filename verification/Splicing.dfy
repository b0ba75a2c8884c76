/** Splicing: a list of byte ranges and placeholders, what replacing them one by one does to a text, and the loop
    that carries such a list out on the messages of a transcript. */
module Splicing {
  import opened Bytes
  import opened Option
  import opened Chat
  import opened Fences
  import Utf8

  /** `range` counts bytes of the message body. */
  datatype ShakeAction = ShakeAction(messageId: string, range: Range, kind: Kind, placeholder: string)

  function Size(s: string): nat { |Utf8.Encode(s)| }

  function Length(r: Range): nat {
    if r.end >= r.start then r.end - r.start else 0
  }

  // ----- Splicing -----

  /** The bytes of the range give way to the placeholder. */
  function Splice(text: seq<u8>, a: ShakeAction): seq<u8> {
    if a.range.start <= a.range.end <= |text| then
      text[..a.range.start] + Utf8.Encode(a.placeholder) + text[a.range.end..]
    else text
  }

  /** The replacements one after the other, each in what the ones before it left. */
  function Spliced(text: seq<u8>, actions: seq<ShakeAction>): seq<u8>
    decreases |actions|
  {
    if actions == [] then text else Spliced(Splice(text, actions[0]), actions[1..])
  }

  /** The action whose range ends at `n`. */
  function Ending(actions: seq<ShakeAction>, n: nat): (r: Option<ShakeAction>)
    ensures r.Some? ==> r.value in actions && r.value.range.start < r.value.range.end == n
    ensures r.None? ==> forall a :: a in actions ==> !(a.range.start < a.range.end == n)
  {
    if actions == [] then None
    else if actions[0].range.start < actions[0].range.end == n then Some(actions[0])
    else Ending(actions[1..], n)
  }

  /** All ranges replaced at once, in the original text: every byte up to `n` stands for itself unless a range
      covers it, and every range for its placeholder. */
  function Replaced(text: seq<u8>, actions: seq<ShakeAction>, n: nat): seq<u8>
    requires n <= |text|
  {
    if n == 0 then [] else
    var a := Ending(actions, n);
    if a.Some? then Replaced(text, actions, a.value.range.start) + Utf8.Encode(a.value.placeholder)
    else Replaced(text, actions, n - 1) + [text[n - 1]]
  }

  ghost predicate Apart(actions: seq<ShakeAction>, size: nat) {
    && (forall k :: 0 <= k < |actions| ==> actions[k].range.start < actions[k].range.end <= size)
    && (forall j, k :: 0 <= j < k < |actions| ==>
          actions[j].range.end <= actions[k].range.start || actions[k].range.end <= actions[j].range.start)
  }

  /** Every range lies before the ranges listed before it. */
  ghost predicate Descending(actions: seq<ShakeAction>, size: nat) {
    && (forall k :: 0 <= k < |actions| ==> actions[k].range.start < actions[k].range.end <= size)
    && (forall j, k :: 0 <= j < k < |actions| ==> actions[k].range.end <= actions[j].range.start)
  }

  lemma DescendingRest(actions: seq<ShakeAction>, size: nat)
    requires Descending(actions, size) && actions != []
    ensures actions[0].range.start < actions[0].range.end <= size && Descending(actions[1..], actions[0].range.start)
  {}

  lemma SpliceAt(front: seq<u8>, back: seq<u8>, a: ShakeAction)
    requires a.range.start <= a.range.end <= |front|
    ensures Splice(front + back, a) ==
            front[..a.range.start] + (Utf8.Encode(a.placeholder) + front[a.range.end..] + back)
  {
    assert (front + back)[..a.range.start] == front[..a.range.start];
    assert (front + back)[a.range.end..] == front[a.range.end..] + back;
  }

  /** Edits before `n` leave the bytes from `n` on alone. */
  lemma {:induction false} SplicedFront(front: seq<u8>, back: seq<u8>, actions: seq<ShakeAction>)
    requires Descending(actions, |front|)
    ensures Spliced(front + back, actions) == Spliced(front, actions) + back
    decreases |actions|
  {
    hide Descending, Splice, Utf8.Encode;
    if actions != [] {
      var a := actions[0];
      DescendingRest(actions, |front|);
      var kept, mid := front[..a.range.start], Utf8.Encode(a.placeholder) + front[a.range.end..];
      SpliceAt(front, back, a);
      SpliceAt(front, [], a);
      assert front + [] == front && mid + [] == mid;
      SplicedFront(kept, mid, actions[1..]);
      SplicedFront(kept, mid + back, actions[1..]);
      assert Spliced(kept, actions[1..]) + mid + back == Spliced(kept, actions[1..]) + (mid + back);
    }
  }

  lemma ReplacedNext(text: seq<u8>, actions: seq<ShakeAction>, n: nat)
    requires 0 < n <= |text| && forall a :: a in actions ==> !(a.range.start < a.range.end == n)
    ensures Replaced(text, actions, n) == Replaced(text, actions, n - 1) + [text[n - 1]]
  {}

  /** Where no range ends or lies, the text stands for itself. */
  lemma {:induction false} ReplacedPlain(text: seq<u8>, actions: seq<ShakeAction>, m: nat, n: nat)
    requires m <= n <= |text| && forall a :: a in actions ==> !(a.range.start < a.range.end && m < a.range.end <= n)
    ensures Replaced(text, actions, n) == Replaced(text, actions, m) + text[m..n]
  {
    hide Replaced;
    if m < n {
      ReplacedPlain(text, actions, m, n - 1);
      ReplacedNext(text, actions, n);
      assert text[m..n] == text[m..n - 1] + [text[n - 1]];
    }
  }

  /** The list holds exactly the ranges of `all` that end by `n`. */
  ghost predicate Upto(actions: seq<ShakeAction>, all: seq<ShakeAction>, n: nat) {
    forall a :: a in actions <==> a in all && a.range.start < a.range.end <= n
  }

  ghost predicate NoOverlap(all: seq<ShakeAction>) {
    forall a, b :: a in all && b in all && a != b ==> a.range.end <= b.range.start || b.range.end <= a.range.start
  }

  /** From the last range to the first, edits in turn do what replacing all ranges at once does. */
  lemma {:induction false} SplicedIsReplaced(text: seq<u8>, actions: seq<ShakeAction>, all: seq<ShakeAction>, n: nat)
    requires n <= |text| && Descending(actions, n) && Upto(actions, all, n) && NoOverlap(all)
    ensures Spliced(text[..n], actions) == Replaced(text, all, n)
    decreases |actions|
  {
    hide Descending, Upto, NoOverlap, Splice, Replaced, Utf8.Encode;
    if actions == [] {
      NothingUpto(all, n);
      ReplacedPlain(text, all, 0, n);
      ReplacedNone(text, all);
    } else {
      var a := actions[0];
      var m, e := a.range.start, a.range.end;
      DescendingRest(actions, n);
      RestUpto(actions, all, n);
      SplicedIsReplaced(text, actions[1..], all, m);
      ReplacedPlain(text, all, e, n);
      LastEnds(actions, all, n);
      ReplacedAt(text, all, a);
      var tail := Utf8.Encode(a.placeholder) + text[e..n];
      SpliceAt(text[..n], [], a);
      assert text[..n][..m] == text[..m] && text[..n][e..] == text[e..n] && text[..n] + [] == text[..n];
      assert tail + [] == tail;
      SplicedFront(text[..m], tail, actions[1..]);
      assert Replaced(text, all, m) + Utf8.Encode(a.placeholder) + text[e..n] == Replaced(text, all, m) + tail;
    }
  }

  lemma ReplacedNone(text: seq<u8>, all: seq<ShakeAction>)
    ensures Replaced(text, all, 0) == []
    ensures forall n :: 0 <= n <= |text| ==> [] + text[0..n] == text[..n]
  {}

  lemma ReplacedAt(text: seq<u8>, all: seq<ShakeAction>, a: ShakeAction)
    requires a.range.start < a.range.end <= |text| && Ending(all, a.range.end) == Some(a)
    ensures Replaced(text, all, a.range.end) == Replaced(text, all, a.range.start) + Utf8.Encode(a.placeholder)
  {
    hide Ending;
  }

  lemma NothingUpto(all: seq<ShakeAction>, n: nat)
    requires Upto([], all, n)
    ensures forall a :: a in all ==> !(a.range.start < a.range.end && 0 < a.range.end <= n)
  {}

  lemma LastEnds(actions: seq<ShakeAction>, all: seq<ShakeAction>, n: nat)
    requires actions != [] && Upto(actions, all, n) && NoOverlap(all)
    ensures Ending(all, actions[0].range.end) == Some(actions[0])
  {
    assert actions[0] in actions;
  }

  lemma InRest(actions: seq<ShakeAction>, a: ShakeAction, size: nat)
    requires actions != [] && Descending(actions, size) && a in actions
    ensures a == actions[0] || (a in actions[1..] && a.range.end <= actions[0].range.start)
  {
    assert actions == [actions[0]] + actions[1..];
  }

  lemma RestUpto(actions: seq<ShakeAction>, all: seq<ShakeAction>, n: nat)
    requires actions != [] && Descending(actions, n) && Upto(actions, all, n)
    ensures Upto(actions[1..], all, actions[0].range.start)
    ensures forall a :: a in all ==> !(a.range.start < a.range.end && actions[0].range.end < a.range.end <= n)
  {
    hide Descending;
    var first := actions[0];
    DescendingRest(actions, n);
    forall a | a in actions[1..]
      ensures a in actions && a.range.end <= first.range.start
    {
      BelowFirst(actions, a, n);
    }
    forall a | a in all && a.range.start < a.range.end <= n
      ensures a == first || (a in actions[1..] && a.range.end <= first.range.start)
    {
      InRest(actions, a, n);
    }
  }

  lemma BelowFirst(actions: seq<ShakeAction>, a: ShakeAction, size: nat)
    requires actions != [] && Descending(actions, size) && a in actions[1..]
    ensures a in actions && a.range.end <= actions[0].range.start
  {
    var k :| 0 <= k < |actions| - 1 && actions[1..][k] == a;
    assert actions[k + 1] == a;
  }

  /** What a list of edits adds to the length. */
  function Growth(actions: seq<ShakeAction>): int {
    if actions == [] then 0
    else Size(actions[0].placeholder) - Length(actions[0].range) + Growth(actions[1..])
  }

  lemma {:induction false} SplicedLength(text: seq<u8>, actions: seq<ShakeAction>)
    requires Descending(actions, |text|)
    ensures |Spliced(text, actions)| == |text| + Growth(actions)
    decreases |actions|
  {
    hide Descending, Splice, Utf8.Encode, Spliced;
    SplicedUnfold(text, actions);
    if actions != [] {
      var a := actions[0];
      DescendingRest(actions, |text|);
      var kept, tail := text[..a.range.start], Utf8.Encode(a.placeholder) + text[a.range.end..];
      SpliceAt(text, [], a);
      assert text + [] == text && tail + [] == tail;
      SplicedFront(kept, tail, actions[1..]);
      SplicedLength(kept, actions[1..]);
    }
  }

  lemma SplicedUnfold(text: seq<u8>, actions: seq<ShakeAction>)
    ensures Spliced(text, actions) == if actions == [] then text else Spliced(Splice(text, actions[0]), actions[1..])
  {
    hide Splice;
  }

  // ----- The edits as they are carried out -----

  /** A byte that continues a character. */
  predicate IsContinuation(b: u8) { 0x80 <= Val(b) < 0xC0 }

  predicate Boundary(text: seq<u8>, i: nat) {
    i == 0 || i == |text| || (i < |text| && !IsContinuation(text[i]))
  }

  /** The range cut off at the end of the text. */
  function Clamped(size: nat, a: ShakeAction): ShakeAction {
    a.(range := Range(if a.range.start <= size then a.range.start else size,
                      if a.range.end <= size then a.range.end else size))
  }

  /** An edit is carried out when something is left of its range and both ends are character boundaries. */
  predicate Takes(text: seq<u8>, a: ShakeAction) {
    var r := Clamped(|text|, a).range;
    r.start < r.end && Boundary(text, r.start) && Boundary(text, r.end)
  }

  function Edit(text: seq<u8>, a: ShakeAction): seq<u8> {
    if Takes(text, a) then Splice(text, Clamped(|text|, a)) else text
  }

  function Edited(text: seq<u8>, actions: seq<ShakeAction>): seq<u8>
    decreases |actions|
  {
    if actions == [] then text else Edited(Edit(text, actions[0]), actions[1..])
  }

  /** Every edit, when its turn comes, lies in the text as edited so far and on its character boundaries. */
  predicate NoneSkipped(text: seq<u8>, actions: seq<ShakeAction>)
    decreases |actions|
  {
    actions == [] ||
    (actions[0].range.end <= |text| && Takes(text, actions[0]) && NoneSkipped(Edit(text, actions[0]), actions[1..]))
  }

  lemma EncodeStarts(s: string)
    ensures s == [] ==> Utf8.Encode(s) == []
    ensures s != [] ==> Utf8.Encode(s) != [] && !IsContinuation(Utf8.Encode(s)[0])
  {
    if s != [] {
      CharStarts(s[0]);
    }
  }

  lemma CharStarts(c: char)
    ensures !IsContinuation(Utf8.EncodeChar(c)[0])
  {
    hide ByteOf, Val;
  }

  /** A continuation byte starts with the bits 10 (RFC 3629, section 3). */
  lemma ContinuationIs(b: u8)
    ensures IsContinuation(b) <==> b & 0xC0 == 0x80
  {}

  lemma BoundaryBetween(front: seq<u8>, back: seq<u8>)
    requires back == [] || !IsContinuation(back[0])
    ensures Boundary(front + back, |front|)
  {
    hide IsContinuation;
  }

  ghost predicate OnBoundaries(text: seq<u8>, actions: seq<ShakeAction>) {
    forall k :: 0 <= k < |actions| ==>
      Boundary(text, actions[k].range.start) && Boundary(text, actions[k].range.end)
  }

  /** The ranges before the first edit stay on boundaries when it is carried out. */
  lemma RestOnBoundaries(text: seq<u8>, actions: seq<ShakeAction>, size: nat)
    requires actions != [] && Descending(actions, size) && size <= |text| && OnBoundaries(text, actions)
    ensures var a := actions[0];
            OnBoundaries(text[..a.range.start] + (Utf8.Encode(a.placeholder) + text[a.range.end..]), actions[1..])
  {
    hide IsContinuation, Utf8.Encode;
    var a := actions[0];
    var kept, back := text[..a.range.start], Utf8.Encode(a.placeholder) + text[a.range.end..];
    EncodeStarts(a.placeholder);
    assert back == [] || !IsContinuation(back[0]);
    BoundaryBetween(kept, back);
    forall k | 0 <= k < |actions[1..]|
      ensures Boundary(kept + back, actions[1..][k].range.start) && Boundary(kept + back, actions[1..][k].range.end)
    {
      assert actions[1..][k] == actions[k + 1];
      SameBoundary(text, a.range.start, back, actions[k + 1].range.start);
      SameBoundary(text, a.range.start, back, actions[k + 1].range.end);
    }
  }

  lemma SameBoundary(text: seq<u8>, n: nat, back: seq<u8>, i: nat)
    requires i <= n <= |text| && Boundary(text, i) && Boundary(text[..n] + back, n)
    ensures Boundary(text[..n] + back, i)
  {
    hide IsContinuation;
  }

  /** On boundaries and from the last range to the first, no edit is cut off or skipped. */
  lemma {:induction false} EditedIsSpliced(front: seq<u8>, back: seq<u8>, actions: seq<ShakeAction>)
    requires Descending(actions, |front|) && OnBoundaries(front + back, actions)
    ensures Edited(front + back, actions) == Spliced(front + back, actions)
    ensures NoneSkipped(front + back, actions)
    decreases |actions|
  {
    hide Descending, Splice, Spliced, Boundary, Utf8.Encode;
    SplicedUnfold(front + back, actions);
    if actions != [] {
      var a := actions[0];
      var text := front + back;
      DescendingRest(actions, |front|);
      RestOnBoundaries(text, actions, |front|);
      SpliceAt(front, back, a);
      var kept, mid := front[..a.range.start], Utf8.Encode(a.placeholder) + front[a.range.end..] + back;
      assert text[..a.range.start] == kept && Utf8.Encode(a.placeholder) + text[a.range.end..] == mid;
      assert Edit(text, a) == Splice(text, a) == kept + mid;
      EditedIsSpliced(kept, mid, actions[1..]);
    }
  }

  // ----- The loop that carries out a plan -----

  /** The edits of a plan that reach message `i`: those whose id is last held by it. */
  function Reaching(ids: seq<string>, plan: seq<ShakeAction>, i: nat): seq<ShakeAction> {
    if plan == [] then [] else
    var last := plan[|plan| - 1];
    Reaching(ids, plan[..|plan| - 1], i) + if LastWith(ids, last.messageId) == Some(i) then [last] else []
  }

  lemma {:induction false} EditedPush(text: seq<u8>, actions: seq<ShakeAction>, a: ShakeAction)
    ensures Edited(text, actions + [a]) == Edit(Edited(text, actions), a)
    decreases |actions|
  {
    hide Edit;
    if actions == [] {
      assert [] + [a] == [a] && [a][1..] == [];
    } else {
      assert (actions + [a])[1..] == actions[1..] + [a];
      EditedPush(Edit(text, actions[0]), actions[1..], a);
    }
  }

  lemma ReachingPush(ids: seq<string>, plan: seq<ShakeAction>, a: ShakeAction, i: nat)
    ensures Reaching(ids, plan + [a], i) ==
            Reaching(ids, plan, i) + if LastWith(ids, a.messageId) == Some(i) then [a] else []
  {
    assert (plan + [a])[..|plan|] == plan;
  }

  /** The bodies of the messages with these ids, edited in place. */
  method ApplyShake(ids: seq<string>, bodies: array<seq<u8>>, plan: seq<ShakeAction>)
    requires bodies.Length == |ids|
    modifies bodies
    ensures forall i :: 0 <= i < bodies.Length ==> bodies[i] == Edited(old(bodies[i]), Reaching(ids, plan, i))
  {
    hide Edited, Reaching, Splice, Boundary;
    var index := IndexIds(ids);
    NothingReaches(ids, bodies[..]);
    for k := 0 to |plan|
      invariant forall i :: 0 <= i < bodies.Length ==>
                  bodies[i] == Edited(old(bodies[i]), Reaching(ids, plan[..k], i))
    {
      var action := plan[k];
      assert plan[..k + 1] == plan[..k] + [action];
      forall i | 0 <= i < bodies.Length
        ensures Edited(old(bodies[i]), Reaching(ids, plan[..k + 1], i)) ==
                if LastWith(ids, action.messageId) == Some(i) then Edit(bodies[i], action) else bodies[i]
      {
        ReachingPush(ids, plan[..k], action, i);
        EditedPush(old(bodies[i]), Reaching(ids, plan[..k], i), action);
        assert Reaching(ids, plan[..k], i) + [] == Reaching(ids, plan[..k], i);
      }
      if action.messageId !in index {
        continue;
      }
      var i := index[action.messageId];
      var content := bodies[i];
      var start := if action.range.start <= |content| then action.range.start else |content|;
      var end := if action.range.end <= |content| then action.range.end else |content|;
      if start >= end {
        continue;
      }
      if !Boundary(content, start) || !Boundary(content, end) {
        continue;
      }
      bodies[i] := Splice(content, action.(range := Range(start, end)));
    }
    assert plan[..|plan|] == plan;
  }

  lemma NothingReaches(ids: seq<string>, bodies: seq<seq<u8>>)
    ensures forall i: nat :: Reaching(ids, [], i) == []
    ensures forall i :: 0 <= i < |bodies| ==> Edited(bodies[i], []) == bodies[i]
  {}

  lemma EditedOne(text: seq<u8>, actions: seq<ShakeAction>)
    requires |actions| == 1
    ensures Edited(text, actions) == Edit(text, actions[0])
  {
    hide Edit;
    assert actions[1..] == [];
  }

  lemma WholeBody(text: seq<u8>, a: ShakeAction)
    requires a.range == Range(0, |text|)
    ensures Edit(text, a) == if text == [] then [] else Utf8.Encode(a.placeholder)
  {
    hide Utf8.Encode;
    assert text[..0] + Utf8.Encode(a.placeholder) + text[|text|..] == Utf8.Encode(a.placeholder);
  }

  lemma DescendingAlone(actions: seq<ShakeAction>, size: nat)
    requires Descending(actions, size)
    ensures Upto(actions, actions, size) && NoOverlap(actions)
  {}

  ghost predicate OneSideOrOther(actions: seq<ShakeAction>) {
    forall j, k :: 0 <= j < k < |actions| ==>
      actions[j].range.end <= actions[k].range.start || actions[k].range.end <= actions[j].range.start
  }

  // ----- Ranges that do overlap -----

  function Least(m: nat, n: nat): nat { if m <= n then m else n }

  lemma SpliceAcross(front: seq<u8>, back: seq<u8>, a: ShakeAction)
    requires a.range.start <= |front| <= a.range.end <= |front| + |back|
    ensures Splice(front + back, a) ==
            front[..a.range.start] + Utf8.Encode(a.placeholder) + back[a.range.end - |front|..]
  {
    hide Utf8.Encode;
    assert (front + back)[a.range.end..] == back[a.range.end - |front|..];
    assert (front + back)[..a.range.start] == front[..a.range.start];
  }

  lemma EditedTwo(text: seq<u8>, a: ShakeAction, b: ShakeAction)
    ensures Edited(text, [a, b]) == Edit(Edit(text, a), b)
  {
    hide Edit, Edited;
    EditedOne(text, [a]);
    EditedPush(text, [a], b);
    assert [a] + [b] == [a, b];
  }

  /** The first edit, on boundaries of the text, leaves the text before it and then its placeholder and the rest. */
  lemma FirstEdit(text: seq<u8>, a: ShakeAction)
    requires a.range.start < a.range.end <= |text|
    requires Boundary(text, a.range.start) && Boundary(text, a.range.end)
    ensures Edit(text, a) == text[..a.range.start] + (Utf8.Encode(a.placeholder) + text[a.range.end..])
  {
    hide Boundary, Utf8.Encode;
    SpliceAt(text, [], a);
    assert text + [] == text;
  }

  /** Two edits in plan order, the second reaching into the first: it is cut off at the end of what the first one
      left, skipped when it would cut a character there, and takes as many bytes off the first one's placeholder, and
      off what follows it, as it was to take off the first one's range. */
  lemma OverlapSplices(text: seq<u8>, later: ShakeAction, earlier: ShakeAction)
    requires earlier.range.start <= later.range.start <= earlier.range.end
    requires later.range.start < later.range.end <= |text|
    requires Boundary(text, later.range.start) && Boundary(text, later.range.end)
    ensures var ph := Utf8.Encode(later.placeholder) + text[later.range.end..];
            var between := text[..later.range.start] + ph;
            var cut := Least(earlier.range.end, |between|) - later.range.start;
            && 0 <= cut <= |ph|
            && Edited(text, [later, earlier]) ==
               if Takes(between, earlier) then
                 text[..earlier.range.start] + Utf8.Encode(earlier.placeholder) + ph[cut..]
               else between
  {
    hide Utf8.Encode, Splice, Edited, Boundary;
    var kept, ph := text[..later.range.start], Utf8.Encode(later.placeholder) + text[later.range.end..];
    FirstEdit(text, later);
    EditedTwo(text, later, earlier);
    var clamped := Clamped(|kept + ph|, earlier);
    if Takes(kept + ph, earlier) {
      SpliceAcross(kept, ph, clamped);
      assert kept[..earlier.range.start] == text[..earlier.range.start];
    }
  }

  lemma Cancel<T>(a: seq<T>, x: seq<T>, y: seq<T>, b: seq<T>)
    ensures a + x + b == a + y + b <==> x == y
  {
    if a + x + b == a + y + b {
      assert |x| == |y|;
      assert (a + x + b)[|a|..|a| + |x|] == x && (a + y + b)[|a|..|a| + |y|] == y;
    }
  }

  /** What the second edit is left to do: how much of the tail survives it. */
  lemma TailIff(text: seq<u8>, e: seq<u8>, from: nat, till: nat, outerTill: nat)
    requires from < till <= outerTill <= |text|
    ensures var ph := e + text[till..];
            var cut := Least(outerTill, from + |ph|) - from;
            && 0 <= cut <= |ph|
            && (ph[cut..] == text[outerTill..] <==>
                |e| == till - from || (outerTill == |text| && |e| <= till - from))
  {
    var ph := e + text[till..];
    var cut := Least(outerTill, from + |ph|) - from;
    assert |ph[cut..]| == |ph| - cut && |text[outerTill..]| == |text| - outerTill;
    if |e| == till - from {
      assert ph[cut..] == text[outerTill..];
    }
  }

  /** A range planned inside another one leaves the outer one cleanly replaced exactly when its placeholder has its
      length, or is no longer and the outer range ends the text; or, when the outer edit is skipped for cutting a
      character, when the outer placeholder happens to be what stands there. */
  lemma NestedIsCleanIff(text: seq<u8>, inner: ShakeAction, outer: ShakeAction)
    requires outer.range.start < inner.range.start < inner.range.end <= outer.range.end <= |text|
    requires Boundary(text, inner.range.start) && Boundary(text, inner.range.end)
    requires Boundary(text, outer.range.start) && Boundary(text, outer.range.end)
    ensures var e, size := Utf8.Encode(inner.placeholder), inner.range.end - inner.range.start;
            var between := text[..inner.range.start] + (e + text[inner.range.end..]);
            Edited(text, [inner, outer]) == Splice(text, outer) <==>
            || |e| == size
            || (outer.range.end == |text| && |e| <= size)
            || (!Boundary(between, Least(outer.range.end, |between|)) &&
                Utf8.Encode(outer.placeholder) ==
                text[outer.range.start..inner.range.start] + e + text[inner.range.end..outer.range.end])
  {
    hide Utf8.Encode, Splice, Edited, Edit, Boundary, Takes, Least;
    var e, o := Utf8.Encode(inner.placeholder), Utf8.Encode(outer.placeholder);
    var ph := e + text[inner.range.end..];
    var between := text[..inner.range.start] + ph;
    var till := Least(outer.range.end, |between|);
    var front, tail := text[..outer.range.start], text[outer.range.end..];
    OverlapSplices(text, inner, outer);
    NestedTakes(text, e, inner.range, outer);
    CleanOuter(text, outer);
    if Takes(between, outer) {
      TailIff(text, e, inner.range.start, inner.range.end, outer.range.end);
      CancelTail(front + o, ph[till - inner.range.start..], tail);
    } else {
      var x := text[outer.range.start..inner.range.start] + e + text[inner.range.end..outer.range.end];
      BetweenParts(text, e, inner.range, outer.range);
      Cancel(front, x, o, tail);
    }
  }

  lemma CleanOuter(text: seq<u8>, a: ShakeAction)
    requires a.range.start <= a.range.end <= |text|
    ensures Splice(text, a) == text[..a.range.start] + Utf8.Encode(a.placeholder) + text[a.range.end..]
  {}

  lemma CancelTail<T>(a: seq<T>, x: seq<T>, y: seq<T>)
    ensures a + x == a + y <==> x == y
  {
    Cancel(a, x, y, []);
    assert a + x + [] == a + x && a + y + [] == a + y;
  }

  lemma BetweenParts(text: seq<u8>, e: seq<u8>, inner: Range, outer: Range)
    requires outer.start < inner.start < inner.end <= outer.end <= |text|
    ensures text[..inner.start] + (e + text[inner.end..]) ==
            text[..outer.start] + (text[outer.start..inner.start] + e + text[inner.end..outer.end]) + text[outer.end..]
  {
    assert text[..inner.start] == text[..outer.start] + text[outer.start..inner.start];
    assert text[inner.end..] == text[inner.end..outer.end] + text[outer.end..];
  }

  /** The outer edit is skipped only for cutting a character at its end, and never when the lengths allow a clean
      cut. */
  lemma NestedTakes(text: seq<u8>, e: seq<u8>, inner: Range, outer: ShakeAction)
    requires outer.range.start < inner.start < inner.end <= outer.range.end <= |text|
    requires Boundary(text, outer.range.start) && Boundary(text, outer.range.end)
    ensures var between := text[..inner.start] + (e + text[inner.end..]);
            var till := Least(outer.range.end, |between|);
            && (Takes(between, outer) <==> Boundary(between, till))
            && (|e| == inner.end - inner.start ==> Takes(between, outer))
            && (outer.range.end == |text| && |e| <= inner.end - inner.start ==> Takes(between, outer))
  {
    hide IsContinuation;
    var between := text[..inner.start] + (e + text[inner.end..]);
    assert between[outer.range.start] == text[outer.range.start];
    if |e| == inner.end - inner.start && outer.range.end < |text| {
      assert between[outer.range.end] == text[outer.range.end];
    }
  }
}
