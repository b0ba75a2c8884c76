/** The recency specification of the parse cache: a list of keys, least recently used first. */
module Recency {
  import opened Bytes
  import opened Option
  import opened Sequences

  datatype Lang = Rust | Python | JavaScript | TypeScript | Tsx | Go | Ruby | Java | C

  /** What a hit compares: the hash, the language, and the retained bytes themselves. */
  datatype Key = Key(hash: nat, lang: Lang, source: seq<u8>)
  datatype Item<+Tree> = Item(key: Key, tree: Tree)

  const MAX_ENTRIES := 12
  const MAX_TOTAL_SOURCE_BYTES := 4 * 1024 * 1024

  function Total(keys: seq<Key>): nat {
    if keys == [] then 0 else |keys[0].source| + Total(keys[1..])
  }

  predicate Fits(keys: seq<Key>) {
    |keys| <= MAX_ENTRIES && Total(keys) <= MAX_TOTAL_SOURCE_BYTES
  }

  ghost predicate Distinct(keys: seq<Key>) {
    forall i, j :: 0 <= i < j < |keys| ==> keys[i] != keys[j]
  }

  function Keys<Tree>(items: seq<Item<Tree>>): (keys: seq<Key>)
    ensures |keys| == |items|
  {
    seq(|items|, i requires 0 <= i < |items| => items[i].key)
  }

  // ----- The history -----

  function Without(keys: seq<Key>, k: Key): seq<Key> {
    if keys == [] then [] else if keys[0] == k then keys[1..] else [keys[0]] + Without(keys[1..], k)
  }

  /** The distinct keys in the order of their last use, `k` having just been used. */
  function Touch(keys: seq<Key>, k: Key): seq<Key> {
    Without(keys, k) + [k]
  }

  /** The longest suffix within both caps. */
  function LongestFit(keys: seq<Key>): seq<Key> {
    if Fits(keys) then keys else LongestFit(keys[1..])
  }

  // ----- The cache -----

  function Find<Tree>(items: seq<Item<Tree>>, k: Key): Option<Tree> {
    if items == [] then None else if items[0].key == k then Some(items[0].tree) else Find(items[1..], k)
  }

  function Drop<Tree>(items: seq<Item<Tree>>, k: Key): seq<Item<Tree>> {
    if items == [] then [] else if items[0].key == k then items[1..] else [items[0]] + Drop(items[1..], k)
  }

  function Evict<Tree>(items: seq<Item<Tree>>): seq<Item<Tree>> {
    if Fits(Keys(items)) then items else Evict(items[1..])
  }

  /** A hit makes its item the most recent one. */
  function Probed<Tree>(items: seq<Item<Tree>>, k: Key): seq<Item<Tree>> {
    match Find(items, k)
    case None => items
    case Some(tree) => Drop(items, k) + [Item(k, tree)]
  }

  /** A source over the byte cap is not cached. */
  function Inserted<Tree>(items: seq<Item<Tree>>, k: Key, tree: Tree): seq<Item<Tree>> {
    if |k.source| > MAX_TOTAL_SOURCE_BYTES then items else Evict(Drop(items, k) + [Item(k, tree)])
  }

  // ----- Suffixes that fit -----

  lemma {:induction false} TotalAppend(a: seq<Key>, b: seq<Key>)
    ensures Total(a + b) == Total(a) + Total(b)
  {
    if a == [] {
      assert a + b == b;
    } else {
      TotalAppend(a[1..], b);
      assert (a + b)[1..] == a[1..] + b;
    }
  }

  /** `LongestFit` is a suffix, it fits, and no longer suffix does. */
  lemma {:induction false} LongestFitIsLongest(keys: seq<Key>)
    ensures exists n :: 0 <= n <= |keys| && LongestFit(keys) == keys[n..] && FirstFit(keys, n)
  {
    if Fits(keys) {
      assert keys == keys[0..];
      assert FirstFit(keys, 0);
    } else {
      LongestFitIsLongest(keys[1..]);
      var n :| 0 <= n <= |keys[1..]| && LongestFit(keys[1..]) == keys[1..][n..] && FirstFit(keys[1..], n);
      forall m | 0 <= m < n + 1
        ensures !Fits(keys[m..])
      {
        if m > 0 {
          assert keys[m..] == keys[1..][m - 1..];
        } else {
          assert keys[0..] == keys;
        }
      }
      assert keys[n + 1..] == keys[1..][n..];
      assert FirstFit(keys, n + 1);
    }
  }

  ghost predicate FirstFit(keys: seq<Key>, n: nat) {
    n <= |keys| && Fits(keys[n..]) && forall m :: 0 <= m < n ==> !Fits(keys[m..])
  }

  lemma FitInRange(keys: seq<Key>, n: nat)
    requires FirstFit(keys, n)
    ensures n <= |keys|
  {}

  /** There is only one such suffix. */
  lemma {:induction false} FirstFitIsLongestFit(keys: seq<Key>, n: nat)
    requires FirstFit(keys, n)
    ensures LongestFit(keys) == keys[n..]
    decreases n
  {
    assert keys[0..] == keys;
    if n > 0 {
      assert !Fits(keys[0..]);
      forall m | 0 <= m < n - 1
        ensures !Fits(keys[1..][m..])
      {
        assert keys[1..][m..] == keys[m + 1..];
      }
      assert keys[1..][n - 1..] == keys[n..];
      FirstFitIsLongestFit(keys[1..], n - 1);
    }
  }

  /** No suffix of `p + q` that is longer than `q` fits. */
  predicate Saturated(p: seq<Key>, q: seq<Key>) {
    p == [] || !Fits([p[|p| - 1]] + q)
  }

  lemma {:induction false} SaturatedPrefix(p: seq<Key>, q: seq<Key>)
    requires Saturated(p, q)
    ensures LongestFit(p + q) == LongestFit(q)
  {
    if p == [] {
      assert p + q == q;
    } else {
      TotalAppend(p[..|p| - 1], [p[|p| - 1]] + q);
      assert p + q == p[..|p| - 1] + ([p[|p| - 1]] + q);
      assert (p + q)[1..] == p[1..] + q;
      SaturatedPrefix(p[1..], q);
    }
  }

  lemma WithoutUnfold(keys: seq<Key>, k: Key)
    ensures Without(keys, k) ==
            if keys == [] then [] else if keys[0] == k then keys[1..] else [keys[0]] + Without(keys[1..], k)
  {}

  lemma InTail(keys: seq<Key>, k: Key)
    requires keys != []
    ensures k in keys <==> keys[0] == k || k in keys[1..]
  {
    assert keys == [keys[0]] + keys[1..];
  }

  lemma {:induction false} WithoutAppend(p: seq<Key>, q: seq<Key>, k: Key)
    ensures Without(p + q, k) == if k in p then Without(p, k) + q else p + Without(q, k)
  {
    hide Without;
    if p == [] {
      assert p + q == q && p + Without(q, k) == Without(q, k);
    } else {
      var first, rest := [p[0]], p[1..];
      InTail(p, k);
      WithoutUnfold(p, k);
      WithoutUnfold(p + q, k);
      assert (p + q)[1..] == rest + q && p == first + rest;
      WithoutAppend(rest, q, k);
      Regroup(first, Without(rest, k), q);
      Regroup(first, rest, Without(q, k));
    }
  }

  lemma {:induction false} WithoutSize(keys: seq<Key>, k: Key)
    ensures k in keys ==> |Without(keys, k)| == |keys| - 1 && Total(Without(keys, k)) == Total(keys) - |k.source|
    ensures k !in keys ==> Without(keys, k) == keys
    ensures forall x :: x in Without(keys, k) ==> x in keys
  {
    if keys != [] && keys[0] != k {
      WithoutSize(keys[1..], k);
    }
  }

  lemma DistinctAppend(a: seq<Key>, b: seq<Key>)
    ensures Distinct(a + b) <==> Distinct(a) && Distinct(b) && forall x :: x in a ==> x !in b
  {
    if Distinct(a + b) {
      forall i, j | 0 <= i < |a| && 0 <= j < |b|
        ensures a[i] != b[j]
      {
        assert (a + b)[i] != (a + b)[|a| + j];
      }
      forall i, j | 0 <= i < j < |b|
        ensures b[i] != b[j]
      {
        assert (a + b)[|a| + i] != (a + b)[|a| + j];
      }
      forall i, j | 0 <= i < j < |a|
        ensures a[i] != a[j]
      {
        assert (a + b)[i] != (a + b)[j];
      }
    }
    if Distinct(a) && Distinct(b) && forall x :: x in a ==> x !in b {
      forall i, j | 0 <= i < j < |a + b|
        ensures (a + b)[i] != (a + b)[j]
      {
        if i < |a| <= j {
          assert a[i] in a && b[j - |a|] in b;
        }
      }
    }
  }

  lemma {:induction false} TouchDistinct(keys: seq<Key>, k: Key)
    requires Distinct(keys)
    ensures Distinct(Without(keys, k)) && k !in Without(keys, k) && Distinct(Touch(keys, k))
  {
    hide Distinct;
    DistinctOne(k);
    if keys != [] {
      assert keys == [keys[0]] + keys[1..];
      DistinctAppend([keys[0]], keys[1..]);
      TouchDistinct(keys[1..], k);
      WithoutSize(keys[1..], k);
      DistinctAppend([keys[0]], Without(keys[1..], k));
    }
    DistinctAppend(Without(keys, k), [k]);
  }

  lemma DistinctOne(k: Key)
    ensures Distinct([]) && Distinct([k])
  {}

  /** Touching a key leaves the counts alone when it was there, and adds it when it was not. */
  lemma TouchFits(before: seq<Key>, keys: seq<Key>, k: Key)
    ensures k in keys ==> (Fits(before + Touch(keys, k)) <==> Fits(before + keys))
    ensures k !in keys ==> (Fits(before + Touch(keys, k)) <==> Fits([k] + (before + keys)))
  {
    WithoutSize(keys, k);
    TotalAppend(before, keys);
    TotalAppend(before, Touch(keys, k));
    TotalAppend(Without(keys, k), [k]);
  }

  lemma TouchRegroups(p: seq<Key>, s: seq<Key>, k: Key)
    ensures k in p ==> Touch(p + s, k) == Without(p, k) + (s + [k])
    ensures k !in p ==> Touch(p + s, k) == p + Touch(s, k)
  {
    WithoutAppend(p, s, k);
  }

  lemma StillTooMuch(x: seq<Key>, y: seq<Key>)
    requires !Fits(x) && |x| <= |y| && Total(x) <= Total(y)
    ensures !Fits(y)
  {}

  /** The suffix with `k` appended is still followed, to its left, by a key that does not fit. */
  lemma EvictedStay(p: seq<Key>, s: seq<Key>, k: Key)
    requires Saturated(p, s)
    ensures Saturated(Without(p, k), s + [k])
  {
    hide Fits;
    var rest := Without(p, k);
    if rest != [] {
      var last := p[|p| - 1];
      assert p == p[..|p| - 1] + [last];
      WithoutAppend(p[..|p| - 1], [last], k);
      WithoutSize(p, k);
      TotalAppend(s, [k]);
      if last == rest[|rest| - 1] || last == k {
        StillTooMuch([last] + s, [rest[|rest| - 1]] + (s + [k]));
      }
    }
  }

  lemma SplitAtFit(history: seq<Key>) returns (p: seq<Key>)
    ensures history == p + LongestFit(history) && Saturated(p, LongestFit(history))
  {
    LongestFitIsLongest(history);
    var n :| 0 <= n <= |history| && LongestFit(history) == history[n..] && FirstFit(history, n);
    p := history[..n];
    if n > 0 {
      assert [p[n - 1]] + history[n..] == history[n - 1..];
    }
  }

  /** What was evicted never comes back: from the longest suffix alone, the next longest suffix follows. */
  lemma TouchAfterEviction(history: seq<Key>, k: Key)
    requires Distinct(history)
    ensures LongestFit(Touch(history, k)) == LongestFit(Touch(LongestFit(history), k))
  {
    hide Fits, LongestFit, Without, Touch;
    var s := LongestFit(history);
    var p := SplitAtFit(history);
    DistinctAppend(p, s);
    TouchRegroups(p, s, k);
    if k in s {
      SaturatedTouch(p, s, k);
      SaturatedPrefix(p, Touch(s, k));
    } else {
      TouchAbsent(s, k);
      if k !in p {
        TouchAbsent(p, k);
      }
      EvictedStay(p, s, k);
      SaturatedPrefix(Without(p, k), s + [k]);
    }
  }

  lemma TouchAbsent(s: seq<Key>, k: Key)
    requires k !in s
    ensures Without(s, k) == s && Touch(s, k) == s + [k]
  {
    WithoutSize(s, k);
  }

  lemma SaturatedTouch(p: seq<Key>, s: seq<Key>, k: Key)
    requires k in s && Saturated(p, s)
    ensures Saturated(p, Touch(s, k))
  {
    if p != [] {
      TouchFits([p[|p| - 1]], s, k);
    }
  }

  // ----- The cache operations are the history operations -----

  lemma {:induction false} KeysOfDrop<Tree>(items: seq<Item<Tree>>, k: Key)
    ensures Keys(Drop(items, k)) == Without(Keys(items), k)
    ensures forall x :: x in Drop(items, k) ==> x in items
    ensures Find(items, k).Some? <==> k in Keys(items)
    ensures Find(items, k).Some? ==> Item(k, Find(items, k).value) in items
    decreases |items|
  {
    if items != [] {
      assert Keys(items)[1..] == Keys(items[1..]);
      KeysOfDrop(items[1..], k);
    }
  }

  lemma {:induction false} KeysOfEvict<Tree>(items: seq<Item<Tree>>)
    ensures Keys(Evict(items)) == LongestFit(Keys(items))
    ensures forall x :: x in Evict(items) ==> x in items
    decreases |items|
  {
    hide Fits;
    if !Fits(Keys(items)) {
      NothingFits();
      assert Keys(items)[1..] == Keys(items[1..]);
      KeysOfEvict(items[1..]);
    }
  }

  lemma NothingFits()
    ensures Fits([])
  {}

  lemma KeysOfAppend<Tree>(items: seq<Item<Tree>>, item: Item<Tree>)
    ensures Keys(items + [item]) == Keys(items) + [item.key]
  {}

  /** The cache holds exactly the most recent keys that fit, each with the tree `parse` gives it. */
  ghost predicate Tracks<Tree>(items: seq<Item<Tree>>, history: seq<Key>) {
    Distinct(history) && Keys(items) == LongestFit(history)
  }

  ghost predicate TreesCorrect<Tree>(items: seq<Item<Tree>>, parse: (Lang, seq<u8>) -> Option<Tree>) {
    forall x :: x in items ==> parse(x.key.lang, x.key.source) == Some(x.tree)
  }

  lemma ProbeTracks<Tree>(items: seq<Item<Tree>>, history: seq<Key>, k: Key, parse: (Lang, seq<u8>) -> Option<Tree>)
    requires Tracks(items, history) && TreesCorrect(items, parse)
    ensures Tracks(Probed(items, k), if Find(items, k).Some? then Touch(history, k) else history)
    ensures TreesCorrect(Probed(items, k), parse)
    ensures Find(items, k).Some? ==> Find(items, k) == parse(k.lang, k.source)
  {
    hide Distinct, LongestFit, Fits;
    KeysOfDrop(items, k);
    if Find(items, k).Some? {
      var tree := Find(items, k).value;
      assert parse(Item(k, tree).key.lang, Item(k, tree).key.source) == Some(tree);
      KeysOfAppend(Drop(items, k), Item(k, tree));
      TouchAfterEviction(history, k);
      TouchDistinct(history, k);
      TouchedStillFits(history, k);
    }
  }

  lemma {:induction false} LongestFitFits(keys: seq<Key>)
    ensures Fits(LongestFit(keys))
  {
    if !Fits(keys) {
      LongestFitFits(keys[1..]);
    }
  }

  lemma TouchedStillFits(history: seq<Key>, k: Key)
    requires k in LongestFit(history)
    ensures LongestFit(Touch(LongestFit(history), k)) == Touch(LongestFit(history), k)
  {
    LongestFitFits(history);
    TouchFits([], LongestFit(history), k);
    assert [] + LongestFit(history) == LongestFit(history);
    assert [] + Touch(LongestFit(history), k) == Touch(LongestFit(history), k);
  }

  lemma InsertTracks<Tree>(items: seq<Item<Tree>>, history: seq<Key>, k: Key, tree: Tree,
                           parse: (Lang, seq<u8>) -> Option<Tree>)
    requires Tracks(items, history) && TreesCorrect(items, parse)
    requires parse(k.lang, k.source) == Some(tree)
    ensures Tracks(Inserted(items, k, tree),
                   if |k.source| <= MAX_TOTAL_SOURCE_BYTES then Touch(history, k) else history)
    ensures TreesCorrect(Inserted(items, k, tree), parse)
  {
    hide Distinct, LongestFit, Fits;
    if |k.source| <= MAX_TOTAL_SOURCE_BYTES {
      KeysOfDrop(items, k);
      KeysOfAppend(Drop(items, k), Item(k, tree));
      KeysOfEvict(Drop(items, k) + [Item(k, tree)]);
      TouchAfterEviction(history, k);
      TouchDistinct(history, k);
    }
  }

  /** The entry just inserted survives its own insertion. */
  lemma InsertedIsKept<Tree>(items: seq<Item<Tree>>, k: Key, tree: Tree)
    requires |k.source| <= MAX_TOTAL_SOURCE_BYTES
    ensures var after := Inserted(items, k, tree); after != [] && after[|after| - 1] == Item(k, tree)
  {
    EvictKeepsLast(Drop(items, k), Item(k, tree));
  }

  lemma {:induction false} EvictKeepsLast<Tree>(items: seq<Item<Tree>>, last: Item<Tree>)
    requires |last.key.source| <= MAX_TOTAL_SOURCE_BYTES
    ensures var after := Evict(items + [last]); after != [] && after[|after| - 1] == last
    decreases |items|
  {
    if items == [] {
      assert Keys([] + [last]) == [last.key] && Total([last.key]) == |last.key.source| + Total([]);
    } else {
      assert (items + [last])[1..] == items[1..] + [last];
      EvictKeepsLast(items[1..], last);
    }
  }

  // ----- The caps in numbers -----

  /** Twelve entries, and four mebibytes of source. */
  lemma FitsIs(keys: seq<Key>)
    ensures Fits(keys) <==> |keys| <= 12 && Total(keys) <= 4_194_304
  {}

  /** The bytes of the sources are counted each time a key occurs. */
  lemma TotalOf(a: seq<Key>, k: Key)
    ensures Total([]) == 0 && Total(a + [k]) == Total(a) + |k.source|
  {
    TotalAppend(a, [k]);
    assert [k][1..] == [];
  }

  /** A source of up to four mebibytes is cached, a longer one is not. */
  lemma InsertedIs<Tree>(items: seq<Item<Tree>>, k: Key, tree: Tree)
    ensures |k.source| <= 4_194_304 ==> Item(k, tree) in Inserted(items, k, tree)
    ensures |k.source| > 4_194_304 ==> Inserted(items, k, tree) == items
  {
    if |k.source| <= 4_194_304 {
      InsertedIsKept(items, k, tree);
    }
  }
}
