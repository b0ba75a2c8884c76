/** The parse cache: an unordered vector of entries stamped with ticks, proved to behave as the recency list. */
module ParseCache {
  import opened Bytes
  import opened Option
  import opened Recency

  datatype Entry<+Tree> = Entry(hash: nat, lang: Lang, source: seq<u8>, tree: Tree, lastUsed: nat) {
    function Key(): Recency.Key {
      Recency.Key.Key(hash, lang, source)
    }
  }

  function RemoveAt<T>(s: seq<T>, i: nat): (r: seq<T>)
    requires i < |s|
    ensures |r| == |s| - 1
    ensures forall j :: 0 <= j < |r| ==> r[j] == if j < i then s[j] else s[j + 1]
  {
    s[..i] + s[i + 1..]
  }

  /** The entries whose key is not `k`. */
  function Retain<Tree(!new)>(entries: seq<Entry<Tree>>, k: Key): seq<Entry<Tree>> {
    if entries == [] then []
    else if entries[0].Key() == k then Retain(entries[1..], k)
    else [entries[0]] + Retain(entries[1..], k)
  }

  ghost predicate IsLru<Tree(!new)>(entries: seq<Entry<Tree>>, i: nat) {
    i < |entries| && forall j :: 0 <= j < |entries| ==> entries[i].lastUsed <= entries[j].lastUsed
  }

  ghost predicate IsNewest<Tree(!new)>(entries: seq<Entry<Tree>>, i: nat) {
    i < |entries| && forall j :: 0 <= j < |entries| ==> entries[j].lastUsed <= entries[i].lastUsed
  }

  /** The index of the least recently used entry. */
  function LruIndex<Tree(!new)>(entries: seq<Entry<Tree>>): (i: nat)
    requires entries != []
    ensures IsLru(entries, i)
  {
    if |entries| == 1 then 0 else
    var i := LruIndex(entries[1..]) + 1;
    assert forall j :: 1 <= j < |entries| ==> entries[j] == entries[1..][j - 1];
    if entries[0].lastUsed <= entries[i].lastUsed then 0 else i
  }

  function SourceBytes<Tree(!new)>(entries: seq<Entry<Tree>>): nat {
    if entries == [] then 0 else |entries[0].source| + SourceBytes(entries[1..])
  }

  // ----- The vector read in the order of its ticks -----

  /** Neither a key nor a tick occurs twice. */
  ghost predicate NoRepeats<Tree(!new)>(entries: seq<Entry<Tree>>) {
    forall i, j :: 0 <= i < j < |entries| ==>
      entries[i].Key() != entries[j].Key() && entries[i].lastUsed != entries[j].lastUsed
  }

  /** The items, least recently used first. */
  function Recent<Tree(!new)>(entries: seq<Entry<Tree>>): (items: seq<Item<Tree>>)
    ensures |items| == |entries|
  {
    if entries == [] then [] else
    var i := LruIndex(entries);
    [Item(entries[i].Key(), entries[i].tree)] + Recent(RemoveAt(entries, i))
  }

  /** Where index `j` ends up when index `i` is removed. */
  function Shift(j: nat, i: nat): nat
    requires i != j
  {
    if j < i then j else j - 1
  }

  lemma RemoveCommutes<T>(s: seq<T>, i: nat, j: nat)
    requires i < |s| && j < |s| && i != j
    ensures RemoveAt(RemoveAt(s, i), Shift(j, i)) == RemoveAt(RemoveAt(s, j), Shift(i, j))
    ensures RemoveAt(s, i)[Shift(j, i)] == s[j] && RemoveAt(s, j)[Shift(i, j)] == s[i]
    ensures |RemoveAt(s, i)| == |RemoveAt(s, j)| == |s| - 1
  {}

  lemma LruUnique<Tree(!new)>(entries: seq<Entry<Tree>>, m: nat)
    requires NoRepeats(entries) && IsLru(entries, m)
    ensures LruIndex(entries) == m
  {}

  lemma LruIsLru<Tree(!new)>(entries: seq<Entry<Tree>>)
    requires entries != []
    ensures IsLru(entries, LruIndex(entries)) && LruIndex(entries) < |entries|
  {}

  lemma RemoveKeeps<Tree(!new)>(entries: seq<Entry<Tree>>, i: nat, m: nat)
    requires NoRepeats(entries) && i < |entries| && m < |entries|
    ensures NoRepeats(RemoveAt(entries, i))
    ensures i != m && IsLru(entries, m) ==> IsLru(RemoveAt(entries, i), Shift(m, i))
    ensures i != m && IsNewest(entries, m) ==> IsNewest(RemoveAt(entries, i), Shift(m, i))
  {}

  lemma LruAfterRemove<Tree(!new)>(entries: seq<Entry<Tree>>, i: nat)
    requires NoRepeats(entries) && i < |entries| && i != LruIndex(entries)
    ensures LruIndex(RemoveAt(entries, i)) == Shift(LruIndex(entries), i)
  {
    hide RemoveAt, LruIndex, NoRepeats, Shift, IsLru;
    LruIsLru(entries);
    RemoveKeeps(entries, i, LruIndex(entries));
    LruUnique(RemoveAt(entries, i), Shift(LruIndex(entries), i));
  }

  lemma {:induction false} RecentWithout<Tree(!new)>(entries: seq<Entry<Tree>>, i: nat)
    requires NoRepeats(entries) && i < |entries|
    ensures Recent(RemoveAt(entries, i)) == Drop(Recent(entries), entries[i].Key())
    decreases |entries|
  {
    hide RemoveAt, NoRepeats, IsLru, LruIndex;
    var m := LruIndex(entries);
    LruIsLru(entries);
    if i != m {
      KeysDiffer(entries, i, m);
      LruAfterRemove(entries, i);
      RemoveKeeps(entries, m, i);
      RemoveCommutes(entries, m, i);
      RecentWithout(RemoveAt(entries, m), Shift(i, m));
    }
  }

  lemma KeysDiffer<Tree(!new)>(entries: seq<Entry<Tree>>, i: nat, j: nat)
    requires NoRepeats(entries) && i < |entries| && j < |entries| && i != j
    ensures entries[i].Key() != entries[j].Key()
  {}

  /** The entry stamped last comes last, wherever it stands in the vector. */
  lemma {:induction false} RecentNewest<Tree(!new)>(entries: seq<Entry<Tree>>, i: nat)
    requires NoRepeats(entries) && i < |entries|
    requires IsNewest(entries, i)
    ensures Recent(entries) == Recent(RemoveAt(entries, i)) + [Item(entries[i].Key(), entries[i].tree)]
    decreases |entries|
  {
    hide RemoveAt, NoRepeats, IsLru, IsNewest, LruIndex;
    var m := LruIndex(entries);
    LruIsLru(entries);
    if |entries| == 1 {
      OnlyOne(entries, i);
    } else {
      NewestIsNotLru(entries, i);
      LruAfterRemove(entries, i);
      RemoveKeeps(entries, m, i);
      RemoveCommutes(entries, m, i);
      RecentNewest(RemoveAt(entries, m), Shift(i, m));
    }
  }

  lemma OnlyOne<Tree(!new)>(entries: seq<Entry<Tree>>, i: nat)
    requires |entries| == 1 && i < |entries|
    ensures i == LruIndex(entries) == 0 && RemoveAt(entries, i) == []
  {}

  lemma NewestIsNotLru<Tree(!new)>(entries: seq<Entry<Tree>>, i: nat)
    requires NoRepeats(entries) && |entries| > 1 && IsNewest(entries, i)
    ensures i != LruIndex(entries)
  {
    LruIsLru(entries);
    hide LruIndex;
    var j := if i == 0 then 1 else 0;
    assert entries[j].lastUsed < entries[i].lastUsed;
  }

  lemma RetainIsRemove<Tree(!new)>(entries: seq<Entry<Tree>>, k: Key)
    requires NoRepeats(entries)
    ensures NoRepeats(Retain(entries, k))
    ensures Recent(Retain(entries, k)) == Drop(Recent(entries), k)
  {
    hide RemoveAt, NoRepeats, Recent, Drop, Retain;
    if i :| 0 <= i < |entries| && entries[i].Key() == k {
      RetainAt(entries, i);
      RecentWithout(entries, i);
      RemoveKeeps(entries, i, i);
    } else {
      RetainAll(entries, k);
      DropNothing(entries, k);
    }
  }

  lemma {:induction false} RetainMembers<Tree(!new)>(entries: seq<Entry<Tree>>, k: Key)
    ensures forall e :: e in Retain(entries, k) ==> e in entries && e.Key() != k
  {
    if entries != [] {
      RetainMembers(entries[1..], k);
    }
  }

  lemma {:induction false} RetainAt<Tree(!new)>(entries: seq<Entry<Tree>>, i: nat)
    requires NoRepeats(entries) && i < |entries|
    ensures Retain(entries, entries[i].Key()) == RemoveAt(entries, i)
    decreases |entries|
  {
    if i == 0 {
      RetainAll(entries[1..], entries[0].Key());
    } else {
      RetainAt(entries[1..], i - 1);
    }
  }

  lemma {:induction false} RetainAll<Tree(!new)>(entries: seq<Entry<Tree>>, k: Key)
    requires forall i :: 0 <= i < |entries| ==> entries[i].Key() != k
    ensures Retain(entries, k) == entries
  {
    if entries != [] {
      RetainAll(entries[1..], k);
    }
  }

  lemma {:induction false} DropNothing<Tree(!new)>(entries: seq<Entry<Tree>>, k: Key)
    requires forall i :: 0 <= i < |entries| ==> entries[i].Key() != k
    ensures Drop(Recent(entries), k) == Recent(entries) && Find(Recent(entries), k) == None
    decreases |entries|
  {
    if entries != [] {
      DropNothing(RemoveAt(entries, LruIndex(entries)), k);
    }
  }

  lemma {:induction false} FindAt<Tree(!new)>(entries: seq<Entry<Tree>>, i: nat)
    requires NoRepeats(entries) && i < |entries|
    ensures Find(Recent(entries), entries[i].Key()) == Some(entries[i].tree)
    decreases |entries|
  {
    hide RemoveAt, NoRepeats;
    var m := LruIndex(entries);
    if i != m {
      KeysDiffer(entries, i, m);
      RemoveKeeps(entries, m, i);
      RemoveCommutes(entries, m, i);
      FindAt(RemoveAt(entries, m), Shift(i, m));
    }
  }

  lemma {:induction false} SourceBytesAt<Tree(!new)>(entries: seq<Entry<Tree>>, i: nat)
    requires i < |entries|
    ensures SourceBytes(entries) == |entries[i].source| + SourceBytes(RemoveAt(entries, i))
    decreases |entries|
  {
    if i == 0 {
      assert RemoveAt(entries, 0) == entries[1..];
    } else {
      SourceBytesAt(entries[1..], i - 1);
      assert RemoveAt(entries, i)[1..] == RemoveAt(entries[1..], i - 1);
    }
  }

  lemma {:induction false} SourceBytesIsTotal<Tree(!new)>(entries: seq<Entry<Tree>>)
    ensures SourceBytes(entries) == Total(Keys(Recent(entries)))
    decreases |entries|
  {
    hide SourceBytes, Total, Recent, RemoveAt, LruIndex, Keys;
    if entries == [] {
      NoBytes<Tree>();
    } else {
      var i := LruIndex(entries);
      LruInRange(entries);
      SourceBytesAt(entries, i);
      SourceBytesIsTotal(RemoveAt(entries, i));
      RecentTotal(entries);
    }
  }

  lemma NoBytes<Tree(!new)>()
    ensures SourceBytes<Tree>([]) == Total(Keys(Recent<Tree>([])))
  {}

  lemma LruInRange<Tree(!new)>(entries: seq<Entry<Tree>>)
    requires entries != []
    ensures LruIndex(entries) < |entries| && |RemoveAt(entries, LruIndex(entries))| < |entries|
  {}

  lemma RecentTotal<Tree(!new)>(entries: seq<Entry<Tree>>)
    requires entries != []
    ensures var i := LruIndex(entries);
            Total(Keys(Recent(entries))) == |entries[i].source| + Total(Keys(Recent(RemoveAt(entries, i))))
  {
    hide RemoveAt, LruIndex;
    var i := LruIndex(entries);
    assert Keys(Recent(entries))[1..] == Keys(Recent(RemoveAt(entries, i)));
  }

  /** Both caps, read off the vector. */
  lemma CapsFit<Tree(!new)>(entries: seq<Entry<Tree>>)
    ensures Fits(Keys(Recent(entries))) <==> |entries| <= MAX_ENTRIES && SourceBytes(entries) <= MAX_TOTAL_SOURCE_BYTES
  {
    SourceBytesIsTotal(entries);
  }

  lemma EvictStep<Tree(!new)>(entries: seq<Entry<Tree>>)
    requires NoRepeats(entries) && !Fits(Keys(Recent(entries)))
    ensures entries != []
    ensures Evict(Recent(entries)) == Evict(Recent(RemoveAt(entries, LruIndex(entries))))
    ensures NoRepeats(RemoveAt(entries, LruIndex(entries)))
  {
    hide RemoveAt, Evict, NoRepeats, LruIndex, Fits;
    NothingFits();
    assert entries == [] ==> Keys(Recent(entries)) == [];
    LruIsLru(entries);
    RemoveKeeps(entries, LruIndex(entries), LruIndex(entries));
    EvictUnfolds(Recent(entries));
    assert Recent(entries)[1..] == Recent(RemoveAt(entries, LruIndex(entries)));
  }

  lemma EvictUnfolds<Tree(!new)>(items: seq<Item<Tree>>)
    ensures Evict(items) == if Fits(Keys(items)) then items else Evict(items[1..])
  {}

  ghost predicate TicksBelow<Tree(!new)>(entries: seq<Entry<Tree>>, tick: nat) {
    forall i :: 0 <= i < |entries| ==> entries[i].lastUsed < tick
  }

  /** A hit in place: the stamped entry goes to the end of the recency list. */
  lemma Stamp<Tree(!new)>(entries: seq<Entry<Tree>>, i: nat, tick: nat)
    requires NoRepeats(entries) && TicksBelow(entries, tick) && i < |entries|
    ensures var e := entries[i];
            var after := entries[i := e.(lastUsed := tick)];
            && NoRepeats(after) && TicksBelow(after, tick + 1)
            && Recent(after) == Probed(Recent(entries), e.Key())
            && Find(Recent(entries), e.Key()) == Some(e.tree)
  {
    var after := entries[i := entries[i].(lastUsed := tick)];
    assert RemoveAt(after, i) == RemoveAt(entries, i);
    hide RemoveAt, Recent, Drop, Find;
    RecentNewest(after, i);
    RecentWithout(entries, i);
    FindAt(entries, i);
  }

  lemma Push<Tree(!new)>(entries: seq<Entry<Tree>>, e: Entry<Tree>)
    requires NoRepeats(entries) && TicksBelow(entries, e.lastUsed)
    requires forall x :: x in entries ==> x.Key() != e.Key()
    ensures NoRepeats(entries + [e]) && TicksBelow(entries + [e], e.lastUsed + 1)
    ensures Recent(entries + [e]) == Recent(entries) + [Item(e.Key(), e.tree)]
  {
    assert RemoveAt(entries + [e], |entries|) == entries;
    hide RemoveAt, Recent;
    RecentNewest(entries + [e], |entries|);
  }

  class Cache<Tree(!new)> {
    var entries: seq<Entry<Tree>>
    var tick: nat

    /** The cached items, least recently used first. */
    ghost function Items(): seq<Item<Tree>>
      reads this
    {
      Recent(entries)
    }

    ghost predicate Valid()
      reads this
    {
      NoRepeats(entries) && TicksBelow(entries, tick) && Fits(Keys(Items()))
    }

    constructor ()
      ensures Valid() && Items() == []
    {
      entries := [];
      tick := 0;
      new;
      NothingFits();
    }

    method Clear()
      requires Valid()
      modifies this`entries
      ensures Valid() && Items() == []
    {
      entries := [];
      NothingFits();
    }

    method Probe(hash: nat, lang: Lang, source: seq<u8>) returns (result: Option<Tree>)
      requires Valid()
      modifies this
      ensures Valid()
      ensures var k := Recency.Key.Key(hash, lang, source);
              result == Find(old(Items()), k) && Items() == Probed(old(Items()), k)
    {
      hide NoRepeats, Recent, Probed, Find;
      ghost var k := Recency.Key.Key(hash, lang, source);
      var now := tick;
      tick := tick + 1;
      for i := 0 to |entries|
        invariant entries == old(entries) && tick == old(tick) + 1
        invariant forall j :: 0 <= j < i ==> entries[j].Key() != k
      {
        var e := entries[i];
        if e.hash == hash && e.lang == lang && e.source == source {
          Stamp(entries, i, now);
          ProbedFits(Items(), k);
          entries := entries[i := e.(lastUsed := now)];
          return Some(e.tree);
        }
      }
      DropNothing(entries, k);
      ProbedMiss(Items(), k);
      return None;
    }

    method Insert(hash: nat, lang: Lang, source: seq<u8>, tree: Tree)
      requires Valid()
      modifies this
      ensures Valid()
      ensures Items() == Inserted(old(Items()), Recency.Key.Key(hash, lang, source), tree)
    {
      hide NoRepeats, TicksBelow, Recent, Drop, Evict, Fits, Retain, RemoveAt, LruIndex;
      if |source| > MAX_TOTAL_SOURCE_BYTES {
        return;
      }
      ghost var k := Recency.Key.Key(hash, lang, source);
      RetainIsRemove(entries, k);
      RetainMembers(entries, k);
      RetainTicks(entries, k, tick);
      entries := Retain(entries, Recency.Key.Key(hash, lang, source));
      var now := tick;
      tick := tick + 1;
      Push(entries, Entry(hash, lang, source, tree, now));
      entries := entries + [Entry(hash, lang, source, tree, now)];
      ghost var target := Evict(Items());
      while |entries| > MAX_ENTRIES
        invariant NoRepeats(entries) && TicksBelow(entries, tick) && Evict(Items()) == target
      {
        CapsFit(entries);
        EvictStep(entries);
        RemoveTicks(entries, tick);
        entries := RemoveAt(entries, LruIndex(entries));
      }
      while SourceBytes(entries) > MAX_TOTAL_SOURCE_BYTES
        invariant |entries| <= MAX_ENTRIES
        invariant NoRepeats(entries) && TicksBelow(entries, tick) && Evict(Items()) == target
        decreases |entries|
      {
        CapsFit(entries);
        EvictStep(entries);
        RemoveTicks(entries, tick);
        entries := RemoveAt(entries, LruIndex(entries));
      }
      CapsFit(entries);
      EvictUnfolds(Items());
    }

    /** Served from the cache or parsed afresh, the answer is the uncached one, unless a parse is needed and
        `late` says that it would not end before its deadline. */
    method Parse(lang: Lang, source: seq<u8>, hash: seq<u8> -> nat, parse: (Lang, seq<u8>) -> Option<Tree>, late: bool)
      returns (result: Option<Tree>)
      requires Valid() && TreesCorrect(Items(), parse)
      modifies this
      ensures Valid() && TreesCorrect(Items(), parse)
      ensures var k := Recency.Key.Key(hash(source), lang, source);
              result == if late && Find(old(Items()), k).None? then None else parse(lang, source)
      ensures var k := Recency.Key.Key(hash(source), lang, source);
              Items() == if Find(old(Items()), k).Some? then Probed(old(Items()), k)
                         else if result.Some? then Inserted(old(Items()), k, result.value)
                         else old(Items())
    {
      hide Recent, Drop, Find, TreesCorrect, NoRepeats, TicksBelow, Evict, Fits;
      ghost var k := Recency.Key.Key(hash(source), lang, source);
      ParseCorrect(Items(), k, parse);
      result := Probe(hash(source), lang, source);
      if result.Some? {
        return;
      }
      result := if late then None else parse(lang, source);
      if result.None? {
        return;
      }
      Insert(hash(source), lang, source, result.value);
    }
  }

  lemma ProbedFits<Tree(!new)>(items: seq<Item<Tree>>, k: Key)
    requires Fits(Keys(items))
    ensures Fits(Keys(Probed(items, k)))
  {
    KeysOfDrop(items, k);
    if Find(items, k).Some? {
      KeysOfAppend(Drop(items, k), Item(k, Find(items, k).value));
      TouchFits([], Keys(items), k);
      assert [] + Keys(items) == Keys(items) && [] + Touch(Keys(items), k) == Touch(Keys(items), k);
    }
  }

  lemma ProbedMiss<Tree(!new)>(items: seq<Item<Tree>>, k: Key)
    requires Find(items, k) == None
    ensures Probed(items, k) == items
  {}

  lemma {:induction false} RetainTicks<Tree(!new)>(entries: seq<Entry<Tree>>, k: Key, tick: nat)
    requires TicksBelow(entries, tick)
    ensures TicksBelow(Retain(entries, k), tick)
  {
    RetainMembers(entries, k);
    assert forall i :: 0 <= i < |Retain(entries, k)| ==> Retain(entries, k)[i] in entries;
  }

  lemma RemoveTicks<Tree(!new)>(entries: seq<Entry<Tree>>, tick: nat)
    requires TicksBelow(entries, tick) && entries != []
    ensures TicksBelow(RemoveAt(entries, LruIndex(entries)), tick)
    ensures |RemoveAt(entries, LruIndex(entries))| < |entries|
  {}

  lemma ParseCorrect<Tree(!new)>(items: seq<Item<Tree>>, k: Key, parse: (Lang, seq<u8>) -> Option<Tree>)
    requires TreesCorrect(items, parse)
    ensures Find(items, k).Some? ==> Find(items, k) == parse(k.lang, k.source)
    ensures TreesCorrect(Probed(items, k), parse)
    ensures Find(items, k).None? ==> Probed(items, k) == items
    ensures forall tree :: parse(k.lang, k.source) == Some(tree) ==> TreesCorrect(Inserted(items, k, tree), parse)
  {
    KeysOfDrop(items, k);
    if Find(items, k).Some? {
      assert Item(k, Find(items, k).value) in items;
    }
    forall tree | parse(k.lang, k.source) == Some(tree)
      ensures TreesCorrect(Inserted(items, k, tree), parse)
    {
      KeysOfEvict(Drop(items, k) + [Item(k, tree)]);
    }
  }
}
