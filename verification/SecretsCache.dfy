/** The TTL cache of src/config/SecretsManager.ts.

    A JavaScript Map keeps its keys in insertion order, and setting a key again leaves it where it is
    (section 24.1.3.9 of ECMA-262, 2023).  The cache is the sequence of its slots in that order.
    Everything between two awaits is one synchronous segment; each segment is one function here. */
module SecretsCache {
  import opened Text

  const MAX_ENTRIES := 500
  const DEFAULT_TTL := 3600000

  datatype Slot = Slot(key: string, value: string, expiresAt: int)

  type Cache = seq<Slot>

  ghost predicate UniqueKeys(c: Cache) {
    forall i, j :: 0 <= i < j < |c| ==> c[i].key != c[j].key
  }

  function Lookup(c: Cache, key: string): (r: Option<Slot>)
    ensures r.Some? ==> r.value in c && r.value.key == key
    ensures r.None? ==> forall i :: 0 <= i < |c| ==> c[i].key != key
  {
    if c == [] then None else if c[0].key == key then Some(c[0]) else Lookup(c[1..], key)
  }

  /** `Map.prototype.set` */
  function Put(c: Cache, slot: Slot): (r: Cache)
    ensures |r| == if Lookup(c, slot.key).Some? then |c| else |c| + 1
  {
    if c == [] then [slot]
    else if c[0].key == slot.key then [slot] + c[1..]
    else [c[0]] + Put(c[1..], slot)
  }

  /** `Map.prototype.delete` */
  function Remove(c: Cache, key: string): (r: Cache)
    ensures |r| <= |c|
  {
    if c == [] then []
    else if c[0].key == key then c[1..]
    else [c[0]] + Remove(c[1..], key)
  }

  /** The slots of the other keys, in their order. */
  function Others(c: Cache, key: string): Cache {
    if c == [] then []
    else (if c[0].key == key then [] else [c[0]]) + Others(c[1..], key)
  }

  function Unexpired(c: Cache, now: int): (r: Cache)
    ensures |r| <= |c|
  {
    if c == [] then []
    else if c[0].expiresAt <= now then Unexpired(c[1..], now)
    else [c[0]] + Unexpired(c[1..], now)
  }

  /** An oversized cache keeps the longest suffix of its unexpired slots that fits. */
  function Pruned(c: Cache, maxEntries: nat, now: int): (r: Cache)
    ensures |c| <= maxEntries ==> r == c
    ensures |r| <= maxEntries
  {
    if |c| <= maxEntries then c
    else
      var rest := Unexpired(c, now);
      if |rest| <= maxEntries then rest else rest[|rest| - maxEntries..]
  }

  // ---------- The synchronous segments ----------

  predicate IsHit(c: Cache, key: string, now: int) {
    Lookup(c, key).Some? && Lookup(c, key).value.expiresAt > now
  }

  /** What `runGetSecret` does before the backend answers, when the cache cannot. */
  function AfterMiss(c: Cache, now: int): Cache { Pruned(c, MAX_ENTRIES, now) }

  /** What it does with the answer: `stored` and `pruned` are the two clock readings. */
  function AfterFill(c: Cache, key: string, value: string, ttl: Option<int>, stored: int, pruned: int): Cache {
    Pruned(Put(c, Slot(key, value, stored + TtlOf(ttl))), MAX_ENTRIES, pruned)
  }

  function TtlOf(ttl: Option<int>): int {
    match ttl
    case Some(ms) => ms
    case None => DEFAULT_TTL
  }

  function AfterClear(c: Cache, key: Option<string>): Cache {
    match key
    case Some(k) => Remove(c, k)
    case None => []
  }

  class SecretsStore {
    var cache: Cache

    constructor ()
      ensures cache == []
    {
      cache := [];
    }

    method PruneCache(maxEntries: nat, now: int)
      requires UniqueKeys(cache)
      modifies this
      ensures cache == Pruned(old(cache), maxEntries, now)
    {
      if |cache| <= maxEntries { return; }
      hide Unexpired, UniqueKeys;
      var entries := cache;
      assert Unexpired([], now) + entries == entries by { NothingUnexpired(entries, now); }
      for i := 0 to |entries|
        invariant cache == Unexpired(entries[..i], now) + entries[i..]
      {
        PruneStep(entries, i, now);
        if entries[i].expiresAt <= now {
          cache := Remove(cache, entries[i].key);
        }
      }
      ghost var rest := Unexpired(entries, now);
      assert cache == rest by { assert entries[..|entries|] == entries; }
      hide Remove;
      while |cache| > maxEntries
        invariant |cache| <= |rest| && cache == rest[|rest| - |cache|..]
        invariant |rest| > maxEntries ==> |cache| >= maxEntries
        invariant |rest| <= maxEntries ==> cache == rest
      {
        RemoveOldest(cache);
        cache := Remove(cache, cache[0].key);
      }
    }

    /** The segment up to the backend call; Some(v) is a cache hit, which returns at once. */
    method GetBegin(key: string, now: int, pruned: int) returns (hit: Option<string>)
      requires UniqueKeys(cache)
      modifies this
      ensures IsHit(old(cache), key, now) ==>
        hit == Some(Lookup(old(cache), key).value.value) && cache == old(cache)
      ensures !IsHit(old(cache), key, now) ==> hit == None && cache == AfterMiss(old(cache), pruned)
    {
      var cached := Lookup(cache, key);
      if cached.Some? && cached.value.expiresAt > now {
        return Some(cached.value.value);
      }
      PruneCache(MAX_ENTRIES, pruned);
      return None;
    }

    /** The segment after the backend has answered with a value. */
    method GetFinish(key: string, value: string, ttl: Option<int>, stored: int, pruned: int)
      requires UniqueKeys(cache)
      modifies this
      ensures cache == AfterFill(old(cache), key, value, ttl, stored, pruned)
      ensures |old(cache)| <= 500 && pruned < stored + (match ttl case Some(ms) => ms case None => 3600000) ==>
                forall now :: IsHit(cache, key, now)
                              <==> now < stored + match ttl case Some(ms) => ms case None => 3600000
    {
      if |cache| <= 500 {
        forall now { HitExactlyWhile(cache, key, value, ttl, stored, pruned, now); }
      }
      PutKeepsUnique(cache, Slot(key, value, stored + TtlOf(ttl)));
      cache := Put(cache, Slot(key, value, stored + TtlOf(ttl)));
      PruneCache(MAX_ENTRIES, pruned);
    }

    /** The segment after a put or delete has succeeded: the key is gone, every other slot is answered as
        before, and the others keep their order. */
    method Invalidate(key: string)
      requires UniqueKeys(cache)
      modifies this
      ensures cache == Remove(old(cache), key) == Others(old(cache), key) && UniqueKeys(cache)
      ensures Lookup(cache, key) == None
      ensures forall k :: k != key ==> Lookup(cache, k) == Lookup(old(cache), k)
    {
      RemoveLeavesOthers(cache, key);
      cache := Remove(cache, key);
    }

    /** One key is dropped as above, or all of them. */
    method ClearCache(key: Option<string>)
      requires UniqueKeys(cache)
      modifies this
      ensures cache == AfterClear(old(cache), key) && UniqueKeys(cache)
      ensures key.None? ==> forall k :: Lookup(cache, k) == None
      ensures key.Some? ==> cache == Others(old(cache), key.value) && Lookup(cache, key.value) == None
      ensures key.Some? ==> forall k :: k != key.value ==> Lookup(cache, k) == Lookup(old(cache), k)
    {
      match key
      case None => cache := [];
      case Some(k) =>
        RemoveLeavesOthers(cache, k);
        cache := Remove(cache, k);
    }
  }

  // ---------- Facts about the ordered map ----------

  lemma {:induction false} PutKeepsOthers(c: Cache, slot: Slot)
    ensures forall s :: s in Put(c, slot) ==> s == slot || s in c
    ensures forall s :: s in c && s.key != slot.key ==> s in Put(c, slot)
    ensures slot in Put(c, slot)
    ensures Lookup(Put(c, slot), slot.key) == Some(slot)
  {
    if c != [] && c[0].key != slot.key {
      PutKeepsOthers(c[1..], slot);
    }
  }

  lemma {:induction false} PutKeepsUnique(c: Cache, slot: Slot)
    requires UniqueKeys(c)
    ensures UniqueKeys(Put(c, slot))
  {
    if c != [] && c[0].key != slot.key {
      PutKeepsUnique(c[1..], slot);
      var rest := Put(c[1..], slot);
      PutKeepsOthers(c[1..], slot);
      forall j | 0 <= j < |rest| ensures c[0].key != rest[j].key {
        assert rest[j] in rest;
      }
    }
  }

  /** Setting a key again keeps its place: the sequence of keys does not change. */
  lemma {:induction false} PutKeepsPlaces(c: Cache, slot: Slot)
    requires Lookup(c, slot.key).Some?
    ensures forall i :: 0 <= i < |c| ==> Put(c, slot)[i].key == c[i].key
  {
    if c[0].key != slot.key {
      PutKeepsPlaces(c[1..], slot);
    }
  }

  lemma {:induction false} PutAppends(c: Cache, slot: Slot)
    requires Lookup(c, slot.key).None?
    ensures Put(c, slot) == c + [slot]
  {
    if c != [] { PutAppends(c[1..], slot); }
  }

  lemma {:induction false} RemoveKeepsOthers(c: Cache, key: string)
    requires UniqueKeys(c)
    ensures UniqueKeys(Remove(c, key))
    ensures forall s :: s in Remove(c, key) <==> s in c && s.key != key
  {
    if c != [] {
      assert c == [c[0]] + c[1..];
      if c[0].key == key {
        forall s | s in c[1..] ensures s.key != key {
          var j :| 0 <= j < |c[1..]| && c[1..][j] == s;
          assert c[j + 1].key != c[0].key;
        }
      } else {
        RemoveKeepsOthers(c[1..], key);
        var rest := Remove(c[1..], key);
        forall j | 0 <= j < |rest| ensures c[0].key != rest[j].key {
          assert rest[j] in rest;
          var k :| 0 <= k < |c[1..]| && c[1..][k] == rest[j];
          assert c[k + 1] == rest[j];
        }
      }
    }
  }

  lemma {:induction false} OthersOfAbsent(c: Cache, key: string)
    requires forall i :: 0 <= i < |c| ==> c[i].key != key
    ensures Others(c, key) == c
  {
    if c != [] { OthersOfAbsent(c[1..], key); }
  }

  lemma LookupBehind(s: Slot, rest: Cache, k: string)
    ensures Lookup([s] + rest, k) == if s.key == k then Some(s) else Lookup(rest, k)
  {
    assert ([s] + rest)[1..] == rest;
  }

  lemma {:induction false} OthersAnswerAsBefore(c: Cache, key: string, k: string)
    ensures Lookup(Others(c, key), k) == if k == key then None else Lookup(c, k)
  {
    if c != [] {
      OthersAnswerAsBefore(c[1..], key, k);
      var rest := Others(c[1..], key);
      if c[0].key == key {
        assert [] + rest == rest;
      } else {
        assert Others(c, key) == [c[0]] + rest;
        hide Others;
        LookupBehind(c[0], rest, k);
      }
    }
  }

  /** As keys do not repeat, deleting the first match leaves just the slots of the other keys. */
  lemma RemoveLeavesOthers(c: Cache, key: string)
    requires UniqueKeys(c)
    ensures Remove(c, key) == Others(c, key) && UniqueKeys(Remove(c, key))
    ensures forall k :: Lookup(Remove(c, key), k) == if k == key then None else Lookup(c, k)
  {
    RemoveIsOthers(c, key);
    RemoveKeepsOthers(c, key);
    forall k ensures Lookup(Others(c, key), k) == if k == key then None else Lookup(c, k) {
      OthersAnswerAsBefore(c, key, k);
    }
  }

  lemma {:induction false} RemoveIsOthers(c: Cache, key: string)
    requires UniqueKeys(c)
    ensures Remove(c, key) == Others(c, key)
  {
    if c != [] {
      if c[0].key == key {
        assert forall i :: 0 <= i < |c[1..]| ==> c[1..][i].key != key;
        OthersOfAbsent(c[1..], key);
      } else {
        RemoveIsOthers(c[1..], key);
      }
    }
  }

  lemma {:induction false} UnexpiredKeepsUnique(c: Cache, now: int)
    requires UniqueKeys(c)
    ensures UniqueKeys(Unexpired(c, now))
    ensures forall s :: s in Unexpired(c, now) <==> s in c && s.expiresAt > now
  {
    if c != [] {
      assert c == [c[0]] + c[1..];
      UnexpiredKeepsUnique(c[1..], now);
      var rest := Unexpired(c[1..], now);
      forall j | 0 <= j < |rest| ensures c[0].key != rest[j].key {
        assert rest[j] in rest;
        var k :| 0 <= k < |c[1..]| && c[1..][k] == rest[j];
        assert c[k + 1] == rest[j];
      }
    }
  }

  lemma {:induction false} UnexpiredOfAppend(c: Cache, slot: Slot, now: int)
    ensures Unexpired(c + [slot], now) == Unexpired(c, now) + if slot.expiresAt <= now then [] else [slot]
  {
    if c != [] {
      assert (c + [slot])[1..] == c[1..] + [slot];
      UnexpiredOfAppend(c[1..], slot, now);
    }
  }

  lemma {:induction false} RemoveFirstMatch(front: Cache, slot: Slot, back: Cache)
    requires forall i :: 0 <= i < |front| ==> front[i].key != slot.key
    ensures Remove(front + ([slot] + back), slot.key) == front + back
  {
    if front == [] {
      assert front + ([slot] + back) == [slot] + back;
    } else {
      assert (front + ([slot] + back))[1..] == front[1..] + ([slot] + back);
      RemoveFirstMatch(front[1..], slot, back);
    }
  }

  /** Deleting the visited entry during the pruning loop removes just that entry. */
  lemma RemoveBehind(entries: Cache, i: nat, now: int)
    requires i < |entries| && UniqueKeys(entries)
    ensures Remove(Unexpired(entries[..i], now) + entries[i..], entries[i].key)
            == Unexpired(entries[..i], now) + entries[i + 1..]
  {
    var front := Unexpired(entries[..i], now);
    UnexpiredKeepsUnique(entries[..i], now);
    forall k | 0 <= k < |front| ensures front[k].key != entries[i].key {
      assert front[k] in front;
      var j :| 0 <= j < i && entries[..i][j] == front[k];
      assert entries[j] == front[k];
    }
    assert entries[i..] == [entries[i]] + entries[i + 1..];
    RemoveFirstMatch(front, entries[i], entries[i + 1..]);
  }

  lemma NothingUnexpired(entries: Cache, now: int)
    ensures Unexpired(entries[..0], now) + entries[0..] == entries
    ensures Unexpired([], now) + entries == entries
  {
    assert Unexpired([], now) == [];
  }

  lemma RemoveOldest(c: Cache)
    requires c != []
    ensures Remove(c, c[0].key) == c[1..]
  {
  }

  lemma PruneStep(entries: Cache, i: nat, now: int)
    requires i < |entries| && UniqueKeys(entries)
    ensures var before := Unexpired(entries[..i], now) + entries[i..];
            var after := Unexpired(entries[..i + 1], now) + entries[i + 1..];
            after == if entries[i].expiresAt <= now then Remove(before, entries[i].key) else before
  {
    assert entries[..i + 1] == entries[..i] + [entries[i]];
    UnexpiredOfAppend(entries[..i], entries[i], now);
    if entries[i].expiresAt <= now { RemoveBehind(entries, i, now); }
    hide Unexpired, UniqueKeys, Remove;
    var front := Unexpired(entries[..i], now);
    assert entries[i..] == [entries[i]] + entries[i + 1..];
    Associate(front, [entries[i]], entries[i + 1..]);
    assert front + [] == front;
  }

  // ---------- The bound ----------

  lemma PrunedKeepsUnique(c: Cache, maxEntries: nat, now: int)
    requires UniqueKeys(c)
    ensures UniqueKeys(Pruned(c, maxEntries, now))
    ensures forall s :: s in Pruned(c, maxEntries, now) ==> s in c
  {
    UnexpiredKeepsUnique(c, now);
  }

  /** No suffix of the unexpired slots that is longer than what pruning leaves would fit. */
  lemma PruningIsNotGreedy(c: Cache, maxEntries: nat, now: int)
    requires |c| > maxEntries
    ensures var rest, kept := Unexpired(c, now), Pruned(c, maxEntries, now);
            && |kept| <= |rest| && kept == rest[|rest| - |kept|..]
            && (|kept| == |rest| || |kept| == maxEntries)
  {
  }

  /** The prune before the backend call never removes anything from a cache that obeys the bound. */
  lemma FirstPruneIsIdle(c: Cache, now: int)
    requires |c| <= MAX_ENTRIES
    ensures AfterMiss(c, now) == c
  {
  }

  lemma {:induction false} LookupOfUnique(c: Cache, slot: Slot)
    requires UniqueKeys(c) && slot in c
    ensures Lookup(c, slot.key) == Some(slot)
  {
    assert c == [c[0]] + c[1..];
    if c[0] != slot {
      var j :| 0 <= j < |c[1..]| && c[1..][j] == slot;
      assert c[j + 1].key != c[0].key;
      LookupOfUnique(c[1..], slot);
    }
  }

  ghost predicate AtMostOldestEvicted(full: Cache, kept: Cache, now: int) {
    var rest := Unexpired(full, now);
    kept == full || kept == rest || (rest != [] && kept == rest[1..])
  }

  lemma PruneAfterAppend(c: Cache, slot: Slot, now: int)
    requires |c| == MAX_ENTRIES
    ensures AtMostOldestEvicted(c + [slot], Pruned(c + [slot], MAX_ENTRIES, now), now)
    ensures slot.expiresAt > now ==> slot in Pruned(c + [slot], MAX_ENTRIES, now)
  {
    UnexpiredOfAppend(c, slot, now);
    var kept := Pruned(c + [slot], MAX_ENTRIES, now);
    if slot.expiresAt > now { assert kept[|kept| - 1] == slot; }
  }

  lemma PruneAfterPut(c: Cache, slot: Slot, now: int)
    requires UniqueKeys(c) && |c| <= MAX_ENTRIES
    ensures AtMostOldestEvicted(Put(c, slot), Pruned(Put(c, slot), MAX_ENTRIES, now), now)
    ensures slot.expiresAt > now ==> slot in Pruned(Put(c, slot), MAX_ENTRIES, now)
  {
    if |Put(c, slot)| > MAX_ENTRIES {
      PutAppends(c, slot);
      PruneAfterAppend(c, slot, now);
    } else {
      PutKeepsOthers(c, slot);
    }
  }

  lemma PruneKeepsTheNewSlot(c: Cache, slot: Slot, now: int)
    requires UniqueKeys(c) && |c| <= MAX_ENTRIES
    ensures UniqueKeys(Pruned(Put(c, slot), MAX_ENTRIES, now))
    ensures slot.expiresAt > now ==> Lookup(Pruned(Put(c, slot), MAX_ENTRIES, now), slot.key) == Some(slot)
  {
    PutKeepsUnique(c, slot);
    PruneAfterPut(c, slot, now);
    PrunedKeepsUnique(Put(c, slot), MAX_ENTRIES, now);
    if slot.expiresAt > now {
      LookupOfUnique(Pruned(Put(c, slot), MAX_ENTRIES, now), slot);
    }
  }

  /** The prune after the fill keeps the bound, evicts at most one unexpired slot (the oldest one), and
      never the slot just stored, unless that slot has expired already. */
  lemma SecondPruneEvictsAtMostOne(c: Cache, key: string, value: string, ttl: Option<int>, stored: int, pruned: int)
    requires UniqueKeys(c) && |c| <= MAX_ENTRIES
    ensures var slot := Slot(key, value, stored + TtlOf(ttl));
            var kept := AfterFill(c, key, value, ttl, stored, pruned);
            && |kept| <= MAX_ENTRIES && UniqueKeys(kept)
            && AtMostOldestEvicted(Put(c, slot), kept, pruned)
            && (slot.expiresAt > pruned ==> Lookup(kept, key) == Some(slot))
  {
    hide Put, Pruned, Unexpired, Lookup, UniqueKeys, AtMostOldestEvicted;
    PruneAfterPut(c, Slot(key, value, stored + TtlOf(ttl)), pruned);
    PruneKeepsTheNewSlot(c, Slot(key, value, stored + TtlOf(ttl)), pruned);
  }

  lemma LookupInPruned(c: Cache, slot: Slot, now: int)
    requires UniqueKeys(c) && |c| <= MAX_ENTRIES
    ensures var kept := Pruned(Put(c, slot), MAX_ENTRIES, now);
            Lookup(kept, slot.key)
            == if slot.expiresAt > now || |Put(c, slot)| <= MAX_ENTRIES then Some(slot) else None
  {
    var kept := Pruned(Put(c, slot), MAX_ENTRIES, now);
    PutKeepsUnique(c, slot);
    PutKeepsOthers(c, slot);
    PruneKeepsTheNewSlot(c, slot, now);
    UnexpiredKeepsUnique(Put(c, slot), now);
    PrunedKeepsUnique(Put(c, slot), MAX_ENTRIES, now);
    LookupOfUnique(Put(c, slot), slot);
    hide Put, Unexpired;
    if slot.expiresAt <= now && |Put(c, slot)| > MAX_ENTRIES && Lookup(kept, slot.key).Some? {
      var s := Lookup(kept, slot.key).value;
      LookupOfUnique(Put(c, slot), s);
    }
  }

  /** After a fill the key is answered, with the value that was stored, exactly for the caller's time to live,
      or for an hour if the caller names none; unless the slot had expired by the time of its prune and there
      was no room for it. */
  lemma HitExactlyWhile(c: Cache, key: string, value: string, ttl: Option<int>, stored: int, pruned: int, now: int)
    requires UniqueKeys(c) && |c| <= 500
    ensures var kept, end := AfterFill(c, key, value, ttl, stored, pruned),
                             stored + match ttl case Some(ms) => ms case None => 3600000;
            && (IsHit(kept, key, now) <==> now < end && (pruned < end || |c| < 500 || Lookup(c, key).Some?))
            && (IsHit(kept, key, now) ==> Lookup(kept, key).value.value == value)
  {
    LookupInPruned(c, Slot(key, value, stored + TtlOf(ttl)), pruned);
    hide Pruned, Lookup;
  }
}
