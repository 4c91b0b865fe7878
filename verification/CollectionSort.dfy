/** `sortBy` of src/collections/Collection.ts: a comparator over mixed keys, and when it is an order. */
module CollectionSort {
  import opened Text
  import opened Sorting

  /** A number of JavaScript. Rounding plays no part: the sign of a difference of two doubles is exact. */
  datatype Number = Finite(value: real) | PlusInfinity | MinusInfinity | NaN

  /** `Nil` stands for both null and undefined, which the comparator does not tell apart. */
  datatype Key = Nil | Num(number: Number) | Str(text: string) | Bool(flag: bool)

  /** What the runtime supplies: `localeCompare`, and `String(n)` of a number. */
  datatype Locale = Locale(collate: (string, string) -> int, numeral: Number -> string)

  /** The sign of `a - b`; a NaN difference counts as 0 (section 23.1.3.30.2 of ECMA-262). */
  function Difference(a: Number, b: Number): int {
    if a == NaN || b == NaN || a == b then 0
    else if a == MinusInfinity || b == PlusInfinity then -1
    else if a == PlusInfinity || b == MinusInfinity then 1
    else if a.value < b.value then -1 else 1
  }

  function Shown(locale: Locale, k: Key): string
    requires !k.Nil?
  {
    match k
    case Num(n) => locale.numeral(n)
    case Str(s) => s
    case Bool(b) => if b then "true" else "false"
  }

  function Compare(locale: Locale, a: Key, b: Key): int {
    if a.Nil? && b.Nil? then 0
    else if a.Nil? then 1
    else if b.Nil? then -1
    else if a.Num? && b.Num? then Difference(a.number, b.number)
    else locale.collate(Shown(locale, a), Shown(locale, b))
  }

  predicate Leq(locale: Locale, a: Key, b: Key) { Compare(locale, a, b) <= 0 }

  function ByKey<T>(locale: Locale, key: T -> Key): (T, T) -> bool {
    (x, y) => Leq(locale, key(x), key(y))
  }

  ghost predicate TextLeq(locale: Locale, a: string, b: string) { locale.collate(a, b) <= 0 }

  /** What `localeCompare` promises: a total preorder, with opposite signs for exchanged arguments. */
  ghost predicate Collates(locale: Locale) {
    && (forall a, b :: locale.collate(a, b) > 0 <==> locale.collate(b, a) < 0)
    && (forall a, b, c :: TextLeq(locale, a, b) && TextLeq(locale, b, c) ==> TextLeq(locale, a, c))
  }

  // ---------- When the comparator is an order ----------

  /** NaN beside two numbers that differ: it ties with both. */
  ghost predicate NaNClash(a: Key, b: Key, c: Key) {
    a == Num(NaN) && b.Num? && c.Num? && Difference(b.number, c.number) < 0
  }

  /** As a text, `s` stands on the wrong side: not after the smaller number `a`, not before the larger `b`
      (and for NaN and a number, which tie, `s` separates the two). */
  ghost predicate Crosses(locale: Locale, a: Key, b: Key, s: Key) {
    && a.Num? && b.Num? && !s.Num? && !s.Nil?
    && Leq(locale, a, b)
    && TextLeq(locale, Shown(locale, b), Shown(locale, s))
    && TextLeq(locale, Shown(locale, s), Shown(locale, a))
    && (Leq(locale, b, a) ==> !TextLeq(locale, Shown(locale, a), Shown(locale, b)))
  }

  ghost predicate Sane(locale: Locale, keys: set<Key>) {
    forall a, b, c :: a in keys && b in keys && c in keys ==> !NaNClash(a, b, c) && !Crosses(locale, a, b, c)
  }

  lemma Comparable(locale: Locale, a: Key, b: Key)
    requires Collates(locale)
    ensures Leq(locale, a, b) || Leq(locale, b, a)
  {
  }

  lemma NumbersAreTransitive(a: Number, b: Number, c: Number)
    requires Difference(a, b) <= 0 && Difference(b, c) <= 0
    requires !(b == NaN && Difference(c, a) < 0)
    ensures Difference(a, c) <= 0
  {
  }

  lemma TextsAreOrdered(locale: Locale, x: string, y: string, z: string)
    requires Collates(locale)
    ensures TextLeq(locale, x, z) || TextLeq(locale, z, x)
    ensures TextLeq(locale, x, y) && TextLeq(locale, y, z) ==> TextLeq(locale, x, z)
  {
  }

  lemma Transitive(locale: Locale, a: Key, b: Key, c: Key)
    requires Collates(locale) && Sane(locale, {a, b, c})
    requires Leq(locale, a, b) && Leq(locale, b, c)
    ensures Leq(locale, a, c)
  {
    assert !NaNClash(b, c, a);
    if a.Num? && b.Num? && c.Num? {
      NumbersAreTransitive(a.number, b.number, c.number);
    } else if !a.Nil? && !b.Nil? && !c.Nil? {
      var x, y, z := Shown(locale, a), Shown(locale, b), Shown(locale, c);
      TextsAreOrdered(locale, x, y, z);
      if a.Num? && b.Num? {
        assert !Crosses(locale, a, b, c);
      } else if b.Num? && c.Num? {
        assert !Crosses(locale, b, c, a);
      } else if a.Num? && c.Num? {
        assert !Crosses(locale, c, a, b);
      }
    }
  }

  lemma ClashBreaks(locale: Locale, a: Key, b: Key, c: Key)
    requires NaNClash(a, b, c)
    ensures Leq(locale, c, a) && Leq(locale, a, b) && !Leq(locale, c, b)
  {
  }

  lemma CrossingBreaks(locale: Locale, a: Key, b: Key, s: Key)
    requires Collates(locale) && Crosses(locale, a, b, s)
    ensures || (Leq(locale, b, s) && Leq(locale, s, a) && !Leq(locale, b, a))
            || (Leq(locale, s, a) && Leq(locale, a, b) && !Leq(locale, s, b))
            || (Leq(locale, a, b) && Leq(locale, b, s) && !Leq(locale, a, s))
  {
    TextsAreOrdered(locale, Shown(locale, a), Shown(locale, s), Shown(locale, b));
  }

  function KeySet<T>(items: seq<T>, key: T -> Key): set<Key> {
    set i | 0 <= i < |items| :: key(items[i])
  }

  /** The comparator orders the items consistently exactly if their keys are sane. */
  lemma ConsistentExactlyWhen<T(!new)>(locale: Locale, items: seq<T>, key: T -> Key)
    requires Collates(locale)
    ensures ConsistentOn(ByKey(locale, key), items) <==> Sane(locale, KeySet(items, key))
  {
    if Sane(locale, KeySet(items, key)) {
      SaneIsConsistent(locale, items, key);
    } else {
      InsaneIsInconsistent(locale, items, key);
    }
  }

  lemma SaneIsConsistent<T(!new)>(locale: Locale, items: seq<T>, key: T -> Key)
    requires Collates(locale) && Sane(locale, KeySet(items, key))
    ensures ConsistentOn(ByKey(locale, key), items)
  {
    var leq := ByKey(locale, key);
    forall x, y | x in items && y in items ensures leq(x, y) || leq(y, x) {
      Comparable(locale, key(x), key(y));
    }
    forall x, y, z | x in items && y in items && z in items && leq(x, y) && leq(y, z) ensures leq(x, z) {
      Subset(locale, KeySet(items, key), {key(x), key(y), key(z)});
      Transitive(locale, key(x), key(y), key(z));
    }
  }

  lemma Subset(locale: Locale, keys: set<Key>, some: set<Key>)
    requires Sane(locale, keys) && some <= keys
    ensures Sane(locale, some)
  {
  }

  lemma InsaneIsInconsistent<T(!new)>(locale: Locale, items: seq<T>, key: T -> Key)
    requires Collates(locale) && !Sane(locale, KeySet(items, key))
    ensures !ConsistentOn(ByKey(locale, key), items)
  {
    var keys, leq := KeySet(items, key), ByKey(locale, key);
    var a, b, c :| a in keys && b in keys && c in keys && (NaNClash(a, b, c) || Crosses(locale, a, b, c));
    var i :| 0 <= i < |items| && key(items[i]) == a;
    var j :| 0 <= j < |items| && key(items[j]) == b;
    var k :| 0 <= k < |items| && key(items[k]) == c;
    var x, y, z := items[i], items[j], items[k];
    if NaNClash(a, b, c) { ClashBreaks(locale, a, b, c); } else { CrossingBreaks(locale, a, b, c); }
    hide NaNClash, Crosses, Leq;
    assert || (leq(z, x) && leq(x, y) && !leq(z, y))
           || (leq(y, z) && leq(z, x) && !leq(y, x))
           || (leq(x, y) && leq(y, z) && !leq(x, z));
  }

  /** Numbers other than NaN only, or no numbers at all, are always sane. */
  lemma OneKindIsSane(locale: Locale, keys: set<Key>)
    requires || (forall k :: k in keys ==> k.Nil? || (k.Num? && k.number != NaN))
             || (forall k :: k in keys ==> !k.Num?)
    ensures Sane(locale, keys)
  {
  }

  /** 2 < 10 as numbers, "10" < "1a" < "2" as texts: the keys 2, 10 and "1a" go round in a circle. */
  lemma MixedKeysGoRound<T(!new)>(locale: Locale, items: seq<T>, key: T -> Key)
    requires locale.numeral(Finite(2.0)) == "2" && locale.numeral(Finite(10.0)) == "10"
    requires Collates(locale) && locale.collate("10", "1a") < 0 && locale.collate("1a", "2") < 0
    requires |items| == 3
    requires key(items[0]) == Num(Finite(2.0)) && key(items[1]) == Num(Finite(10.0)) && key(items[2]) == Str("1a")
    ensures Compare(locale, key(items[0]), key(items[1])) < 0
    ensures Compare(locale, key(items[1]), key(items[2])) < 0
    ensures Compare(locale, key(items[2]), key(items[0])) < 0
    ensures !ConsistentOn(ByKey(locale, key), items)
  {
    assert locale.collate("2", "1a") > 0;
    var leq := ByKey(locale, key);
    assert leq(items[0], items[1]) && leq(items[1], items[2]) && !leq(items[0], items[2]);
  }

  /** The order of code units is one such collation. */
  function CodeOrder(a: string, b: string): int {
    if a == b then 0 else if Before(a, b) then -1 else 1
  }

  lemma TenBeforeTwo()
    ensures CodeOrder("10", "1a") < 0 && CodeOrder("1a", "2") < 0 && CodeOrder("2", "1a") > 0
  {
    assert "10"[1..] == "0" && "1a"[1..] == "a";
  }

  lemma CodeOrderCollates(locale: Locale)
    requires forall a, b :: locale.collate(a, b) == CodeOrder(a, b)
    ensures Collates(locale) && locale.collate("10", "1a") < 0 && locale.collate("1a", "2") < 0
  {
    TenBeforeTwo();
    forall a, b ensures locale.collate(a, b) > 0 <==> locale.collate(b, a) < 0 {
      BeforeIsTotal(a, b);
      if Before(a, b) && Before(b, a) {
        BeforeIsTransitive(a, b, a);
        BeforeIsIrreflexive(a);
      }
    }
    forall a, b, c | TextLeq(locale, a, b) && TextLeq(locale, b, c) ensures TextLeq(locale, a, c) {
      if a != b && b != c { BeforeIsTransitive(a, b, c); }
    }
  }

  // ---------- Sorting ----------

  /** In the order of the numbers; NaN goes with any number. */
  predicate Ascends(a: Number, b: Number) {
    || a == NaN || b == NaN || a == MinusInfinity || b == PlusInfinity
    || (a.Finite? && b.Finite? && a.value <= b.value)
    || (a == PlusInfinity && b == PlusInfinity)
  }

  lemma DifferenceAscends(a: Number, b: Number)
    ensures Difference(a, b) <= 0 <==> Ascends(a, b)
  {
  }

  /** How keys of other kinds are compared: as the texts that `String` makes of them. */
  lemma TextsAreCompared(locale: Locale, n: Number, flag: bool, s: string, t: string)
    ensures Compare(locale, Str(s), Str(t)) == locale.collate(s, t)
    ensures Compare(locale, Num(n), Str(s)) == locale.collate(locale.numeral(n), s)
    ensures Compare(locale, Bool(flag), Str(s)) == locale.collate(if flag then "true" else "false", s)
    ensures Compare(locale, Bool(flag), Num(n)) == locale.collate(if flag then "true" else "false", locale.numeral(n))
    ensures Compare(locale, Bool(false), Bool(true)) == locale.collate("false", "true")
  {
  }

  /** Ascending numbers or collated texts, then the items without a key. */
  ghost predicate Ordered<T>(locale: Locale, s: seq<T>, key: T -> Key) {
    forall i, j :: 0 <= i < j < |s| ==>
      var a, b := key(s[i]), key(s[j]);
      && (a.Nil? ==> b.Nil?)
      && (a.Num? && b.Num? ==> Ascends(a.number, b.number))
      && (!a.Nil? && !b.Nil? && !(a.Num? && b.Num?) ==> TextLeq(locale, Shown(locale, a), Shown(locale, b)))
  }

  /** A sorted, stable rearrangement, and the only one; without sane keys just a rearrangement,
      as ECMA-262 leaves the order to the implementation. */
  method SortByKey<T(!new)>(locale: Locale, snapshot: seq<T>, key: T -> Key) returns (out: seq<T>)
    requires Collates(locale)
    ensures multiset(out) == multiset(snapshot)
    ensures Sane(locale, KeySet(snapshot, key)) ==>
              && Ordered(locale, out, key)
              && forall e :: e in snapshot ==>
                   TiedWith(ByKey(locale, key), e, out) == TiedWith(ByKey(locale, key), e, snapshot)
  {
    out := Sort(ByKey(locale, key), snapshot);
    if Sane(locale, KeySet(snapshot, key)) {
      SaneIsConsistent(locale, snapshot, key);
      SortSorts(ByKey(locale, key), snapshot);
      SortedIsOrdered(locale, out, key);
      forall e | e in snapshot
        ensures TiedWith(ByKey(locale, key), e, out) == TiedWith(ByKey(locale, key), e, snapshot)
      {
        SortIsStable(ByKey(locale, key), e, snapshot);
      }
    }
  }

  lemma SortedIsOrdered<T>(locale: Locale, s: seq<T>, key: T -> Key)
    ensures Sorted(ByKey(locale, key), s) <==> Ordered(locale, s, key)
  {
    var leq := ByKey(locale, key);
    if Sorted(leq, s) {
      forall i, j | 0 <= i < j < |s|
        ensures Leq(locale, key(s[i]), key(s[j]))
      {
        assert leq(s[i], s[j]);
      }
    }
    if Ordered(locale, s, key) {
      forall i, j | 0 <= i < j < |s| ensures leq(s[i], s[j]) {
        var a, b := key(s[i]), key(s[j]);
        assert Leq(locale, a, b);
      }
    }
  }

  /** The outcome of `sortBy` is fixed by its contract: with sane keys, sorted and stable admits one result. */
  lemma SortByIsDetermined<T(!new)>(locale: Locale, items: seq<T>, key: T -> Key, a: seq<T>, b: seq<T>)
    requires Collates(locale) && Sane(locale, KeySet(items, key))
    requires multiset(a) == multiset(items) && multiset(b) == multiset(items)
    requires Ordered(locale, a, key) && Ordered(locale, b, key)
    requires forall e :: e in items ==> TiedWith(ByKey(locale, key), e, a) == TiedWith(ByKey(locale, key), e, items)
    requires forall e :: e in items ==> TiedWith(ByKey(locale, key), e, b) == TiedWith(ByKey(locale, key), e, items)
    ensures a == b
  {
    var leq := ByKey(locale, key);
    SaneIsConsistent(locale, items, key);
    SameMembers(a, items);
    assert ConsistentOn(leq, a);
    SortedIsOrdered(locale, a, key);
    SortedIsOrdered(locale, b, key);
    hide *;
    SortedStableIsUnique(leq, a, b);
  }
}
