/** Grouping, keying, deduplication and chunking of src/collections/Collection.ts.

    Equality of keys is the one that `Map` and `Set` use (SameValueZero of ECMA-262). */
module CollectionGroups {
  import opened Sorting

  /** A `Map`, which is iterated in the order of first insertion. */
  datatype JsMap<K, V> = JsMap(order: seq<K>, at: map<K, V>)

  function Empty<K, V>(): JsMap<K, V> { JsMap([], map[]) }

  /** `Map.prototype.set` (section 24.1.3.9 of ECMA-262): a key that is present keeps its place. */
  function Put<K, V>(m: JsMap<K, V>, k: K, v: V): JsMap<K, V> {
    JsMap(if k in m.at then m.order else m.order + [k], m.at[k := v])
  }

  // ---------- Specification ----------

  /** The keys of the items, each where it is seen first. */
  function Keys<T, K(==)>(items: seq<T>, key: T -> K): seq<K> {
    if items == [] then []
    else
      var front, last := items[..|items| - 1], items[|items| - 1];
      var seen := Keys(front, key);
      if key(last) in seen then seen else seen + [key(last)]
  }

  /** The items with one key, in their order. */
  function Bucket<T, K(==)>(items: seq<T>, key: T -> K, k: K): seq<T> {
    if items == [] then []
    else
      var front, last := items[..|items| - 1], items[|items| - 1];
      Bucket(front, key, k) + if key(last) == k then [last] else []
  }

  /** The indices of these items. */
  function Positions<T, K(==)>(items: seq<T>, key: T -> K, k: K): seq<nat> {
    if items == [] then []
    else
      var n := |items| - 1;
      Positions(items[..n], key, k) + if key(items[n]) == k then [n] else []
  }

  lemma {:induction false} PositionsAreTheIndices<T, K(!new)>(items: seq<T>, key: T -> K, k: K)
    ensures var at := Positions(items, key, k);
            && (forall i, j :: 0 <= i < j < |at| ==> at[i] < at[j])
            && (forall j :: 0 <= j < |at| ==> at[j] < |items|)
            && (forall i :: i in at <==> 0 <= i < |items| && key(items[i]) == k)
  {
    if items != [] {
      var n := |items| - 1;
      PositionsAreTheIndices(items[..n], key, k);
      var before := Positions(items[..n], key, k);
      hide Positions;
      assert items[n] == items[..][n];
      assert forall j :: 0 <= j < |before| ==> before[j] in before;
      var at := before + if key(items[n]) == k then [n] else [];
      assert at == Positions(items, key, k) by { PositionsBelow(items, key, k); }
      forall i ensures i in at <==> 0 <= i < |items| && key(items[i]) == k {
        assert i in at <==> i in before || (i == n && key(items[n]) == k);
        if 0 <= i < n { assert items[..n][i] == items[i]; }
      }
    }
  }

  lemma PositionsBelow<T, K(!new)>(items: seq<T>, key: T -> K, k: K)
    requires items != []
    ensures var n := |items| - 1;
            Positions(items, key, k) == Positions(items[..n], key, k) + if key(items[n]) == k then [n] else []
  {
  }

  /** The recursive definitions say the same as this: a bucket holds the items at the indices where
      the key occurs, in increasing order. */
  lemma {:induction false} BucketIsByPosition<T, K(!new)>(items: seq<T>, key: T -> K, k: K)
    ensures var at := Positions(items, key, k);
            && |Bucket(items, key, k)| == |at|
            && (forall i, j :: 0 <= i < j < |at| ==> at[i] < at[j])
            && (forall i :: i in at <==> 0 <= i < |items| && key(items[i]) == k)
            && (forall j :: 0 <= j < |at| ==> at[j] < |items| && Bucket(items, key, k)[j] == items[at[j]])
  {
    PositionsAreTheIndices(items, key, k);
    BucketItems(items, key, k);
  }

  lemma {:induction false} BucketItems<T, K(!new)>(items: seq<T>, key: T -> K, k: K)
    ensures var at := Positions(items, key, k);
            && |Bucket(items, key, k)| == |at|
            && (forall j :: 0 <= j < |at| ==> at[j] < |items| && Bucket(items, key, k)[j] == items[at[j]])
  {
    if items != [] { BucketItems(items[..|items| - 1], key, k); }
  }

  ghost predicate Occurs<T, K>(items: seq<T>, key: T -> K, k: K) {
    exists i :: 0 <= i < |items| && key(items[i]) == k
  }

  lemma OccursBelow<T, K(!new)>(items: seq<T>, key: T -> K, k: K)
    requires items != []
    ensures Occurs(items, key, k)
            <==> Occurs(items[..|items| - 1], key, k) || key(items[|items| - 1]) == k
  {
    var front := items[..|items| - 1];
    if Occurs(items, key, k) && key(items[|items| - 1]) != k {
      var i :| 0 <= i < |items| && key(items[i]) == k;
      assert front[i] == items[i];
    }
    if Occurs(front, key, k) {
      var i :| 0 <= i < |front| && key(front[i]) == k;
      assert items[i] == front[i];
    }
  }

  lemma {:induction false} KeysAreThoseThatOccur<T, K(!new)>(items: seq<T>, key: T -> K, k: K)
    ensures k in Keys(items, key) <==> Occurs(items, key, k)
    ensures k in Keys(items, key) <==> Bucket(items, key, k) != []
  {
    if items != [] {
      var front := items[..|items| - 1];
      OccursBelow(items, key, k);
      KeysAreThoseThatOccur(front, key, k);
    }
  }

  lemma {:induction false} KeysDoNotRepeat<T, K(!new)>(items: seq<T>, key: T -> K)
    ensures NoRepeats(Keys(items, key))
  {
    if items != [] { KeysDoNotRepeat(items[..|items| - 1], key); }
  }

  lemma SeenEarlier<T, K(!new)>(items: seq<T>, key: T -> K, k: K)
    requires items != [] && k in Keys(items[..|items| - 1], key)
    ensures var p, q := Positions(items[..|items| - 1], key, k), Positions(items, key, k);
            p != [] && q != [] && p[0] == q[0] < |items| - 1
  {
    var front := items[..|items| - 1];
    KeysAreThoseThatOccur(front, key, k);
    BucketIsByPosition(front, key, k);
    assert Positions(front, key, k)[0] in Positions(front, key, k);
  }

  lemma SeenNow<T, K(!new)>(items: seq<T>, key: T -> K)
    requires items != [] && key(items[|items| - 1]) !in Keys(items[..|items| - 1], key)
    ensures Positions(items, key, key(items[|items| - 1])) == [|items| - 1]
  {
    var front, k := items[..|items| - 1], key(items[|items| - 1]);
    KeysAreThoseThatOccur(front, key, k);
    BucketIsByPosition(front, key, k);
  }

  /** Of two keys, the one seen first comes first. */
  lemma {:induction false} KeysAreInFirstSeenOrder<T, K(!new)>(items: seq<T>, key: T -> K, i: nat, j: nat)
    requires i < j < |Keys(items, key)|
    ensures var p, q := Positions(items, key, Keys(items, key)[i]), Positions(items, key, Keys(items, key)[j]);
            p != [] && q != [] && p[0] < q[0]
  {
    var n := |items| - 1;
    var front, seen := items[..n], Keys(items[..n], key);
    assert Keys(items, key) == seen + if key(items[n]) in seen then [] else [key(items[n])];
    if j < |seen| {
      KeysAreInFirstSeenOrder(front, key, i, j);
      SeenEarlier(items, key, seen[i]);
      SeenEarlier(items, key, seen[j]);
    } else {
      SeenEarlier(items, key, seen[i]);
      SeenNow(items, key);
    }
  }

  /** Every item is in exactly one bucket, and once. */
  lemma BucketsPartition<T, K(!new)>(items: seq<T>, key: T -> K, i: nat)
    requires i < |items|
    ensures key(items[i]) in Keys(items, key) && i in Positions(items, key, key(items[i]))
    ensures forall k :: k in Keys(items, key) && i in Positions(items, key, k) ==> k == key(items[i])
    ensures NoRepeats(Keys(items, key)) && NoRepeats(Positions(items, key, key(items[i])))
  {
    hide *;
    EachHasItsKey(items, key, i);
    KeysDoNotRepeat(items, key);
    NoIndexTwice(items, key, key(items[i]));
    forall k | i in Positions(items, key, k) ensures k == key(items[i]) {
      PositionsAreTheIndices(items, key, k);
    }
  }

  lemma EachHasItsKey<T, K(!new)>(items: seq<T>, key: T -> K, i: nat)
    requires i < |items|
    ensures key(items[i]) in Keys(items, key) && i in Positions(items, key, key(items[i]))
  {
    hide Keys, Positions;
    KeysAreThoseThatOccur(items, key, key(items[i]));
    PositionsAreTheIndices(items, key, key(items[i]));
  }

  lemma NoIndexTwice<T, K(!new)>(items: seq<T>, key: T -> K, k: K)
    ensures NoRepeats(Positions(items, key, k))
  {
    hide Positions;
    PositionsAreTheIndices(items, key, k);
  }

  // ---------- groupBy and keyBy ----------

  ghost predicate Groups<T, K(!new)>(m: JsMap<K, seq<T>>, items: seq<T>, key: T -> K) {
    && m.order == Keys(items, key)
    && (forall k :: k in m.at <==> k in m.order)
    && (forall k :: k in m.at ==> m.at[k] == Bucket(items, key, k))
  }

  lemma GrowByOne<T, K(!new)>(items: seq<T>, key: T -> K, i: nat)
    requires i < |items|
    ensures Keys(items[..i + 1], key)
            == Keys(items[..i], key) + if key(items[i]) in Keys(items[..i], key) then [] else [key(items[i])]
    ensures forall k ::
              Bucket(items[..i + 1], key, k)
              == Bucket(items[..i], key, k) + if key(items[i]) == k then [items[i]] else []
    ensures key(items[i]) in Keys(items[..i], key) <==> Bucket(items[..i], key, key(items[i])) != []
  {
    assert items[..i + 1][..i] == items[..i];
    KeysAreThoseThatOccur(items[..i], key, key(items[i]));
  }

  lemma GroupsGrow<T, K(!new)>(m: JsMap<K, seq<T>>, items: seq<T>, key: T -> K, i: nat)
    requires i < |items| && Groups(m, items[..i], key)
    ensures var k := key(items[i]);
            Groups(if k in m.at then m.(at := m.at[k := m.at[k] + [items[i]]]) else Put(m, k, [items[i]]),
                   items[..i + 1], key)
  {
    GrowByOne(items, key, i);
    hide Keys, Bucket;
  }

  /** The groups are the buckets, in the order in which their keys were first seen. */
  method GroupByItems<T, K(==, !new)>(snapshot: seq<T>, key: T -> K) returns (out: JsMap<K, seq<T>>)
    ensures Groups(out, snapshot, key)
  {
    var groups: JsMap<K, seq<T>> := Empty();
    for i := 0 to |snapshot|
      invariant Groups(groups, snapshot[..i], key)
    {
      var item := snapshot[i];
      var k := key(item);
      GroupsGrow(groups, snapshot, key, i);
      if k in groups.at {
        groups := groups.(at := groups.at[k := groups.at[k] + [item]]);
      } else {
        groups := Put(groups, k, [item]);
      }
    }
    assert snapshot[..|snapshot|] == snapshot;

    out := Empty();
    hide Keys, Bucket;
    ghost var all := Keys(snapshot, key);
    KeysDoNotRepeat(snapshot, key);
    for j := 0 to |groups.order|
      invariant out.order == all[..j]
      invariant forall k :: k in out.at <==> k in out.order
      invariant forall k :: k in out.at ==> k in groups.at && out.at[k] == groups.at[k]
    {
      var k := groups.order[j];
      assert k !in all[..j];
      out := Put(out, k, groups.at[k]);
    }
    assert all[..|all|] == all;
  }

  ghost predicate KeyedByLast<T, K(!new)>(m: JsMap<K, T>, items: seq<T>, key: T -> K) {
    && m.order == Keys(items, key)
    && (forall k :: k in m.at <==> k in m.order)
    && (forall k :: k in m.at ==>
          var bucket := Bucket(items, key, k);
          bucket != [] && m.at[k] == bucket[|bucket| - 1])
  }

  lemma KeyedByLastGrows<T, K(!new)>(m: JsMap<K, T>, items: seq<T>, key: T -> K, i: nat)
    requires i < |items| && KeyedByLast(m, items[..i], key)
    ensures KeyedByLast(Put(m, key(items[i]), items[i]), items[..i + 1], key)
  {
    GrowByOne(items, key, i);
    hide Keys, Bucket;
  }

  /** Each key leads to the last item of its bucket. */
  method KeyByItems<T, K(==, !new)>(snapshot: seq<T>, key: T -> K) returns (out: JsMap<K, T>)
    ensures KeyedByLast(out, snapshot, key)
  {
    out := Empty();
    for i := 0 to |snapshot|
      invariant KeyedByLast(out, snapshot[..i], key)
    {
      KeyedByLastGrows(out, snapshot, key, i);
      out := Put(out, key(snapshot[i]), snapshot[i]);
    }
    assert snapshot[..|snapshot|] == snapshot;
  }

  // ---------- unique ----------

  /** `out` holds the first item of each bucket, in key order. */
  ghost predicate Firsts<T, K>(out: seq<T>, items: seq<T>, key: T -> K) {
    var keys := Keys(items, key);
    && |out| == |keys|
    && forall j :: 0 <= j < |keys| ==>
         var bucket := Bucket(items, key, keys[j]);
         bucket != [] && out[j] == bucket[0]
  }

  lemma NothingYet<T, K(!new)>(items: seq<T>, key: T -> K)
    ensures Keys(items[..0], key) == [] && Firsts([], items[..0], key)
  {
  }

  lemma FirstsGrow<T, K(!new)>(out: seq<T>, items: seq<T>, key: T -> K, i: nat)
    requires i < |items| && Firsts(out, items[..i], key)
    ensures Firsts(if key(items[i]) in Keys(items[..i], key) then out else out + [items[i]], items[..i + 1], key)
  {
    GrowByOne(items, key, i);
    hide Keys, Bucket;
    var keys := Keys(items[..i], key);
    forall j | 0 <= j < |keys|
      ensures Bucket(items[..i + 1], key, keys[j]) != []
              && Bucket(items[..i + 1], key, keys[j])[0] == Bucket(items[..i], key, keys[j])[0]
    {
    }
  }

  method UniqueItems<T, K(==, !new)>(snapshot: seq<T>, key: T -> K) returns (out: seq<T>)
    ensures Firsts(out, snapshot, key)
  {
    hide *;
    var seen: set<K> := {};
    NothingYet(snapshot, key);
    out := [];
    for i := 0 to |snapshot|
      invariant forall k :: k in seen <==> k in Keys(snapshot[..i], key)
      invariant Firsts(out, snapshot[..i], key)
    {
      var item := snapshot[i];
      var k := key(item);
      GrowByOne(snapshot, key, i);
      FirstsGrow(out, snapshot, key, i);
      if k in seen { continue; }
      seen := seen + {k};
      out := out + [item];
    }
    assert snapshot[..|snapshot|] == snapshot;
  }

  ghost predicate DistinctKeys<T, K>(items: seq<T>, key: T -> K) {
    forall i, j :: 0 <= i < j < |items| ==> key(items[i]) != key(items[j])
  }

  lemma {:induction false} KeysOfDistinct<T, K(!new)>(items: seq<T>, key: T -> K)
    requires DistinctKeys(items, key)
    ensures |Keys(items, key)| == |items|
    ensures forall i :: 0 <= i < |items| ==> Keys(items, key)[i] == key(items[i])
    ensures forall i :: 0 <= i < |items| ==> Bucket(items, key, key(items[i])) == [items[i]]
  {
    if items != [] {
      var n := |items| - 1;
      var front, k := items[..n], key(items[n]);
      KeysOfDistinct(front, key);
      KeysAreThoseThatOccur(front, key, k);
    }
  }

  lemma FirstsHaveTheirKeys<T, K(!new)>(out: seq<T>, items: seq<T>, key: T -> K)
    requires Firsts(out, items, key)
    ensures forall j :: 0 <= j < |out| ==> key(out[j]) == Keys(items, key)[j]
    ensures DistinctKeys(out, key)
  {
    var keys := Keys(items, key);
    forall j | 0 <= j < |out| ensures key(out[j]) == keys[j] {
      BucketIsByPosition(items, key, keys[j]);
      var at := Positions(items, key, keys[j]);
      assert at[0] in at;
    }
    KeysDoNotRepeat(items, key);
  }

  /** Deduplication leaves no two items with one key, changes nothing exactly if there were none, and
      so changes nothing the second time. */
  lemma UniqueIsIdempotent<T, K(!new)>(items: seq<T>, key: T -> K, once: seq<T>, twice: seq<T>)
    requires Firsts(once, items, key) && Firsts(twice, once, key)
    ensures DistinctKeys(once, key) && (once == items <==> DistinctKeys(items, key))
    ensures twice == once
  {
    FirstsHaveTheirKeys(once, items, key);
    FirstsOfDistinct(twice, once, key);
    if DistinctKeys(items, key) { FirstsOfDistinct(once, items, key); }
  }

  lemma FirstsOfDistinct<T, K(!new)>(out: seq<T>, items: seq<T>, key: T -> K)
    requires Firsts(out, items, key) && DistinctKeys(items, key)
    ensures out == items
  {
    KeysOfDistinct(items, key);
  }

  // ---------- chunk ----------

  /** The argument of `chunk`: a number that may be NaN or infinite. */
  datatype Size = Finite(value: real) | NotFinite

  function Flatten<T>(chunks: seq<seq<T>>): seq<T> {
    if chunks == [] then [] else Flatten(chunks[..|chunks| - 1]) + chunks[|chunks| - 1]
  }

  /** All chunks have `n` items, except that the last may have fewer. */
  ghost predicate Even<T>(chunks: seq<seq<T>>, n: nat) {
    && (forall i :: 0 <= i < |chunks| ==> 1 <= |chunks[i]| <= n)
    && (forall i :: 0 <= i < |chunks| - 1 ==> |chunks[i]| == n)
  }

  /** What the loop has done when it stands at `i`. */
  ghost predicate Chunked<T>(chunks: seq<seq<T>>, items: seq<T>, i: nat, n: nat) {
    && Flatten(chunks) == (if i <= |items| then items[..i] else items)
    && Even(chunks, n)
    && (i <= |items| ==> forall j :: 0 <= j < |chunks| ==> |chunks[j]| == n)
  }

  lemma NoChunks<T>(items: seq<T>, n: nat)
    ensures Chunked([], items, 0, n)
  {
  }

  lemma ChunkAdded<T>(chunks: seq<seq<T>>, items: seq<T>, i: nat, n: nat)
    requires i < |items| && n > 0 && Chunked(chunks, items, i, n)
    ensures Chunked(chunks + [Slice(items, i, i + n)], items, i + n, n)
  {
    var chunk := Slice(items, i, i + n);
    assert (chunks + [chunk])[..|chunks|] == chunks;
    assert Flatten(chunks + [chunk]) == items[..i] + chunk;
  }

  lemma AllChunked<T>(chunks: seq<seq<T>>, items: seq<T>, i: nat, n: nat)
    requires i >= |items| && Chunked(chunks, items, i, n)
    ensures Flatten(chunks) == items && Even(chunks, n)
  {
  }

  /** `slice(from, to)`, which stops at the end of the list. */
  function Slice<T>(items: seq<T>, from: nat, to: nat): seq<T>
    requires from <= |items| && from <= to
  {
    items[from..if to <= |items| then to else |items|]
  }

  method ChunkItems<T>(snapshot: seq<T>, size: Size) returns (out: seq<seq<T>>)
    ensures size.NotFinite? || size.value < 1.0 ==> out == []
    ensures size.Finite? && size.value >= 1.0 ==> Flatten(out) == snapshot && Even(out, size.value.Floor)
  {
    if size.NotFinite? || size.value.Floor <= 0 { return []; }
    var n := size.value.Floor;
    hide *;
    out := [];
    var i := 0;
    NoChunks(snapshot, n);
    while i < |snapshot|
      invariant Chunked(out, snapshot, i, n)
    {
      ChunkAdded(out, snapshot, i, n);
      out := out + [Slice(snapshot, i, i + n)];
      i := i + n;
    }
    AllChunked(out, snapshot, i, n);
  }

  lemma {:induction false} FlattenFrom<T>(chunks: seq<seq<T>>)
    requires chunks != []
    ensures Flatten(chunks) == chunks[0] + Flatten(chunks[1..])
  {
    if |chunks| > 1 {
      var n := |chunks| - 1;
      FlattenFrom(chunks[..n]);
      assert chunks[..n][1..] == chunks[1..][..n - 1];
    } else {
      assert chunks[1..] == [] && chunks[..0] == [];
    }
  }

  /** The chunks are determined by their size and by the list they come from. */
  lemma {:induction false} ChunksAreDetermined<T>(a: seq<seq<T>>, b: seq<seq<T>>, n: nat)
    requires Even(a, n) && Even(b, n) && Flatten(a) == Flatten(b)
    ensures a == b
  {
    if a != [] && b != [] {
      FlattenFrom(a);
      FlattenFrom(b);
      SameFirstChunk(a, b, n);
      ChunksAreDetermined(a[1..], b[1..], n);
      assert a == [a[0]] + a[1..] && b == [b[0]] + b[1..];
    } else {
      if a != [] { FlattenFrom(a); }
      if b != [] { FlattenFrom(b); }
    }
  }

  lemma SameFirstChunk<T>(a: seq<seq<T>>, b: seq<seq<T>>, n: nat)
    requires Even(a, n) && Even(b, n) && a != [] && b != []
    requires a[0] + Flatten(a[1..]) == b[0] + Flatten(b[1..])
    ensures a[0] == b[0] && Flatten(a[1..]) == Flatten(b[1..])
  {
    var s := a[0] + Flatten(a[1..]);
    if |a| > 1 { FlattenFrom(a[1..]); }
    if |b| > 1 { FlattenFrom(b[1..]); }
    assert |a| == 1 ==> Flatten(a[1..]) == [];
    assert |b| == 1 ==> Flatten(b[1..]) == [];
    assert |a[0]| == |b[0]|;
    assert a[0] == s[..|a[0]|] && b[0] == s[..|a[0]|];
    assert Flatten(a[1..]) == s[|a[0]|..] && Flatten(b[1..]) == s[|a[0]|..];
  }
}
