/** `Array.prototype.sort` (section 23.1.3.30 of ECMA-262): a stable sort, specified by a function
    whose result is shown to be the only sorted, stable rearrangement of its input. */
module Sorting {
  /** `leq` compares the elements of `s` consistently: any two are comparable, and transitively. */
  ghost predicate ConsistentOn<T(!new)>(leq: (T, T) -> bool, s: seq<T>) {
    && (forall x, y :: x in s && y in s ==> leq(x, y) || leq(y, x))
    && (forall x, y, z :: x in s && y in s && z in s && leq(x, y) && leq(y, z) ==> leq(x, z))
  }

  ghost predicate Sorted<T>(leq: (T, T) -> bool, s: seq<T>) {
    forall i, j :: 0 <= i < j < |s| ==> leq(s[i], s[j])
  }

  function Insert<T>(leq: (T, T) -> bool, x: T, s: seq<T>): (r: seq<T>)
    ensures multiset(r) == multiset(s) + multiset{x}
  {
    if s == [] then [x]
    else
      assert s == [s[0]] + s[1..];
      if leq(s[0], x) then [s[0]] + Insert(leq, x, s[1..]) else [x] + s
  }

  function Sort<T>(leq: (T, T) -> bool, s: seq<T>): (r: seq<T>)
    ensures multiset(r) == multiset(s)
    ensures |r| == |s|
  {
    if s == [] then []
    else
      assert s == s[..|s| - 1] + [s[|s| - 1]];
      var r := Insert(leq, s[|s| - 1], Sort(leq, s[..|s| - 1]));
      SameSize(r, s);
      r
  }

  lemma SameSize<T>(a: seq<T>, b: seq<T>)
    requires multiset(a) == multiset(b)
    ensures |a| == |b|
  {
    assert |multiset(a)| == |a| && |multiset(b)| == |b|;
  }

  lemma SameMembers<T>(a: seq<T>, b: seq<T>)
    requires multiset(a) == multiset(b)
    ensures forall x :: x in a <==> x in b
  {
    forall x ensures x in a <==> x in b {
      assert x in a <==> x in multiset(a);
      assert x in b <==> x in multiset(b);
    }
  }

  lemma SortedBehind<T>(leq: (T, T) -> bool, x: T, s: seq<T>)
    requires Sorted(leq, s) && forall y :: y in s ==> leq(x, y)
    ensures Sorted(leq, [x] + s)
  {
  }

  lemma {:induction false} InsertKeepsSorted<T(!new)>(leq: (T, T) -> bool, x: T, s: seq<T>, all: seq<T>)
    requires Sorted(leq, s) && ConsistentOn(leq, all) && x in all && forall y :: y in s ==> y in all
    ensures Sorted(leq, Insert(leq, x, s))
  {
    if s != [] {
      if leq(s[0], x) {
        InsertKeepsSorted(leq, x, s[1..], all);
        var r := Insert(leq, x, s[1..]);
        SameMembers(r, s[1..] + [x]);
        SortedBehind(leq, s[0], r);
      } else {
        forall y | y in s ensures leq(x, y) {
          assert s[0] in all && y in all;
          assert y == s[0] || leq(s[0], y);
        }
        SortedBehind(leq, x, s);
      }
    }
  }

  lemma {:induction false} SortSorts<T(!new)>(leq: (T, T) -> bool, s: seq<T>)
    requires ConsistentOn(leq, s)
    ensures Sorted(leq, Sort(leq, s))
  {
    if s != [] {
      var front, last := s[..|s| - 1], s[|s| - 1];
      assert forall y :: y in front ==> y in s;
      SortSorts(leq, front);
      SameMembers(Sort(leq, front), front);
      InsertKeepsSorted(leq, last, Sort(leq, front), s);
    }
  }

  // ---------- Stability ----------

  predicate Ties<T>(leq: (T, T) -> bool, x: T, y: T) { leq(x, y) && leq(y, x) }

  /** The elements of `s` that compare equal to `e`, in the order of `s`. */
  function TiedWith<T>(leq: (T, T) -> bool, e: T, s: seq<T>): seq<T> {
    if s == [] then []
    else if Ties(leq, s[0], e) then [s[0]] + TiedWith(leq, e, s[1..])
    else TiedWith(leq, e, s[1..])
  }

  lemma {:induction false} TiedWithConcat<T>(leq: (T, T) -> bool, e: T, a: seq<T>, b: seq<T>)
    ensures TiedWith(leq, e, a + b) == TiedWith(leq, e, a) + TiedWith(leq, e, b)
  {
    if a == [] {
      assert a + b == b;
    } else {
      assert (a + b)[1..] == a[1..] + b;
      TiedWithConcat(leq, e, a[1..], b);
    }
  }

  /** The later of two tied elements is inserted behind the earlier one. */
  lemma {:induction false} InsertIsStableFor<T(!new)>(leq: (T, T) -> bool, e: T, x: T, s: seq<T>, all: seq<T>)
    requires Sorted(leq, s) && ConsistentOn(leq, all) && e in all && x in all
    requires forall y :: y in s ==> y in all
    ensures TiedWith(leq, e, Insert(leq, x, s)) == TiedWith(leq, e, s) + TiedWith(leq, e, [x])
  {
    if s != [] {
      if leq(s[0], x) {
        InsertIsStableFor(leq, e, x, s[1..], all);
        var r := Insert(leq, x, s[1..]);
        assert ([s[0]] + r)[1..] == r;
      } else {
        assert ([x] + s)[1..] == s;
        if Ties(leq, x, e) {
          forall y | y in s ensures !Ties(leq, y, e) {
            assert s[0] in all && y in all;
            assert y == s[0] || leq(s[0], y);
          }
          NoneTied(leq, e, s);
        }
      }
    }
  }

  lemma {:induction false} NoneTied<T>(leq: (T, T) -> bool, e: T, s: seq<T>)
    requires forall y :: y in s ==> !Ties(leq, y, e)
    ensures TiedWith(leq, e, s) == []
  {
    if s != [] { NoneTied(leq, e, s[1..]); }
  }

  /** Sorting keeps the order of the elements that compare equal. */
  lemma {:induction false} SortIsStable<T(!new)>(leq: (T, T) -> bool, e: T, s: seq<T>)
    requires ConsistentOn(leq, s) && e in s
    ensures TiedWith(leq, e, Sort(leq, s)) == TiedWith(leq, e, s)
  {
    SortIsStableFor(leq, e, s, s);
  }

  lemma {:induction false} SortIsStableFor<T(!new)>(leq: (T, T) -> bool, e: T, s: seq<T>, all: seq<T>)
    requires ConsistentOn(leq, all) && e in all && forall y :: y in s ==> y in all
    ensures TiedWith(leq, e, Sort(leq, s)) == TiedWith(leq, e, s)
  {
    if s != [] {
      var front, last := s[..|s| - 1], s[|s| - 1];
      assert s == front + [last];
      SortIsStableFor(leq, e, front, all);
      SortSorts(leq, front);
      SameMembers(Sort(leq, front), front);
      InsertIsStableFor(leq, e, last, Sort(leq, front), all);
      TiedWithConcat(leq, e, front, [last]);
    }
  }

  // ---------- Uniqueness ----------

  lemma HeadIsLeast<T>(leq: (T, T) -> bool, s: seq<T>, x: T)
    requires Sorted(leq, s) && x in s && leq(x, x)
    ensures leq(s[0], x)
  {
    var i :| 0 <= i < |s| && s[i] == x;
    if i > 0 { assert leq(s[0], s[i]); }
  }

  lemma HeadsTie<T(!new)>(leq: (T, T) -> bool, a: seq<T>, b: seq<T>)
    requires ConsistentOn(leq, a) && Sorted(leq, a) && Sorted(leq, b)
    requires multiset(a) == multiset(b) && a != []
    ensures |a| == |b| && b[0] in a && Ties(leq, b[0], a[0]) && leq(a[0], a[0])
  {
    SameSize(a, b);
    SameMembers(a, b);
    assert a[0] in a && b[0] in b;
    HeadIsLeast(leq, a, b[0]);
    HeadIsLeast(leq, b, a[0]);
  }

  lemma TailsMatch<T>(a: seq<T>, b: seq<T>)
    requires multiset(a) == multiset(b) && a != [] && b != [] && a[0] == b[0]
    ensures multiset(a[1..]) == multiset(b[1..])
  {
    assert a == [a[0]] + a[1..] && b == [b[0]] + b[1..];
    assert multiset(a[1..]) == multiset(a) - multiset{a[0]};
    assert multiset(b[1..]) == multiset(b) - multiset{b[0]};
  }

  lemma TiedTails<T>(leq: (T, T) -> bool, e: T, a: seq<T>, b: seq<T>)
    requires a != [] && b != [] && a[0] == b[0] && TiedWith(leq, e, a) == TiedWith(leq, e, b)
    ensures TiedWith(leq, e, a[1..]) == TiedWith(leq, e, b[1..])
  {
    if Ties(leq, a[0], e) {
      assert TiedWith(leq, e, a)[1..] == TiedWith(leq, e, a[1..]);
      assert TiedWith(leq, e, b)[1..] == TiedWith(leq, e, b[1..]);
    }
  }

  lemma SortedTail<T>(leq: (T, T) -> bool, s: seq<T>)
    requires s != [] && Sorted(leq, s)
    ensures Sorted(leq, s[1..])
  {
  }

  lemma TailConditions<T(!new)>(leq: (T, T) -> bool, s: seq<T>)
    requires s != [] && ConsistentOn(leq, s) && Sorted(leq, s)
    ensures ConsistentOn(leq, s[1..]) && Sorted(leq, s[1..])
  {
    assert forall x :: x in s[1..] ==> x in s;
  }

  /** A sorted sequence is determined by its elements and by the order inside each tie. */
  lemma {:induction false} SortedStableIsUnique<T(!new)>(leq: (T, T) -> bool, a: seq<T>, b: seq<T>)
    requires ConsistentOn(leq, a) && Sorted(leq, a) && Sorted(leq, b)
    requires multiset(a) == multiset(b)
    requires forall e :: e in a ==> TiedWith(leq, e, a) == TiedWith(leq, e, b)
    ensures a == b
  {
    if a == [] {
      SameSize(a, b);
    } else {
      HeadsTie(leq, a, b);
      TailConditions(leq, a);
      SortedTail(leq, b);
      hide ConsistentOn, Sorted;
      assert TiedWith(leq, a[0], a)[0] == a[0];
      assert TiedWith(leq, a[0], b)[0] == b[0];
      TailsMatch(a, b);
      forall e | e in a[1..] ensures TiedWith(leq, e, a[1..]) == TiedWith(leq, e, b[1..]) {
        TiedTails(leq, e, a, b);
      }
      SortedStableIsUnique(leq, a[1..], b[1..]);
      assert a == [a[0]] + a[1..] && b == [b[0]] + b[1..];
    }
  }

  /** Where only equal elements tie, the sorted rearrangement does not depend on the input order. */
  lemma {:induction false} SortedIsUnique<T(!new)>(leq: (T, T) -> bool, a: seq<T>, b: seq<T>)
    requires ConsistentOn(leq, a) && Sorted(leq, a) && Sorted(leq, b)
    requires multiset(a) == multiset(b)
    requires forall x, y :: x in a && y in a && Ties(leq, x, y) ==> x == y
    ensures a == b
  {
    if a == [] {
      SameSize(a, b);
    } else {
      HeadsTie(leq, a, b);
      TailConditions(leq, a);
      SortedTail(leq, b);
      TailsMatch(a, b);
      hide ConsistentOn, Sorted;
      assert forall x :: x in a[1..] ==> x in a;
      SortedIsUnique(leq, a[1..], b[1..]);
      assert a == [a[0]] + a[1..] && b == [b[0]] + b[1..];
    }
  }

  // ---------- Sequences without repeats ----------

  ghost predicate NoRepeats<T>(s: seq<T>) {
    forall i, j :: 0 <= i < j < |s| ==> s[i] != s[j]
  }

  lemma {:induction false} NoRepeatsCount<T>(s: seq<T>, x: T)
    requires NoRepeats(s)
    ensures multiset(s)[x] == if x in s then 1 else 0
  {
    if s != [] {
      var front, last := s[..|s| - 1], s[|s| - 1];
      assert s == front + [last];
      NoRepeatsCount(front, x);
      assert x == last ==> x !in front;
    }
  }

  lemma RepeatsCount<T>(s: seq<T>, i: nat, j: nat)
    requires i < j < |s| && s[i] == s[j]
    ensures multiset(s)[s[i]] >= 2
  {
    assert s == s[..j] + [s[j]] + s[j + 1..];
    assert s[i] in s[..j];
  }

  /** Without repeats, the members decide the multiset. */
  lemma SameMembersSameMultiset<T>(a: seq<T>, b: seq<T>)
    requires NoRepeats(a) && NoRepeats(b) && forall x :: x in a <==> x in b
    ensures multiset(a) == multiset(b)
  {
    forall x ensures multiset(a)[x] == multiset(b)[x] {
      NoRepeatsCount(a, x);
      NoRepeatsCount(b, x);
    }
  }

  lemma SortKeepsNoRepeats<T>(leq: (T, T) -> bool, s: seq<T>)
    requires NoRepeats(s)
    ensures NoRepeats(Sort(leq, s))
  {
    var r := Sort(leq, s);
    forall i, j | 0 <= i < j < |r| ensures r[i] != r[j] {
      if r[i] == r[j] {
        RepeatsCount(r, i, j);
        NoRepeatsCount(s, r[i]);
      }
    }
  }

  function Members<T>(s: seq<T>): set<T> { set x | x in s }

  lemma {:induction false} MembersSize<T>(s: seq<T>)
    requires NoRepeats(s)
    ensures |Members(s)| == |s|
  {
    if s != [] {
      var front, last := s[..|s| - 1], s[|s| - 1];
      MembersSize(front);
      assert Members(s) == Members(front) + {last};
      assert last !in front;
    }
  }

  lemma {:induction false} SubsetIsSmaller<T>(a: set<T>, b: set<T>)
    requires a <= b
    ensures |a| <= |b|
  {
    assert a + (b - a) == b;
  }
}
