/** The chain's view of its tiers: a stable ascending sort by level, built
    once at construction, and the first-occurrence lookup used to bound the
    backfill. */
module Ordering {
  import opened Storages

  /** No object appears twice. */
  predicate Distinct<X(==)>(s: seq<X>)
  {
    forall i, j :: 0 <= i < |s| && 0 <= j < |s| && i != j ==> s[i] != s[j]
  }

  /** List.IndexOf: the index of the first occurrence of `x`, or -1. */
  function IndexOf<X(==)>(s: seq<X>, x: X): (r: int)
    ensures -1 <= r < |s|
    ensures r == -1 <==> x !in s
    ensures 0 <= r ==> s[r] == x
  {
    if s == [] then -1
    else if s[0] == x then 0
    else
      var r := IndexOf(s[1..], x);
      if r == -1 then -1 else r + 1
  }

  /** IndexOf finds the first occurrence: `x` does not occur before it. */
  lemma {:induction false} IndexOfIsFirst<X>(s: seq<X>, x: X)
    ensures 0 <= IndexOf(s, x) ==> x !in s[..IndexOf(s, x)]
  {
    if s != [] && s[0] != x {
      IndexOfIsFirst(s[1..], x);
      var r := IndexOf(s[1..], x);
      if 0 <= r {
        assert s[..r + 1] == [s[0]] + s[1..][..r];
      }
    }
  }

  /** In a list without repeats, the first occurrence of the element at
      index k is k itself. */
  lemma IndexOfDistinct<X>(s: seq<X>, k: nat)
    requires Distinct(s) && k < |s|
    ensures IndexOf(s, s[k]) == k
  {
  }

  predicate SortedByLevel<T>(s: seq<Storage<T>>)
  {
    forall i, j :: 0 <= i < j < |s| ==> s[i].level <= s[j].level
  }

  /** The tiers of `s` at level `l`, in their order in `s`. */
  function WithLevel<T>(s: seq<Storage<T>>, l: int): seq<Storage<T>>
  {
    if s == [] then [] else (if s[0].level == l then [s[0]] else []) + WithLevel(s[1..], l)
  }

  /** Inserts `x` before the first tier whose level is not below its own. */
  function Insert<T>(x: Storage<T>, s: seq<Storage<T>>): (r: seq<Storage<T>>)
    requires SortedByLevel(s)
    ensures SortedByLevel(r)
    ensures multiset(r) == multiset(s) + multiset{x}
    ensures r[0] == x || (s != [] && r[0] == s[0])
  {
    if s == [] || x.level <= s[0].level then
      ConsSorted(x, s);
      [x] + s
    else
      assert s == [s[0]] + s[1..];
      var rest := Insert(x, s[1..]);
      ConsSorted(s[0], rest);
      [s[0]] + rest
  }

  /** A tier no higher than the head of a sorted sequence can be put in front. */
  lemma ConsSorted<T>(h: Storage<T>, s: seq<Storage<T>>)
    requires SortedByLevel(s) && (s != [] ==> h.level <= s[0].level)
    ensures SortedByLevel([h] + s)
  {
    var r := [h] + s;
    forall i, j | 0 <= i < j < |r|
      ensures r[i].level <= r[j].level
    {
      if i > 0 {
        assert r[i] == s[i - 1] && r[j] == s[j - 1];
      } else {
        assert r[j] == s[j - 1];
      }
    }
  }

  /** A non-empty sequence lists its head at the head's level. */
  lemma HeadIsListed<T>(s: seq<Storage<T>>)
    requires s != []
    ensures WithLevel(s, s[0].level) != []
  {
  }

  /** Inserting `x` puts it ahead of every tier at its own level. */
  lemma {:induction false} InsertKeepsLevelOrder<T>(x: Storage<T>, s: seq<Storage<T>>, l: int)
    requires SortedByLevel(s)
    ensures WithLevel(Insert(x, s), l) == (if x.level == l then [x] else []) + WithLevel(s, l)
  {
    if s == [] || x.level <= s[0].level {
      WithLevelCons(x, s, l);
    } else {
      var rest := Insert(x, s[1..]);
      assert Insert(x, s) == [s[0]] + rest;
      assert s == [s[0]] + s[1..];
      InsertKeepsLevelOrder(x, s[1..], l);
      WithLevelCons(s[0], rest, l);
      WithLevelCons(s[0], s[1..], l);
      var w := WithLevel(s[1..], l);
      if x.level == l {
        assert s[0].level != l;
        assert WithLevel(rest, l) == [x] + w;
        assert WithLevel(Insert(x, s), l) == [] + ([x] + w);
        assert WithLevel(s, l) == [] + w;
      } else {
        assert WithLevel(rest, l) == [] + w;
      }
    }
  }

  /** Listing by level a sequence with a tier put in front. */
  lemma WithLevelCons<T>(h: Storage<T>, s: seq<Storage<T>>, l: int)
    ensures WithLevel([h] + s, l) == (if h.level == l then [h] else []) + WithLevel(s, l)
  {
    assert ([h] + s)[1..] == s;
  }

  /** Putting in front a tier not in a repeat-free sequence keeps it free of repeats. */
  lemma DistinctCons<X>(h: X, s: seq<X>)
    requires Distinct(s) && h !in s
    ensures Distinct([h] + s)
  {
    var r := [h] + s;
    forall i, j | 0 <= i < |r| && 0 <= j < |r| && i != j
      ensures r[i] != r[j]
    {
      if i > 0 && j > 0 {
        assert r[i] == s[i - 1] && r[j] == s[j - 1];
      } else if i == 0 {
        assert r[j] == s[j - 1];
      } else {
        assert r[i] == s[i - 1];
      }
    }
  }

  /** The tail of a repeat-free sequence is repeat-free and lacks the head. */
  lemma DistinctTail<X>(s: seq<X>)
    requires s != [] && Distinct(s)
    ensures Distinct(s[1..]) && s[0] !in s[1..]
  {
    forall i, j | 0 <= i < |s[1..]| && 0 <= j < |s[1..]| && i != j
      ensures s[1..][i] != s[1..][j]
    {
      assert s[1..][i] == s[i + 1] && s[1..][j] == s[j + 1];
    }
  }

  /** Inserting a tier not yet present keeps the tiers distinct. */
  lemma {:induction false} InsertKeepsDistinct<T>(x: Storage<T>, s: seq<Storage<T>>)
    requires SortedByLevel(s) && Distinct(s) && x !in s
    ensures Distinct(Insert(x, s))
  {
    if s == [] || x.level <= s[0].level {
      DistinctCons(x, s);
    } else {
      var rest := Insert(x, s[1..]);
      assert s == [s[0]] + s[1..];
      DistinctTail(s);
      InsertKeepsDistinct(x, s[1..]);
      assert s[0] !in multiset(s[1..]) + multiset{x};
      DistinctCons(s[0], rest);
    }
  }

  /** The constructor's `OrderBy(s => s.Level)`: an ascending sort by level
      that is a permutation of its input and stable, which is to say that
      the tiers at any one level keep their input order. */
  function SortByLevel<T>(s: seq<Storage<T>>): (r: seq<Storage<T>>)
    ensures SortedByLevel(r)
    ensures multiset(r) == multiset(s)
    ensures forall l :: WithLevel(r, l) == WithLevel(s, l)
    ensures Distinct(s) ==> Distinct(r)
  {
    if s == [] then []
    else
      assert s == [s[0]] + s[1..];
      var rest := SortByLevel(s[1..]);
      var r := Insert(s[0], rest);
      assert forall l :: WithLevel(r, l) == WithLevel(s, l) by {
        forall l
          ensures WithLevel(r, l) == WithLevel(s, l)
        {
          InsertKeepsLevelOrder(s[0], rest, l);
        }
      }
      assert Distinct(s) ==> Distinct(r) by {
        if Distinct(s) {
          DistinctTail(s);
          assert s[0] !in multiset(rest);
          InsertKeepsDistinct(s[0], rest);
        }
      }
      r
  }

  /** A tier listed at level `l` is in the sequence, at some index, at level `l`. */
  lemma {:induction false} LevelMember<T>(s: seq<Storage<T>>, l: int, x: Storage<T>)
    requires x in WithLevel(s, l)
    ensures x.level == l && exists i :: 0 <= i < |s| && s[i] == x
  {
    if s[0] == x && s[0].level == l {
      assert s[0] == x;
    } else {
      LevelMember(s[1..], l, x);
      var i :| 0 <= i < |s[1..]| && s[1..][i] == x;
      assert s[i + 1] == x;
    }
  }

  /** Two level-sorted sequences that agree on the tiers at every level are
      the same sequence. */
  lemma {:induction false} SortedIsDeterminedByLevels<T>(a: seq<Storage<T>>, b: seq<Storage<T>>)
    requires SortedByLevel(a) && SortedByLevel(b)
    requires forall l :: WithLevel(a, l) == WithLevel(b, l)
    ensures a == b
    decreases |a|
  {
    if a == [] || b == [] {
      if a != [] {
        HeadIsListed(a);
        assert false;
      } else if b != [] {
        HeadIsListed(b);
        assert false;
      }
    } else {
      SameHead(a, b);
      forall l
        ensures WithLevel(a[1..], l) == WithLevel(b[1..], l)
      {
        SameTailLevels(a, b, l);
      }
      SortedTail(a);
      SortedTail(b);
      SortedIsDeterminedByLevels(a[1..], b[1..]);
      assert a == [a[0]] + a[1..] && b == [b[0]] + b[1..];
    }
  }

  /** Two non-empty level-sorted sequences that list the same tiers at the
      levels of their heads start with the same tier. */
  lemma SameHead<T>(a: seq<Storage<T>>, b: seq<Storage<T>>)
    requires a != [] && b != [] && SortedByLevel(a) && SortedByLevel(b)
    requires WithLevel(a, a[0].level) == WithLevel(b, a[0].level)
    requires WithLevel(a, b[0].level) == WithLevel(b, b[0].level)
    ensures a[0] == b[0]
  {
    var la, lb := a[0].level, b[0].level;
    assert WithLevel(a, la)[0] == a[0];
    assert WithLevel(b, lb)[0] == b[0];
    LevelMember(b, la, a[0]);
    LevelMember(a, lb, b[0]);
    assert la == lb;
  }

  /** Sequences with the same head that agree at level `l` agree there on their tails. */
  lemma SameTailLevels<T>(a: seq<Storage<T>>, b: seq<Storage<T>>, l: int)
    requires a != [] && b != [] && a[0] == b[0] && WithLevel(a, l) == WithLevel(b, l)
    ensures WithLevel(a[1..], l) == WithLevel(b[1..], l)
  {
    var head: seq<Storage<T>> := if a[0].level == l then [a[0]] else [];
    assert WithLevel(a[1..], l) == WithLevel(a, l)[|head|..];
    assert WithLevel(b[1..], l) == WithLevel(b, l)[|head|..];
  }

  /** The tail of a level-sorted sequence is level-sorted. */
  lemma SortedTail<T>(s: seq<Storage<T>>)
    requires s != [] && SortedByLevel(s)
    ensures SortedByLevel(s[1..])
  {
    forall i, j | 0 <= i < j < |s[1..]|
      ensures s[1..][i].level <= s[1..][j].level
    {
      assert s[1..][i] == s[i + 1] && s[1..][j] == s[j + 1];
    }
  }

  /** The sorted chain depends on the input order only through the order of
      tiers that share a level. */
  lemma StableSortIgnoresOrderAcrossLevels<T>(a: seq<Storage<T>>, b: seq<Storage<T>>)
    requires forall l :: WithLevel(a, l) == WithLevel(b, l)
    ensures SortByLevel(a) == SortByLevel(b)
  {
    SortedIsDeterminedByLevels(SortByLevel(a), SortByLevel(b));
  }

  predicate DistinctLevels<T>(s: seq<Storage<T>>)
  {
    forall i, j :: 0 <= i < |s| && 0 <= j < |s| && i != j ==> s[i].level != s[j].level
  }

  /** When no two tiers share a level, every ordering of the same tiers
      yields the same sorted chain. */
  lemma PermutationGivesSameChain<T>(a: seq<Storage<T>>, b: seq<Storage<T>>)
    requires multiset(a) == multiset(b) && DistinctLevels(a)
    ensures SortByLevel(a) == SortByLevel(b)
  {
    forall l
      ensures WithLevel(a, l) == WithLevel(b, l)
    {
      PermutationKeepsLevels(a, b, l);
    }
    StableSortIgnoresOrderAcrossLevels(a, b);
  }

  /** With distinct levels, a reordering lists the same tiers at every level. */
  lemma {:induction false} PermutationKeepsLevels<T>(a: seq<Storage<T>>, b: seq<Storage<T>>, l: int)
    requires multiset(a) == multiset(b) && DistinctLevels(a)
    ensures WithLevel(a, l) == WithLevel(b, l)
    decreases |a|
  {
    if a == [] {
      assert |b| == |multiset(b)| == 0;
    } else {
      var x, rest := a[0], a[1..];
      assert a == [x] + rest;
      assert x in multiset(b);
      var i :| 0 <= i < |b| && b[i] == x;
      var before, after := b[..i], b[i + 1..];
      assert b == before + ([x] + after);
      RemoveMatching(a, b, x, rest, before, after);
      assert multiset(rest) == multiset(before + after);
      DistinctLevelsTail(a);
      PermutationKeepsLevels(rest, before + after, l);
      if x.level == l {
        LevelAbsentAfterHead(a, l);
      }
      SplitLevels(x, rest, before, after, l);
    }
  }

  /** Putting the same tier in front of one list and in the middle of another
      keeps their per-level listings equal, when it does not meet another
      tier at its level. */
  lemma SplitLevels<T>(x: Storage<T>, rest: seq<Storage<T>>, before: seq<Storage<T>>, after: seq<Storage<T>>, l: int)
    requires WithLevel(rest, l) == WithLevel(before + after, l)
    requires x.level == l ==> WithLevel(rest, l) == []
    ensures WithLevel([x] + rest, l) == WithLevel(before + ([x] + after), l)
  {
    WithLevelConcat(before, after, l);
    WithLevelConcat(before, [x] + after, l);
    WithLevelConcat([x], after, l);
    WithLevelConcat([x], rest, l);
    var wx := WithLevel([x], l);
    if x.level == l {
      assert |WithLevel(before, l)| + |WithLevel(after, l)| == 0;
      assert WithLevel(before, l) == [] && WithLevel(after, l) == [];
      assert WithLevel(before + ([x] + after), l) == [] + (wx + []);
      assert WithLevel([x] + rest, l) == wx + [];
    } else {
      assert wx == [];
      assert WithLevel(before + ([x] + after), l) == WithLevel(before, l) + WithLevel(after, l);
    }
  }

  /** With distinct levels, nothing after the head shares the head's level. */
  lemma LevelAbsentAfterHead<T>(a: seq<Storage<T>>, l: int)
    requires a != [] && DistinctLevels(a) && a[0].level == l
    ensures WithLevel(a[1..], l) == []
  {
    forall k | 0 <= k < |a[1..]|
      ensures a[1..][k].level != l
    {
      assert a[1..][k] == a[k + 1];
    }
    NoneAtLevel(a[1..], l);
  }

  /** Taking the same tier out of two permutations leaves permutations. */
  lemma RemoveMatching<T>(a: seq<Storage<T>>, b: seq<Storage<T>>, x: Storage<T>, rest: seq<Storage<T>>, before: seq<Storage<T>>, after: seq<Storage<T>>)
    requires multiset(a) == multiset(b) && a == [x] + rest && b == before + ([x] + after)
    ensures multiset(rest) == multiset(before) + multiset(after)
  {
    calc {
      multiset(rest) + multiset{x};
      multiset(a);
      multiset(b);
      multiset(before) + multiset(after) + multiset{x};
    }
    assert multiset(rest) == multiset(rest) + multiset{x} - multiset{x};
  }

  lemma DistinctLevelsTail<T>(a: seq<Storage<T>>)
    requires a != [] && DistinctLevels(a)
    ensures DistinctLevels(a[1..])
  {
    forall i, j | 0 <= i < |a[1..]| && 0 <= j < |a[1..]| && i != j
      ensures a[1..][i].level != a[1..][j].level
    {
      assert a[1..][i] == a[i + 1] && a[1..][j] == a[j + 1];
    }
  }

  /** Listing by level distributes over concatenation. */
  lemma {:induction false} WithLevelConcat<T>(x: seq<Storage<T>>, y: seq<Storage<T>>, l: int)
    ensures WithLevel(x + y, l) == WithLevel(x, l) + WithLevel(y, l)
  {
    if x != [] {
      assert (x + y)[1..] == x[1..] + y;
      WithLevelConcat(x[1..], y, l);
    } else {
      assert x + y == y;
    }
  }

  /** A sequence with no tier at level `l` lists nothing there. */
  lemma {:induction false} NoneAtLevel<T>(s: seq<Storage<T>>, l: int)
    requires forall i :: 0 <= i < |s| ==> s[i].level != l
    ensures WithLevel(s, l) == []
  {
    if s != [] {
      NoneAtLevel(s[1..], l);
    }
  }
}
