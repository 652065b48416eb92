/** `Array.prototype.sort` as its specification: the stable sorted permutation. */
module Sorting {

  ghost predicate TotalPreorder<T(!new)>(le: (T, T) -> bool) {
    && (forall a, b :: le(a, b) || le(b, a))
    && (forall a, b, c :: le(a, b) && le(b, c) ==> le(a, c))
  }

  /** A total preorder whose ties are exactly equality. */
  ghost predicate TotalOrder<T(!new)>(le: (T, T) -> bool) {
    TotalPreorder(le) && forall a, b :: le(a, b) && le(b, a) ==> a == b
  }

  ghost predicate Sorted<T(!new)>(s: seq<T>, le: (T, T) -> bool) {
    forall i, j :: 0 <= i < j < |s| ==> le(s[i], s[j])
  }

  function Insert<T>(x: T, s: seq<T>, le: (T, T) -> bool): seq<T> {
    if s == [] then [x]
    else if le(x, s[0]) then [x] + s
    else [s[0]] + Insert(x, s[1..], le)
  }

  /** Insertion from the back: an element goes in front of the equal ones behind it, so the
      order of ties is kept. */
  function Sort<T>(s: seq<T>, le: (T, T) -> bool): seq<T> {
    if s == [] then [] else Insert(s[0], Sort(s[1..], le), le)
  }

  lemma {:induction false} InsertMultiset<T>(x: T, s: seq<T>, le: (T, T) -> bool)
    ensures multiset(Insert(x, s, le)) == multiset(s) + multiset{x}
  {
    if s != [] {
      assert s == [s[0]] + s[1..];
      if !le(x, s[0]) { InsertMultiset(x, s[1..], le); }
    }
  }

  lemma {:induction false} SortMultiset<T>(s: seq<T>, le: (T, T) -> bool)
    ensures multiset(Sort(s, le)) == multiset(s)
    ensures |Sort(s, le)| == |s|
  {
    if s != [] {
      SortMultiset(s[1..], le);
      InsertMultiset(s[0], Sort(s[1..], le), le);
      assert s == [s[0]] + s[1..];
      assert |multiset(Sort(s, le))| == |multiset(s)|;
    }
  }

  lemma {:induction false} InsertSorted<T(!new)>(x: T, s: seq<T>, le: (T, T) -> bool)
    requires TotalPreorder(le) && Sorted(s, le)
    ensures Sorted(Insert(x, s, le), le)
  {
    if s != [] && !le(x, s[0]) {
      InsertSorted(x, s[1..], le);
      InsertMultiset(x, s[1..], le);
      var rest := Insert(x, s[1..], le);
      forall j | 0 <= j < |rest| ensures le(s[0], rest[j]) {
        assert rest[j] in multiset(rest);
        if rest[j] != x {
          assert rest[j] in s[1..];
        }
      }
    }
  }

  lemma {:induction false} SortSorted<T(!new)>(s: seq<T>, le: (T, T) -> bool)
    requires TotalPreorder(le)
    ensures Sorted(Sort(s, le), le)
  {
    if s != [] {
      SortSorted(s[1..], le);
      InsertSorted(s[0], Sort(s[1..], le), le);
    }
  }

  /** `le` behaves like a total preorder on the elements of `s`. */
  ghost predicate PreorderOn<T>(s: seq<T>, le: (T, T) -> bool) {
    && (forall i, j :: 0 <= i < |s| && 0 <= j < |s| ==> le(s[i], s[j]) || le(s[j], s[i]))
    && (forall i, j, k :: 0 <= i < |s| && 0 <= j < |s| && 0 <= k < |s| && le(s[i], s[j]) && le(s[j], s[k]) ==> le(s[i], s[k]))
  }

  /** `s[i]` is minimal, and everything before it is strictly greater. */
  ghost predicate FirstMinimal<T>(s: seq<T>, le: (T, T) -> bool, i: nat) {
    && i < |s|
    && (forall k :: 0 <= k < |s| ==> le(s[i], s[k]))
    && (forall k :: 0 <= k < i ==> !le(s[k], s[i]))
  }

  /** The head of the sorted sequence is the first of the minimal elements. */
  lemma {:induction false} SortHead<T>(s: seq<T>, le: (T, T) -> bool) returns (i: nat)
    requires PreorderOn(s, le) && s != []
    ensures FirstMinimal(s, le, i) && Sort(s, le) != [] && Sort(s, le)[0] == s[i]
  {
    var rest := s[1..];
    assert forall k :: 0 <= k < |rest| ==> rest[k] == s[k + 1];
    if rest == [] {
      i := 0;
    } else {
      var j := SortHead(rest, le);
      assert forall k :: 1 <= k < |s| ==> s[k] == rest[k - 1];
      i := if le(s[0], Sort(rest, le)[0]) then 0 else j + 1;
    }
  }

  // ---------------------------------------------------------------------
  // Filters and stability
  // ---------------------------------------------------------------------

  function Filter<T>(s: seq<T>, keep: T -> bool): (r: seq<T>)
    ensures forall x :: x in r ==> x in s && keep(x)
  {
    if s == [] then []
    else Filter(s[..|s| - 1], keep) + if keep(s[|s| - 1]) then [s[|s| - 1]] else []
  }

  lemma {:induction false} FilterMultiset<T>(s: seq<T>, keep: T -> bool, x: T)
    ensures multiset(Filter(s, keep))[x] == if keep(x) then multiset(s)[x] else 0
  {
    if s != [] {
      var n := |s| - 1;
      FilterMultiset(s[..n], keep, x);
      assert s == s[..n] + [s[n]];
    }
  }

  /** Filtering respects permutation. */
  lemma FilterPermuted<T(!new)>(a: seq<T>, b: seq<T>, keep: T -> bool)
    requires multiset(a) == multiset(b)
    ensures multiset(Filter(a, keep)) == multiset(Filter(b, keep))
  {
    var fa, fb := multiset(Filter(a, keep)), multiset(Filter(b, keep));
    forall x: T ensures fa[x] == fb[x] {
      FilterMultiset(a, keep, x);
      FilterMultiset(b, keep, x);
    }
    assert fa == fb;
  }

  ghost predicate Increasing(picks: seq<nat>) {
    forall j, k :: 0 <= j < k < |picks| ==> picks[j] < picks[k]
  }

  /** The places where `keep` holds, in order. */
  ghost predicate Selected<T>(s: seq<T>, keep: T -> bool, picks: seq<nat>) {
    && Increasing(picks)
    && (forall k :: 0 <= k < |picks| ==> picks[k] < |s| && keep(s[picks[k]]))
    && (forall i :: 0 <= i < |s| && keep(s[i]) ==> i in picks)
  }

  lemma SelectedSnoc<T>(s: seq<T>, x: T, keep: T -> bool, picks: seq<nat>)
    requires Selected(s, keep, picks)
    ensures Selected(s + [x], keep, if keep(x) then picks + [|s|] else picks)
  {
    var all := s + [x];
    var after := if keep(x) then picks + [|s|] else picks;
    forall i | 0 <= i < |all| && keep(all[i]) ensures i in after {
      if i < |s| {
        assert keep(s[i]) && i in picks;
      } else {
        assert after[|picks|] == i;
      }
    }
  }

  ghost predicate Takes<T>(s: seq<T>, picks: seq<nat>, r: seq<T>) {
    |r| == |picks| && forall k :: 0 <= k < |picks| ==> picks[k] < |s| && r[k] == s[picks[k]]
  }

  lemma TakesOneMore<T>(s: seq<T>, x: T, picks: seq<nat>, r: seq<T>)
    requires Takes(s, picks, r)
    ensures Takes(s + [x], picks, r) && Takes(s + [x], picks + [|s|], r + [x])
  {
  }

  lemma TakesSnoc<T>(s: seq<T>, x: T, keep: T -> bool, picks: seq<nat>)
    requires Takes(s, picks, Filter(s, keep))
    ensures Takes(s + [x], if keep(x) then picks + [|s|] else picks, Filter(s + [x], keep))
  {
    FilterSnoc(s, x, keep);
    TakesOneMore(s, x, picks, Filter(s, keep));
    if !keep(x) { assert Filter(s, keep) + [] == Filter(s, keep); }
  }

  lemma SelectsOneMore<T>(s: seq<T>, x: T, keep: T -> bool, before: seq<nat>) returns (picks: seq<nat>)
    requires Selected(s, keep, before) && Takes(s, before, Filter(s, keep))
    ensures Selected(s + [x], keep, picks) && Takes(s + [x], picks, Filter(s + [x], keep))
  {
    SelectedSnoc(s, x, keep, before);
    TakesSnoc(s, x, keep, before);
    picks := if keep(x) then before + [|s|] else before;
  }

  /** A filter takes the elements at those places. */
  lemma {:induction false} FilterSelects<T>(s: seq<T>, keep: T -> bool) returns (picks: seq<nat>)
    ensures Selected(s, keep, picks) && Takes(s, picks, Filter(s, keep))
    decreases |s|
  {
    if s == [] {
      picks := [];
      assert Filter(s, keep) == [];
    } else {
      var n := |s| - 1;
      var before := FilterSelects(s[..n], keep);
      picks := SelectsOneMore(s[..n], s[n], keep, before);
      assert s[..n] + [s[n]] == s;
    }
  }

  /** A filter that implies another one can skip it. */
  lemma {:induction false} FilterWithin<T>(s: seq<T>, keep: T -> bool, within: T -> bool)
    requires forall k :: 0 <= k < |s| && keep(s[k]) ==> within(s[k])
    ensures Filter(Filter(s, within), keep) == Filter(s, keep)
  {
    if s != [] {
      var init, x := s[..|s| - 1], s[|s| - 1];
      FilterWithin(init, keep, within);
      assert s == init + [x];
      FilterSnoc(init, x, within);
      FilterSnoc(init, x, keep);
      if within(x) {
        FilterSnoc(Filter(init, within), x, keep);
      } else {
        assert !keep(s[|s| - 1]);
        assert Filter(s, within) == Filter(init, within) && Filter(s, keep) == Filter(init, keep);
      }
    }
  }

  lemma FilterSnoc<T>(s: seq<T>, x: T, keep: T -> bool)
    ensures Filter(s + [x], keep) == Filter(s, keep) + if keep(x) then [x] else []
  {
    assert (s + [x])[..|s|] == s;
  }

  lemma {:induction false} FilterConcat<T>(a: seq<T>, b: seq<T>, keep: T -> bool)
    ensures Filter(a + b, keep) == Filter(a, keep) + Filter(b, keep)
    decreases |b|
  {
    if b == [] {
      assert a + b == a;
    } else {
      var n := |b| - 1;
      assert (a + b)[..|a + b| - 1] == a + b[..n];
      FilterConcat(a, b[..n], keep);
    }
  }

  lemma FilterOne<T>(x: T, keep: T -> bool)
    ensures Filter([x], keep) == if keep(x) then [x] else []
  {
    assert [x][..0] == [];
  }

  /** `keep` selects one tie class. */
  ghost predicate TieClass<T(!new)>(keep: T -> bool, le: (T, T) -> bool) {
    forall a, b :: keep(a) && keep(b) ==> le(a, b)
  }

  lemma {:induction false} InsertStable<T(!new)>(x: T, s: seq<T>, le: (T, T) -> bool, keep: T -> bool)
    requires TieClass(keep, le)
    ensures Filter(Insert(x, s, le), keep) == Filter([x], keep) + Filter(s, keep)
  {
    if s == [] {
    } else if le(x, s[0]) {
      FilterConcat([x], s, keep);
    } else {
      var tail := s[1..];
      InsertStable(x, tail, le, keep);
      FilterConcat([s[0]], Insert(x, tail, le), keep);
      FilterConcat([s[0]], tail, keep);
      assert s == [s[0]] + tail;
      assert !(keep(x) && keep(s[0]));
      SwapWithEmpty(Filter([s[0]], keep), Filter([x], keep), Filter(tail, keep)) by {
        FilterOne(x, keep);
        FilterOne(s[0], keep);
      }
    }
  }

  lemma SwapWithEmpty<T>(a: seq<T>, b: seq<T>, c: seq<T>)
    requires a == [] || b == []
    ensures a + (b + c) == b + (a + c)
  {
  }

  /** Sorting keeps the input order within a tie class. */
  lemma {:induction false} SortStable<T(!new)>(s: seq<T>, le: (T, T) -> bool, keep: T -> bool)
    requires TieClass(keep, le)
    ensures Filter(Sort(s, le), keep) == Filter(s, keep)
  {
    if s != [] {
      SortStable(s[1..], le, keep);
      InsertStable(s[0], Sort(s[1..], le), le, keep);
      FilterConcat([s[0]], s[1..], keep);
      assert s == [s[0]] + s[1..];
    }
  }

  // ---------------------------------------------------------------------
  // Ties
  // ---------------------------------------------------------------------

  predicate Tied<T>(le: (T, T) -> bool, a: T, b: T) {
    le(a, b) && le(b, a)
  }

  /** What is strictly below `x`. */
  function Below<T>(le: (T, T) -> bool, x: T): T -> bool {
    (y: T) => !le(x, y)
  }

  lemma {:induction false} FilterAll<T>(s: seq<T>, keep: T -> bool)
    requires forall k :: 0 <= k < |s| ==> keep(s[k])
    ensures |Filter(s, keep)| == |s|
  {
    if s != [] { FilterAll(s[..|s| - 1], keep); }
  }

  lemma {:induction false} FilterNone<T>(s: seq<T>, keep: T -> bool)
    requires forall k :: 0 <= k < |s| ==> !keep(s[k])
    ensures Filter(s, keep) == []
  {
    if s != [] { FilterNone(s[..|s| - 1], keep); }
  }

  lemma {:induction false} FilterShorter<T>(s: seq<T>, keep: T -> bool)
    ensures |Filter(s, keep)| <= |s|
  {
    if s != [] { FilterShorter(s[..|s| - 1], keep); }
  }

  /** In a sorted sequence at most `i` elements are strictly below the one at `i`. */
  lemma AtMostBelow<T(!new)>(s: seq<T>, le: (T, T) -> bool, i: nat)
    requires TotalPreorder(le) && Sorted(s, le) && i < |s|
    ensures |Filter(s, Below(le, s[i]))| <= i
  {
    var keep := Below(le, s[i]);
    var front, back := s[..i], s[i..];
    assert s == front + back;
    FilterConcat(front, back, keep);
    FilterShorter(front, keep);
    forall k | 0 <= k < |back| ensures !keep(back[k]) {
      assert back[k] == s[i + k] && le(s[i], s[i]);
    }
    FilterNone(back, keep);
  }

  /** If the element at `i` is strictly below `x`, so are all before it. */
  lemma MoreBelow<T(!new)>(s: seq<T>, le: (T, T) -> bool, i: nat, x: T)
    requires TotalPreorder(le) && Sorted(s, le) && i < |s| && !le(x, s[i])
    ensures |Filter(s, Below(le, x))| > i
  {
    var keep := Below(le, x);
    var front, back := s[..i + 1], s[i + 1..];
    assert s == front + back;
    FilterConcat(front, back, keep);
    forall k | 0 <= k < |front| ensures keep(front[k]) {
      assert front[k] == s[k] && (k < i ==> le(s[k], s[i]));
    }
    FilterAll(front, keep);
  }

  /** Two sorted permutations tie position by position. */
  lemma SortedTie<T(!new)>(a: seq<T>, b: seq<T>, le: (T, T) -> bool, i: nat)
    requires TotalPreorder(le) && Sorted(a, le) && Sorted(b, le)
    requires multiset(a) == multiset(b) && i < |a|
    ensures |a| == |b| && Tied(le, a[i], b[i])
  {
    assert |multiset(a)| == |a| && |multiset(b)| == |b|;
    SortedNotBelow(a, b, le, i);
    SortedNotBelow(b, a, le, i);
  }

  lemma SortedNotBelow<T(!new)>(a: seq<T>, b: seq<T>, le: (T, T) -> bool, i: nat)
    requires TotalPreorder(le) && Sorted(a, le) && Sorted(b, le)
    requires multiset(a) == multiset(b) && i < |a| && i < |b|
    ensures le(a[i], b[i])
  {
    AtMostBelow(a, le, i);
    FilterPermuted(a, b, Below(le, a[i]));
    var fa, fb := Filter(a, Below(le, a[i])), Filter(b, Below(le, a[i]));
    assert |multiset(fa)| == |fa| && |multiset(fb)| == |fb|;
    if !le(a[i], b[i]) { MoreBelow(b, le, i, a[i]); }
  }

  /** Tied elements of the sequence are equal. */
  ghost predicate TiesAreEqual<T>(s: seq<T>, le: (T, T) -> bool) {
    forall i, j :: 0 <= i < |s| && 0 <= j < |s| && Tied(le, s[i], s[j]) ==> s[i] == s[j]
  }

  /** A sorted sequence is determined by its multiset when ties are equalities. */
  lemma SortedUnique<T(!new)>(a: seq<T>, b: seq<T>, le: (T, T) -> bool)
    requires TotalPreorder(le) && Sorted(a, le) && Sorted(b, le) && TiesAreEqual(a, le)
    requires multiset(a) == multiset(b)
    ensures a == b
  {
    assert |multiset(a)| == |a| && |multiset(b)| == |b|;
    forall i | 0 <= i < |a| ensures a[i] == b[i] {
      SortedTie(a, b, le, i);
      assert b[i] in multiset(a);
      var j :| 0 <= j < |a| && a[j] == b[i];
    }
  }

  // ---------------------------------------------------------------------
  // Maps and distinct elements
  // ---------------------------------------------------------------------

  function Map<A, B>(s: seq<A>, f: A -> B): (r: seq<B>)
    ensures |r| == |s| && forall i :: 0 <= i < |s| ==> r[i] == f(s[i])
  {
    seq(|s|, i requires 0 <= i < |s| => f(s[i]))
  }

  /** Taking one occurrence out of a sequence. */
  function Without<T>(s: seq<T>, i: nat): (r: seq<T>)
    requires i < |s|
  {
    s[..i] + s[i + 1..]
  }

  lemma WithoutMultiset<T>(s: seq<T>, i: nat)
    requires i < |s|
    ensures multiset(Without(s, i)) == multiset(s) - multiset{s[i]}
  {
    assert s == s[..i] + [s[i]] + s[i + 1..];
  }

  lemma MapWithout<A, B>(s: seq<A>, i: nat, f: A -> B)
    requires i < |s|
    ensures Map(Without(s, i), f) == Without(Map(s, f), i)
  {
  }

  /** The multiset of a mapped sequence depends only on the multiset of the sequence. */
  lemma {:induction false} MapMultiset<A, B>(a: seq<A>, b: seq<A>, f: A -> B)
    requires multiset(a) == multiset(b)
    ensures multiset(Map(a, f)) == multiset(Map(b, f))
    decreases |a|
  {
    assert |multiset(a)| == |a| && |multiset(b)| == |b|;
    if a != [] {
      assert a[0] in multiset(b);
      var j :| 0 <= j < |b| && b[j] == a[0];
      WithoutMultiset(a, 0);
      WithoutMultiset(b, j);
      MapMultiset(Without(a, 0), Without(b, j), f);
      MapWithout(a, 0, f);
      MapWithout(b, j, f);
      WithoutMultiset(Map(a, f), 0);
      WithoutMultiset(Map(b, f), j);
      PutBack(multiset(Map(a, f)), multiset(Map(b, f)), f(a[0]));
    }
  }

  lemma PutBack<T>(a: multiset<T>, b: multiset<T>, x: T)
    requires x in a && x in b && a - multiset{x} == b - multiset{x}
    ensures a == b
  {
    assert a == (a - multiset{x}) + multiset{x};
    assert b == (b - multiset{x}) + multiset{x};
  }

  lemma {:induction false} InsertMap<A, B>(x: A, s: seq<A>, le: (A, A) -> bool, f: A -> B, fle: (B, B) -> bool)
    requires forall k :: 0 <= k < |s| ==> le(x, s[k]) == fle(f(x), f(s[k]))
    ensures Map(Insert(x, s, le), f) == Insert(f(x), Map(s, f), fle)
  {
    if s != [] {
      assert Map(s, f)[1..] == Map(s[1..], f);
      if !le(x, s[0]) { InsertMap(x, s[1..], le, f, fle); }
    }
  }

  lemma {:induction false} SortMap<A(!new), B>(s: seq<A>, le: (A, A) -> bool, f: A -> B, fle: (B, B) -> bool)
    requires forall a, b :: le(a, b) == fle(f(a), f(b))
    ensures Map(Sort(s, le), f) == Sort(Map(s, f), fle)
  {
    if s != [] {
      SortMap(s[1..], le, f, fle);
      InsertMap(s[0], Sort(s[1..], le), le, f, fle);
      assert Map(s, f)[1..] == Map(s[1..], f);
    }
  }

  lemma MapSnoc<A, B>(s: seq<A>, x: A, f: A -> B)
    ensures Map(s + [x], f) == Map(s, f) + [f(x)]
  {
  }

  lemma MapMembers<A, B>(s: seq<A>, f: A -> B, i: nat)
    requires i < |s|
    ensures f(s[i]) in Map(s, f)
  {
    assert Map(s, f)[i] == f(s[i]);
  }

  ghost predicate NoDuplicates<T>(s: seq<T>) {
    forall i, j :: 0 <= i < j < |s| ==> s[i] != s[j]
  }

  /** `[...new Set(s)]`: the distinct elements in order of first appearance. */
  function Distinct<T(==)>(s: seq<T>): (r: seq<T>)
    ensures (forall x :: x in r ==> x in s) && (forall x :: x in s ==> x in r)
    ensures NoDuplicates(r)
  {
    if s == [] then []
    else
      var r := Distinct(s[..|s| - 1]);
      var x := s[|s| - 1];
      assert s == s[..|s| - 1] + [x];
      if x in r then r else r + [x]
  }

  lemma DistinctSnoc<T>(s: seq<T>, x: T)
    ensures Distinct(s + [x]) == if x in Distinct(s) then Distinct(s) else Distinct(s) + [x]
  {
    assert (s + [x])[..|s|] == s;
  }

  /** Sorting keeps elements and distinctness. */
  lemma SortMembers<T(!new)>(s: seq<T>, le: (T, T) -> bool)
    ensures forall x :: x in Sort(s, le) <==> x in s
    ensures NoDuplicates(s) ==> NoDuplicates(Sort(s, le))
  {
    var t := Sort(s, le);
    SortMultiset(s, le);
    SameMembership(t, s);
    if NoDuplicates(s) {
      forall i, j | 0 <= i < j < |t| ensures t[i] != t[j] {
        NoDuplicatesMultiset(s, t[i]);
        if t[i] == t[j] { TwiceCounted(t, i, j); }
      }
    }
  }

  lemma TwiceCounted<T>(t: seq<T>, i: nat, j: nat)
    requires i < j < |t| && t[i] == t[j]
    ensures multiset(t)[t[i]] >= 2
  {
    assert t == t[..i] + [t[i]] + t[i + 1..j] + [t[j]] + t[j + 1..];
  }

  lemma SameMembership<T(!new)>(a: seq<T>, b: seq<T>)
    requires multiset(a) == multiset(b)
    ensures forall x :: x in a <==> x in b
  {
    forall x ensures x in a <==> x in b {
      assert x in multiset(a) <==> x in multiset(b);
    }
  }

  lemma {:induction false} NoDuplicatesMultiset<T>(s: seq<T>, x: T)
    requires NoDuplicates(s)
    ensures multiset(s)[x] == if x in s then 1 else 0
  {
    if s != [] {
      NoDuplicatesMultiset(s[1..], x);
      assert s == [s[0]] + s[1..];
    }
  }

  /** Two duplicate-free sequences with the same elements are permutations. */
  lemma SameElementsSameMultiset<T(!new)>(a: seq<T>, b: seq<T>)
    requires NoDuplicates(a) && NoDuplicates(b)
    requires forall x :: x in a <==> x in b
    ensures multiset(a) == multiset(b)
  {
    forall x ensures multiset(a)[x] == multiset(b)[x] {
      NoDuplicatesMultiset(a, x);
      NoDuplicatesMultiset(b, x);
    }
  }

  /** Sorting two permutations gives the same sequence when ties are equalities. */
  lemma SortPermuted<T(!new)>(a: seq<T>, b: seq<T>, le: (T, T) -> bool)
    requires TotalPreorder(le) && TiesAreEqual(a, le) && multiset(a) == multiset(b)
    ensures Sort(a, le) == Sort(b, le)
  {
    SortMultiset(a, le);
    SortMultiset(b, le);
    SortSorted(a, le);
    SortSorted(b, le);
    var sa := Sort(a, le);
    SameMembership(sa, a);
    forall i, j | 0 <= i < |sa| && 0 <= j < |sa| && Tied(le, sa[i], sa[j]) ensures sa[i] == sa[j] {
      assert sa[i] in a && sa[j] in a;
    }
    SortedUnique(sa, Sort(b, le), le);
  }

  // ---------------------------------------------------------------------
  // First appearances
  // ---------------------------------------------------------------------

  /** `d` lists the elements of `s` once each, in the order in which they first appear. */
  ghost predicate FirstAppearances<T>(d: seq<T>, s: seq<T>) {
    && NoDuplicates(d) && (forall k :: 0 <= k < |s| ==> s[k] in d) && (forall i :: 0 <= i < |d| ==> d[i] in s)
    && (forall i, j :: 0 <= i < j < |d| ==> AppearsBefore(s, d[i], d[j]))
  }

  ghost predicate AppearsBefore<T>(s: seq<T>, x: T, y: T) {
    exists k :: 0 <= k < |s| && s[k] == x && y !in s[..k + 1]
  }

  lemma AppearsLonger<T>(s: seq<T>, last: T, x: T, y: T)
    requires AppearsBefore(s, x, y)
    ensures AppearsBefore(s + [last], x, y)
  {
    var k :| 0 <= k < |s| && s[k] == x && y !in s[..k + 1];
    assert (s + [last])[k] == x && (s + [last])[..k + 1] == s[..k + 1];
  }

  lemma NewComesLast<T>(s: seq<T>, x: T, y: T)
    requires x in s && y !in s
    ensures AppearsBefore(s, x, y)
  {
    var k :| 0 <= k < |s| && s[k] == x;
    assert y !in s[..k + 1];
  }

  lemma AppearancesSnoc<T>(d: seq<T>, s: seq<T>, last: T)
    requires FirstAppearances(d, s)
    ensures FirstAppearances(if last in d then d else d + [last], s + [last])
  {
    var e := if last in d then d else d + [last];
    forall i, j | 0 <= i < j < |e| ensures AppearsBefore(s + [last], e[i], e[j]) {
      assert d[i] in s;
      if j == |d| { NewComesLast(s, e[i], e[j]); }
      AppearsLonger(s, last, e[i], e[j]);
    }
  }

  lemma DistinctGrows<T>(s: seq<T>, last: T)
    requires FirstAppearances(Distinct(s), s)
    ensures FirstAppearances(Distinct(s + [last]), s + [last])
  {
    DistinctSnoc(s, last);
    AppearancesSnoc(Distinct(s), s, last);
  }

  lemma {:induction false} DistinctInOrder<T>(s: seq<T>)
    ensures FirstAppearances(Distinct(s), s)
  {
    if s == [] {
      assert Distinct(s) == [];
    } else {
      var n := |s| - 1;
      DistinctInOrder(s[..n]);
      DistinctGrows(s[..n], s[n]);
      assert s[..n] + [s[n]] == s;
    }
  }

  /** The distinct elements of a prefix come first. */
  lemma {:induction false} DistinctPrefix<T>(s: seq<T>, n: nat)
    requires n <= |s|
    ensures Distinct(s[..n]) <= Distinct(s)
  {
    if n == |s| {
      assert s[..n] == s;
    } else {
      var init := s[..|s| - 1];
      DistinctPrefix(init, n);
      assert init[..n] == s[..n];
    }
  }

  /** If one sequence shows `p` before `q` and the other `q` before `p`, their distinct elements
      come in different orders. */
  lemma DistinctDiffers<T>(a: seq<T>, b: seq<T>, i: nat, j: nat, p: T, q: T)
    requires i <= |a| && j <= |b|
    requires p in a[..i] && q !in a[..i] && q in b[..j] && p !in b[..j]
    ensures Distinct(a) != Distinct(b)
  {
    DistinctPrefix(a, i);
    DistinctPrefix(b, j);
    var u, v := Distinct(a[..i]), Distinct(b[..j]);
    assert p in u && q !in u && q in v && p !in v;
    PrefixKeeps(u, v, p);
    PrefixKeeps(v, u, q);
    if Distinct(a) == Distinct(b) {
      PrefixesCompare(u, v, Distinct(a));
    }
  }

  lemma PrefixKeeps<T>(u: seq<T>, v: seq<T>, x: T)
    requires x in u
    ensures u <= v ==> x in v
  {
    var k :| 0 <= k < |u| && u[k] == x;
    if u <= v { assert v[k] == x; }
  }

  lemma PrefixesCompare<T>(u: seq<T>, v: seq<T>, d: seq<T>)
    requires u <= d && v <= d
    ensures u <= v || v <= u
  {
  }
}
