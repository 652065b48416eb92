/** When the result of a correlation (packages/shared/src/correlation.ts) depends on the order of
    its input: exactly, for every collation that is a total preorder, and for total orders in
    particular. */
module CorrelationOrder {
  import opened Correlation
  import opened Sorting

  // ---------------------------------------------------------------------
  // The condition
  // ---------------------------------------------------------------------

  /** The pair sort cannot tell the two items apart. */
  predicate SortTied<P>(le: Order, canon: P -> string, x: Item<P>, y: Item<P>) {
    Tied(le, x.producerId, y.producerId) && Tied(le, canon(x.payload), canon(y.payload))
  }

  /** No item of the same fingerprint and producer has a smaller canonical form. */
  ghost predicate Leads<P>(le: Order, canon: P -> string, items: seq<Item<P>>, x: Item<P>) {
    forall z :: z in items && z.fingerprint == x.fingerprint && z.producerId == x.producerId ==>
      le(canon(x.payload), canon(z.payload))
  }

  /** Two items whose order in the input shows in the result: two fingerprints the collation
      ties; or two items of one fingerprint that the pair sort ties, with different payloads, or
      with different producers that both come first in the result through them. */
  ghost predicate Clash<P>(le: Order, canon: P -> string, items: seq<Item<P>>, x: Item<P>, y: Item<P>) {
    if x.fingerprint != y.fingerprint then Tied(le, x.fingerprint, y.fingerprint)
    else
      && SortTied(le, canon, x, y)
      && (x.payload != y.payload
          || (x.producerId != y.producerId && Leads(le, canon, items, x) && Leads(le, canon, items, y)))
  }

  ghost predicate Unambiguous<P>(le: Order, canon: P -> string, items: seq<Item<P>>) {
    forall x, y :: x in items && y in items ==> !Clash(le, canon, items, x, y)
  }

  // ---------------------------------------------------------------------
  // The pair order
  // ---------------------------------------------------------------------

  lemma PairsTied<P>(le: Order, p: Pair<P>, q: Pair<P>)
    requires Tied(PairLe<P>(le), p, q)
    ensures Tied(le, p.producer, q.producer) && Tied(le, p.canonical, q.canonical)
  {
    var a, b := Key(p.producer, p.canonical), Key(q.producer, q.canonical);
    assert PairLe<P>(le)(p, q) == KeyLe(le)(a, b) && PairLe<P>(le)(q, p) == KeyLe(le)(b, a);
    KeysTied(le, a, b);
  }

  lemma KeysTied(le: Order, a: Key, b: Key)
    ensures Tied(KeyLe(le), a, b) <==> Tied(le, a.producer, b.producer) && Tied(le, a.canonical, b.canonical)
  {
  }

  /** The sorted pairs are sorted, and come from the members. */
  lemma SortedPairsFacts<P(!new)>(le: Order, canon: P -> string, members: seq<Item<P>>)
    requires TotalPreorder(le)
    ensures var pairs := SortedPairs(le, canon, members);
            && Sorted(pairs, PairLe(le)) && multiset(pairs) == multiset(Map(members, ToPair(canon)))
            && |pairs| == |members|
  {
    PairPreorder<P>(le);
    SortSorted(Map(members, ToPair(canon)), PairLe(le));
    SortMultiset(Map(members, ToPair(canon)), PairLe(le));
  }

  lemma FromMember<P>(le: Order, canon: P -> string, members: seq<Item<P>>, p: Pair<P>) returns (x: Item<P>)
    requires p in SortedPairs(le, canon, members)
    ensures x in members && p == Pair(x.producerId, x.payload, canon(x.payload))
  {
    var unsorted := Map(members, ToPair(canon));
    SortMultiset(unsorted, PairLe(le));
    assert p in multiset(unsorted);
    var k :| 0 <= k < |unsorted| && unsorted[k] == p;
    x := members[k];
  }

  lemma MemberHasPair<P(!new)>(le: Order, canon: P -> string, members: seq<Item<P>>, x: Item<P>)
    requires x in members
    ensures Pair(x.producerId, x.payload, canon(x.payload)) in SortedPairs(le, canon, members)
  {
    var unsorted := Map(members, ToPair(canon));
    SortMultiset(unsorted, PairLe(le));
    SameMembership(unsorted, SortedPairs(le, canon, members));
    var k :| 0 <= k < |members| && members[k] == x;
    MapMembers(members, ToPair(canon), k);
  }

  lemma MembersAre<P(!new)>(items: seq<Item<P>>, f: string)
    ensures forall x :: x in Members(items, f) <==> x in items && x.fingerprint == f
  {
    forall x ensures x in Members(items, f) <==> x in items && x.fingerprint == f {
      FilterMultiset(items, HasFingerprint(f), x);
      assert x in multiset(Members(items, f)) <==> x in Members(items, f);
      assert x in multiset(items) <==> x in items;
    }
  }

  // ---------------------------------------------------------------------
  // The order of the producers
  // ---------------------------------------------------------------------

  function HasProducer<P>(p: string): Pair<P> -> bool {
    (x: Pair<P>) => x.producer == p
  }

  ghost predicate Occurs<P>(s: seq<Pair<P>>, keep: Pair<P> -> bool) {
    exists k :: 0 <= k < |s| && keep(s[k])
  }

  function FirstIndex<P>(s: seq<Pair<P>>, keep: Pair<P> -> bool): (i: nat)
    requires Occurs(s, keep)
    ensures i < |s| && keep(s[i]) && forall k :: 0 <= k < i ==> !keep(s[k])
  {
    if keep(s[0]) then 0
    else
      assert Occurs(s[1..], keep) by {
        var k :| 0 <= k < |s| && keep(s[k]);
        assert s[1..][k - 1] == s[k];
      }
      1 + FirstIndex(s[1..], keep)
  }

  /** The key of the first pair of a producer. */
  ghost function Lead<P>(s: seq<Pair<P>>, p: string): Key {
    if Occurs(s, HasProducer(p)) then KeyOf<P>()(s[FirstIndex(s, HasProducer(p))]) else Key("", "")
  }

  ghost function LeadLe<P>(le: Order, s: seq<Pair<P>>): (string, string) -> bool {
    (p: string, q: string) => KeyLe(le)(Lead(s, p), Lead(s, q))
  }

  lemma LeadPreorder<P>(le: Order, s: seq<Pair<P>>)
    requires TotalPreorder(le)
    ensures TotalPreorder(LeadLe(le, s))
  {
    KeyPreorder(le);
    var kle, lle := KeyLe(le), LeadLe(le, s);
    assert forall p: string, q: string :: lle(p, q) == kle(Lead(s, p), Lead(s, q));
  }

  /** The lead of a producer is one of its pairs and not above any other. */
  lemma LeadIsLeast<P(!new)>(le: Order, s: seq<Pair<P>>, x: Pair<P>)
    requires TotalPreorder(le) && Sorted(s, PairLe(le)) && x in s
    ensures Occurs(s, HasProducer(x.producer))
    ensures KeyLe(le)(Lead(s, x.producer), KeyOf<P>()(x))
    ensures s[FirstIndex(s, HasProducer(x.producer))] in s
  {
    var k :| 0 <= k < |s| && s[k] == x;
    assert HasProducer(x.producer)(s[k]);
    var i := FirstIndex(s, HasProducer(x.producer));
    assert i <= k;
    if i < k {
      assert PairLe<P>(le)(s[i], s[k]);
    } else {
      assert le(x.producer, x.producer) && le(x.canonical, x.canonical);
    }
  }

  /** Producers listed at their first appearance are listed by their leads. */
  lemma {:induction false} ProducersByLead<P(!new)>(le: Order, s: seq<Pair<P>>, n: nat)
    requires TotalPreorder(le) && Sorted(s, PairLe(le)) && n <= |s|
    ensures Sorted(Distinct(Map(s[..n], Producer())), LeadLe(le, s))
    ensures forall p :: p in Distinct(Map(s[..n], Producer())) ==> exists k :: 0 <= k < n && s[k].producer == p
  {
    if n > 0 {
      var m, x := n - 1, s[n - 1];
      ProducersByLead(le, s, m);
      var before := Distinct(Map(s[..m], Producer()));
      assert s[..n] == s[..m] + [x];
      MapSnoc(s[..m], x, Producer());
      DistinctSnoc(Map(s[..m], Producer()), x.producer);
      if x.producer !in before {
        NewLead(s, m);
        forall i | 0 <= i < |before| ensures LeadLe(le, s)(before[i], x.producer) {
          assert before[i] in before;
          var k :| 0 <= k < m && s[k].producer == before[i];
          EarlierLead(le, s, k, m);
        }
        SortedSnoc(before, x.producer, LeadLe(le, s));
      }
    }
  }

  /** A producer not seen before position `m` leads there. */
  lemma NewLead<P>(s: seq<Pair<P>>, m: nat)
    requires m < |s| && s[m].producer !in Distinct(Map(s[..m], Producer()))
    ensures Lead(s, s[m].producer) == KeyOf<P>()(s[m])
  {
    var keep := HasProducer<P>(s[m].producer);
    assert keep(s[m]);
    var i := FirstIndex(s, keep);
    assert forall k :: 0 <= k < m ==> Map(s[..m], Producer())[k] == s[k].producer;
    assert forall k :: 0 <= k < m ==> s[k].producer in Map(s[..m], Producer());
    assert i == m;
  }

  lemma EarlierLead<P(!new)>(le: Order, s: seq<Pair<P>>, k: nat, m: nat)
    requires TotalPreorder(le) && Sorted(s, PairLe(le)) && k < m < |s|
    requires Lead(s, s[m].producer) == KeyOf<P>()(s[m])
    ensures LeadLe(le, s)(s[k].producer, s[m].producer)
  {
    LeadIsLeast(le, s, s[k]);
    assert PairLe<P>(le)(s[k], s[m]);
    KeyTransitive(le, Lead(s, s[k].producer), KeyOf<P>()(s[k]), KeyOf<P>()(s[m]));
  }

  lemma SortedSnoc<T(!new)>(s: seq<T>, x: T, le: (T, T) -> bool)
    requires Sorted(s, le) && forall i :: 0 <= i < |s| ==> le(s[i], x)
    ensures Sorted(s + [x], le)
  {
  }

  /** Leads of one producer in two sorted permutations tie. */
  lemma SameLead<P(!new)>(le: Order, a: seq<Pair<P>>, b: seq<Pair<P>>, x: Pair<P>)
    requires TotalPreorder(le) && Sorted(a, PairLe(le)) && Sorted(b, PairLe(le)) && multiset(a) == multiset(b)
    requires x in a
    ensures Tied(KeyLe(le), Lead(a, x.producer), Lead(b, x.producer))
  {
    SameMembership(a, b);
    LeadIsLeast(le, a, x);
    LeadIsLeast(le, b, x);
    var keep := HasProducer<P>(x.producer);
    LeadIsLeast(le, a, b[FirstIndex(b, keep)]);
    LeadIsLeast(le, b, a[FirstIndex(a, keep)]);
  }

  /** No two different producers have tied leads. */
  ghost predicate LeadsApart<P>(le: Order, s: seq<Pair<P>>) {
    forall p, q :: Occurs(s, HasProducer(p)) && Occurs(s, HasProducer(q)) && Tied(KeyLe(le), Lead(s, p), Lead(s, q)) ==> p == q
  }

  lemma ProducersOf<P(!new)>(s: seq<Pair<P>>)
    ensures forall p :: p in Distinct(Map(s, Producer())) <==> Occurs(s, HasProducer(p))
  {
    var producers := Map(s, Producer<P>());
    forall p ensures p in Distinct(producers) <==> Occurs(s, HasProducer(p)) {
      if p in producers {
        var k :| 0 <= k < |producers| && producers[k] == p;
        assert HasProducer<P>(p)(s[k]);
      }
      if Occurs(s, HasProducer(p)) {
        var k :| 0 <= k < |s| && HasProducer<P>(p)(s[k]);
        assert producers[k] == p;
      }
    }
  }

  /** Then the list of producers does not depend on how ties were broken. */
  lemma ProducersDetermined<P(!new)>(le: Order, a: seq<Pair<P>>, b: seq<Pair<P>>)
    requires TotalPreorder(le) && Sorted(a, PairLe(le)) && Sorted(b, PairLe(le)) && multiset(a) == multiset(b)
    requires LeadsApart(le, a)
    ensures Distinct(Map(a, Producer())) == Distinct(Map(b, Producer()))
  {
    var da, db := Distinct(Map(a, Producer())), Distinct(Map(b, Producer()));
    ProducersOf(a);
    ProducersOf(b);
    MapMultiset(a, b, Producer());
    SameMembership(Map(a, Producer()), Map(b, Producer()));
    SameElementsSameMultiset(da, db);
    assert a[..|a|] == a && b[..|b|] == b;
    ProducersByLead(le, a, |a|);
    ProducersByLead(le, b, |b|);
    LeadPreorder(le, a);
    forall i, j | 0 <= i < j < |db| ensures LeadLe(le, a)(db[i], db[j]) {
      assert db[i] in da && db[j] in da;
      LeadsCarry(le, a, b, db[i], db[j]);
    }
    forall i, j | 0 <= i < |da| && 0 <= j < |da| && Tied(LeadLe(le, a), da[i], da[j]) ensures da[i] == da[j] {
      assert da[i] in da && da[j] in da;
    }
    SortedUnique(da, db, LeadLe(le, a));
  }

  lemma LeadsCarry<P(!new)>(le: Order, a: seq<Pair<P>>, b: seq<Pair<P>>, p: string, q: string)
    requires TotalPreorder(le) && Sorted(a, PairLe(le)) && Sorted(b, PairLe(le)) && multiset(a) == multiset(b)
    requires Occurs(a, HasProducer(p)) && Occurs(a, HasProducer(q)) && LeadLe(le, b)(p, q)
    ensures LeadLe(le, a)(p, q)
  {
    SameLead(le, a, b, a[FirstIndex(a, HasProducer(p))]);
    SameLead(le, a, b, a[FirstIndex(a, HasProducer(q))]);
    KeyTransitive(le, Lead(a, p), Lead(b, p), Lead(b, q));
    KeyTransitive(le, Lead(a, p), Lead(b, q), Lead(a, q));
  }

  // ---------------------------------------------------------------------
  // Without a clash the result is determined
  // ---------------------------------------------------------------------

  lemma FingerprintsDetermined<P>(le: Order, a: seq<Item<P>>, b: seq<Item<P>>)
    requires TotalPreorder(le) && multiset(a) == multiset(b)
    requires forall x, y :: x in a && y in a && Tied(le, x.fingerprint, y.fingerprint) ==> x.fingerprint == y.fingerprint
    ensures Fingerprints(le, a) == Fingerprints(le, b)
  {
    var fa := Map(a, FingerprintOf());
    var da, db := Distinct(fa), Distinct(Map(b, FingerprintOf()));
    MapMultiset(a, b, FingerprintOf());
    SameMembership(fa, Map(b, FingerprintOf()));
    SameElementsSameMultiset(da, db);
    forall i, j | 0 <= i < |da| && 0 <= j < |da| && Tied(le, da[i], da[j]) ensures da[i] == da[j] {
      assert da[i] in fa && da[j] in fa;
      var u :| 0 <= u < |fa| && fa[u] == da[i];
      var v :| 0 <= v < |fa| && fa[v] == da[j];
      assert a[u] in a && a[v] in a;
    }
    SortPermuted(da, db, le);
  }

  /** The members of one fingerprint never clash. */
  ghost predicate ClashFree<P>(le: Order, canon: P -> string, members: seq<Item<P>>, f: string) {
    && (forall x :: x in members ==> x.fingerprint == f)
    && forall x, y :: x in members && y in members ==> !Clash(le, canon, members, x, y)
  }

  lemma MembersClashFree<P(!new)>(le: Order, canon: P -> string, items: seq<Item<P>>, f: string)
    requires Unambiguous(le, canon, items)
    ensures ClashFree(le, canon, Members(items, f), f)
  {
    var members := Members(items, f);
    MembersAre(items, f);
    forall x, y | x in members && y in members ensures !Clash(le, canon, members, x, y) {
      assert Leads(le, canon, members, x) ==> Leads(le, canon, items, x);
      assert Leads(le, canon, members, y) ==> Leads(le, canon, items, y);
      assert !Clash(le, canon, items, x, y);
    }
  }

  /** Position by position the pairs carry the same payload and canonical form. */
  lemma SamePayloads<P(!new)>(le: Order, canon: P -> string, f: string, a: seq<Item<P>>, b: seq<Item<P>>)
    requires TotalPreorder(le) && multiset(a) == multiset(b) && ClashFree(le, canon, a, f)
    ensures var pa, pb := SortedPairs(le, canon, a), SortedPairs(le, canon, b);
            Map(pa, Payload()) == Map(pb, Payload()) && Map(pa, Canonical()) == Map(pb, Canonical())
  {
    var pa, pb := SortedPairs(le, canon, a), SortedPairs(le, canon, b);
    SortedPairsFacts(le, canon, a);
    SortedPairsFacts(le, canon, b);
    PairPreorder<P>(le);
    MapMultiset(a, b, ToPair(canon));
    SameMembership(a, b);
    assert |pa| == |pb| by { assert |multiset(pa)| == |pa| && |multiset(pb)| == |pb|; }
    forall i | 0 <= i < |pa| ensures pa[i].payload == pb[i].payload && pa[i].canonical == pb[i].canonical {
      SortedTie(pa, pb, PairLe(le), i);
      PairsTied(le, pa[i], pb[i]);
      var x := FromMember(le, canon, a, pa[i]);
      var y := FromMember(le, canon, b, pb[i]);
      assert !Clash(le, canon, a, x, y);
    }
  }

  lemma MembersLeadApart<P(!new)>(le: Order, canon: P -> string, f: string, a: seq<Item<P>>)
    requires TotalPreorder(le) && ClashFree(le, canon, a, f)
    ensures LeadsApart(le, SortedPairs(le, canon, a))
  {
    var pa := SortedPairs(le, canon, a);
    SortedPairsFacts(le, canon, a);
    forall p, q | Occurs(pa, HasProducer(p)) && Occurs(pa, HasProducer(q)) && Tied(KeyLe(le), Lead(pa, p), Lead(pa, q))
      ensures p == q
    {
      var u, v := pa[FirstIndex(pa, HasProducer(p))], pa[FirstIndex(pa, HasProducer(q))];
      assert Tied(PairLe<P>(le), u, v);
      PairsTied(le, u, v);
      var x := FromMember(le, canon, a, u);
      var y := FromMember(le, canon, a, v);
      LeadItem(le, canon, a, x);
      LeadItem(le, canon, a, y);
      assert !Clash(le, canon, a, x, y);
    }
  }

  /** The item behind the first pair of a producer leads it. */
  lemma LeadItem<P(!new)>(le: Order, canon: P -> string, a: seq<Item<P>>, x: Item<P>)
    requires TotalPreorder(le) && x in a
    requires var pa := SortedPairs(le, canon, a);
             Occurs(pa, HasProducer(x.producerId)) && Lead(pa, x.producerId) == Key(x.producerId, canon(x.payload))
    ensures Leads(le, canon, a, x)
  {
    var pa := SortedPairs(le, canon, a);
    SortedPairsFacts(le, canon, a);
    forall z | z in a && z.producerId == x.producerId ensures le(canon(x.payload), canon(z.payload)) {
      MemberHasPair(le, canon, a, z);
      LeadIsLeast(le, pa, Pair(z.producerId, z.payload, canon(z.payload)));
      assert le(x.producerId, x.producerId);
    }
  }

  lemma GroupDetermined<P(!new)>(le: Order, canon: P -> string, f: string, a: seq<Item<P>>, b: seq<Item<P>>)
    requires TotalPreorder(le) && multiset(a) == multiset(b) && ClashFree(le, canon, a, f)
    ensures GroupOfPairs(f, SortedPairs(le, canon, a)) == GroupOfPairs(f, SortedPairs(le, canon, b))
  {
    var pa, pb := SortedPairs(le, canon, a), SortedPairs(le, canon, b);
    SortedPairsFacts(le, canon, a);
    SortedPairsFacts(le, canon, b);
    MapMultiset(a, b, ToPair(canon));
    SamePayloads(le, canon, f, a, b);
    MembersLeadApart(le, canon, f, a);
    ProducersDetermined(le, pa, pb);
  }

  lemma Determined<P(!new)>(le: Order, canon: P -> string, a: seq<Item<P>>, b: seq<Item<P>>)
    requires TotalPreorder(le) && Unambiguous(le, canon, a) && multiset(b) == multiset(a)
    ensures Correlate(le, canon, b) == Correlate(le, canon, a)
  {
    forall x, y | x in a && y in a && Tied(le, x.fingerprint, y.fingerprint) ensures x.fingerprint == y.fingerprint {
      assert !Clash(le, canon, a, x, y);
    }
    FingerprintsDetermined(le, a, b);
    var fs := Fingerprints(le, a);
    forall k | 0 <= k < |fs| ensures GroupOf(le, canon, a)(fs[k]) == GroupOf(le, canon, b)(fs[k]) {
      FilterPermuted(a, b, HasFingerprint(fs[k]));
      MembersClashFree(le, canon, a, fs[k]);
      GroupDetermined(le, canon, fs[k], Members(a, fs[k]), Members(b, fs[k]));
    }
  }

  // ---------------------------------------------------------------------
  // A clash shows
  // ---------------------------------------------------------------------

  lemma {:induction false} FilterStartsAt<T>(s: seq<T>, keep: T -> bool, i: nat)
    requires i < |s| && keep(s[i]) && forall k :: 0 <= k < i ==> !keep(s[k])
    ensures Filter(s, keep) != [] && Filter(s, keep)[0] == s[i]
    decreases |s|
  {
    var n := |s| - 1;
    if i < n {
      FilterStartsAt(s[..n], keep, i);
    } else {
      FilterNone(s[..n], keep);
    }
  }

  /** Everything tied with `x`. */
  function ClassOf<T>(le: (T, T) -> bool, x: T): T -> bool {
    (y: T) => Tied(le, y, x)
  }

  lemma ClassIsTied<T(!new)>(le: (T, T) -> bool, x: T)
    requires TotalPreorder(le)
    ensures TieClass(ClassOf(le, x), le) && ClassOf(le, x)(x)
  {
    assert le(x, x);
  }

  /** The first of a tie class in the input is its first in the output. */
  lemma SortKeepsFirst<T(!new)>(s: seq<T>, le: (T, T) -> bool)
    requires TotalPreorder(le) && s != []
    ensures var kept := Filter(Sort(s, le), ClassOf(le, s[0])); kept != [] && kept[0] == s[0]
  {
    ClassIsTied(le, s[0]);
    SortStable(s, le, ClassOf(le, s[0]));
    FilterStartsAt(s, ClassOf(le, s[0]), 0);
  }

  lemma SameClass<T(!new)>(le: (T, T) -> bool, x: T, y: T, s: seq<T>)
    requires TotalPreorder(le) && Tied(le, x, y)
    ensures Filter(s, ClassOf(le, x)) == Filter(s, ClassOf(le, y))
    decreases |s|
  {
    if s != [] {
      SameClass(le, x, y, s[..|s| - 1]);
      assert ClassOf(le, x)(s[|s| - 1]) <==> ClassOf(le, y)(s[|s| - 1]);
    }
  }

  lemma DistinctHead<T>(s: seq<T>)
    requires s != []
    ensures Distinct(s) != [] && Distinct(s)[0] == s[0]
  {
    DistinctPrefix(s, 1);
    assert s[..1] == [s[0]];
    assert Distinct(s[..1]) == [s[0]] by { assert [s[0]][..0] == []; }
  }

  /** Two tied fingerprints come in the order of the input. */
  lemma FingerprintsShow<P(!new)>(le: Order, x: Item<P>, y: Item<P>, rest: seq<Item<P>>)
    requires TotalPreorder(le) && x.fingerprint != y.fingerprint && Tied(le, x.fingerprint, y.fingerprint)
    ensures Fingerprints(le, [x, y] + rest) != Fingerprints(le, [y, x] + rest)
  {
    var fa, fb := Map([x, y] + rest, FingerprintOf()), Map([y, x] + rest, FingerprintOf());
    DistinctHead(fa);
    DistinctHead(fb);
    SortKeepsFirst(Distinct(fa), le);
    SortKeepsFirst(Distinct(fb), le);
    SameClass(le, x.fingerprint, y.fingerprint, Fingerprints(le, [x, y] + rest));
  }

  lemma ResultNamesFingerprints<P>(le: Order, canon: P -> string, a: seq<Item<P>>, b: seq<Item<P>>)
    requires Correlate(le, canon, a) == Correlate(le, canon, b)
    ensures Fingerprints(le, a) == Fingerprints(le, b)
  {
    var fa, fb := Fingerprints(le, a), Fingerprints(le, b);
    assert |fa| == |Correlate(le, canon, a)| == |fb|;
    forall k | 0 <= k < |fa| ensures fa[k] == fb[k] {
      GroupAt(le, canon, a, k);
      GroupAt(le, canon, b, k);
    }
  }

  /** Where the tie class of the first member starts in the sorted pairs, and that the first
      member is there. */
  lemma FirstOfClass<P(!new)>(le: Order, canon: P -> string, members: seq<Item<P>>) returns (i: nat)
    requires TotalPreorder(le) && members != []
    ensures StartsWith(le, canon, members, i)
  {
    var unsorted := Map(members, ToPair(canon));
    var pairs := SortedPairs(le, canon, members);
    PairPreorder<P>(le);
    SortKeepsFirst(unsorted, PairLe(le));
    var keep := ClassOf(PairLe<P>(le), unsorted[0]);
    var kept := Filter(pairs, keep);
    assert kept[0] in pairs && keep(kept[0]);
    assert Occurs(pairs, keep) by {
      var k :| 0 <= k < |pairs| && pairs[k] == kept[0];
      assert keep(pairs[k]);
    }
    i := FirstIndex(pairs, keep);
    FilterStartsAt(pairs, keep, i);
  }

  /** Before the class starts no pair has the producer of a leading item of the class. */
  lemma NoEarlierProducer<P(!new)>(le: Order, canon: P -> string, members: seq<Item<P>>, i: nat, x: Item<P>, y: Item<P>)
    requires TotalPreorder(le) && x in members && y in members && SortTied(le, canon, x, y)
    requires forall z :: z in members && z.producerId == y.producerId ==> le(canon(y.payload), canon(z.payload))
    requires var pairs := SortedPairs(le, canon, members);
             && i < |pairs| && pairs[i] == ToPair(canon)(x)
             && forall k :: 0 <= k < i ==> !Tied(PairLe(le), pairs[k], pairs[i])
    ensures forall k :: 0 <= k < i ==> SortedPairs(le, canon, members)[k].producer != y.producerId
  {
    var pairs := SortedPairs(le, canon, members);
    SortedPairsFacts(le, canon, members);
    forall k | 0 <= k < i ensures pairs[k].producer != y.producerId {
      var z := FromMember(le, canon, members, pairs[k]);
      assert PairLe<P>(le)(pairs[k], pairs[i]);
      if z.producerId == y.producerId {
        EarlierWouldTie(le, pairs[k], pairs[i], y.producerId, canon(y.payload));
      }
    }
  }

  lemma EarlierWouldTie<P>(le: Order, p: Pair<P>, q: Pair<P>, producer: string, canonical: string)
    requires TotalPreorder(le) && PairLe<P>(le)(p, q) && p.producer == producer
    requires Tied(le, producer, q.producer) && Tied(le, canonical, q.canonical) && le(canonical, p.canonical)
    ensures Tied(PairLe<P>(le), p, q)
  {
    var a, b := Key(p.producer, p.canonical), Key(q.producer, q.canonical);
    assert KeyLe(le)(a, b) && le(p.canonical, q.canonical);
    assert le(q.canonical, canonical) && le(canonical, p.canonical);
    KeysTied(le, a, b);
    assert PairLe<P>(le)(q, p) == KeyLe(le)(b, a);
  }

  /** Two leading members of one tie class with different producers: the producer of the first
      member is listed first. */
  lemma ProducerShows<P(!new)>(le: Order, canon: P -> string, members: seq<Item<P>>, y: Item<P>, i: nat)
    requires TotalPreorder(le) && members != [] && y in members
    requires var x := members[0];
             && SortTied(le, canon, x, y) && x.producerId != y.producerId
             && forall z :: z in members && z.producerId == y.producerId ==> le(canon(y.payload), canon(z.payload))
    requires StartsWith(le, canon, members, i)
    ensures var producers := Map(SortedPairs(le, canon, members), Producer());
            members[0].producerId in producers[..i + 1] && y.producerId !in producers[..i + 1]
  {
    var pairs := SortedPairs(le, canon, members);
    var producers := Map(pairs, Producer());
    NoEarlierProducer(le, canon, members, i, members[0], y);
    var front := producers[..i + 1];
    assert front[i] == members[0].producerId;
    forall k | 0 <= k < |front| ensures front[k] != y.producerId {
      assert front[k] == pairs[k].producer;
    }
  }

  /** The class starts at one place for both orders. */
  lemma SameStart<P(!new)>(le: Order, a: seq<Pair<P>>, b: seq<Pair<P>>, x: Pair<P>, y: Pair<P>, i: nat, j: nat)
    requires TotalPreorder(le) && Sorted(a, PairLe(le)) && Sorted(b, PairLe(le)) && multiset(a) == multiset(b)
    requires Tied(PairLe(le), x, y)
    requires i < |a| && a[i] == x && forall k :: 0 <= k < i ==> !Tied(PairLe(le), a[k], x)
    requires j < |b| && b[j] == y && forall k :: 0 <= k < j ==> !Tied(PairLe(le), b[k], y)
    ensures i == j
  {
    PairPreorder<P>(le);
    assert |multiset(a)| == |a| && |multiset(b)| == |b|;
    SortedTie(a, b, PairLe(le), i);
    SortedTie(a, b, PairLe(le), j);
    TiedChain(PairLe<P>(le), b[i], x, y);
    TiedChain(PairLe<P>(le), a[j], y, x);
  }

  lemma TiedChain<T(!new)>(le: (T, T) -> bool, a: T, b: T, c: T)
    requires TotalPreorder(le) && Tied(le, b, c)
    ensures Tied(le, b, a) || Tied(le, a, b) ==> Tied(le, a, c)
  {
  }

  /** In both orders the tie class of the first two members starts at one place, with the one
      that came first. */
  lemma ClassStart<P(!new)>(le: Order, canon: P -> string, x: Item<P>, y: Item<P>, more: seq<Item<P>>) returns (i: nat)
    requires TotalPreorder(le) && SortTied(le, canon, x, y)
    ensures StartsWith(le, canon, [x, y] + more, i) && StartsWith(le, canon, [y, x] + more, i)
  {
    var a, b := [x, y] + more, [y, x] + more;
    var px, py := ToPair(canon)(x), ToPair(canon)(y);
    SwapFront(x, y, more);
    SortedPairsFacts(le, canon, a);
    SortedPairsFacts(le, canon, b);
    MapMultiset(a, b, ToPair(canon));
    i := FirstOfClass(le, canon, a);
    var j := FirstOfClass(le, canon, b);
    KeysTied(le, Key(px.producer, px.canonical), Key(py.producer, py.canonical));
    assert Tied(PairLe<P>(le), px, py);
    SameStart(le, SortedPairs(le, canon, a), SortedPairs(le, canon, b), px, py, i, j);
  }

  /** The tie class of the first member starts at `i`, with that member. */
  ghost predicate StartsWith<P>(le: Order, canon: P -> string, members: seq<Item<P>>, i: nat)
    requires members != []
  {
    var pairs, x := SortedPairs(le, canon, members), ToPair(canon)(members[0]);
    i < |pairs| && pairs[i] == x && forall k :: 0 <= k < i ==> !Tied(PairLe(le), pairs[k], x)
  }

  /** Two tied members in the two orders give different groups. */
  lemma GroupShows<P(!new)>(le: Order, canon: P -> string, f: string, x: Item<P>, y: Item<P>, more: seq<Item<P>>)
    requires TotalPreorder(le) && x.fingerprint == y.fingerprint == f && forall z :: z in more ==> z.fingerprint == f
    requires Clash(le, canon, [x, y] + more, x, y)
    ensures GroupOfPairs(f, SortedPairs(le, canon, [x, y] + more)) != GroupOfPairs(f, SortedPairs(le, canon, [y, x] + more))
  {
    var a, b := [x, y] + more, [y, x] + more;
    var pa, pb := SortedPairs(le, canon, a), SortedPairs(le, canon, b);
    var i := ClassStart(le, canon, x, y, more);
    if x.payload != y.payload {
      assert Map(pa, Payload())[i] == x.payload && Map(pb, Payload())[i] == y.payload;
    } else {
      SwapFront(x, y, more);
      SameMembership(a, b);
      assert x in a && y in a;
      ProducerShows(le, canon, a, y, i);
      ProducerShows(le, canon, b, x, i);
      DistinctDiffers(Map(pa, Producer()), Map(pb, Producer()), i + 1, i + 1, x.producerId, y.producerId);
    }
  }

  lemma MembersOfSwap<P>(x: Item<P>, y: Item<P>, rest: seq<Item<P>>)
    requires x.fingerprint == y.fingerprint
    ensures Members([x, y] + rest, x.fingerprint) == [x, y] + Members(rest, x.fingerprint)
  {
    FilterConcat([x, y], rest, HasFingerprint(x.fingerprint));
    assert [x, y] == [x] + [y];
    FilterConcat([x], [y], HasFingerprint(x.fingerprint));
    FilterOne(x, HasFingerprint(x.fingerprint));
    FilterOne(y, HasFingerprint(x.fingerprint));
  }

  /** A clash among all items is a clash among those of the fingerprint. */
  lemma ClashWithin<P(!new)>(le: Order, canon: P -> string, x: Item<P>, y: Item<P>, rest: seq<Item<P>>)
    requires x.fingerprint == y.fingerprint && Clash(le, canon, [x, y] + rest, x, y)
    ensures Clash(le, canon, [x, y] + Members(rest, x.fingerprint), x, y)
  {
    var all, members := [x, y] + rest, [x, y] + Members(rest, x.fingerprint);
    MembersAre(rest, x.fingerprint);
    assert forall z :: z in members ==> z in all;
  }

  /** Swapping two clashing items at the front shows in the result. */
  lemma SwapShows<P(!new)>(le: Order, canon: P -> string, x: Item<P>, y: Item<P>, rest: seq<Item<P>>)
    requires TotalPreorder(le) && Clash(le, canon, [x, y] + rest, x, y)
    ensures Correlate(le, canon, [x, y] + rest) != Correlate(le, canon, [y, x] + rest)
  {
    var a, b := [x, y] + rest, [y, x] + rest;
    if Correlate(le, canon, a) == Correlate(le, canon, b) {
      ResultNamesFingerprints(le, canon, a, b);
    }
    if x.fingerprint != y.fingerprint {
      FingerprintsShow(le, x, y, rest);
    } else {
      var f := x.fingerprint;
      var k: nat :| k < |Fingerprints(le, a)| && Fingerprints(le, a)[k] == f by {
        FingerprintsAreKeys(le, a);
        MapMembers(a, FingerprintOf(), 0);
      }
      GroupAt(le, canon, a, k);
      MembersOfSwap(x, y, rest);
      MembersOfSwap(y, x, rest);
      ClashWithin(le, canon, x, y, rest);
      MembersAre(rest, f);
      GroupShows(le, canon, f, x, y, Members(rest, f));
      if Fingerprints(le, a) == Fingerprints(le, b) {
        GroupAt(le, canon, b, k);
      }
    }
  }

  function Rest<T>(s: seq<T>, i: nat, j: nat): seq<T>
    requires i < j < |s|
  {
    s[..i] + s[i + 1..j] + s[j + 1..]
  }

  lemma PulledOut<T>(s: seq<T>, i: nat, j: nat)
    requires i < j < |s|
    ensures multiset([s[i], s[j]] + Rest(s, i, j)) == multiset(s)
  {
    var u, v, w := s[..i], s[i + 1..j], s[j + 1..];
    InParts(s, i, j);
    assert multiset(s) == multiset(u) + multiset([s[i]]) + multiset(v) + multiset([s[j]]) + multiset(w);
    assert multiset(Rest(s, i, j)) == multiset(u) + multiset(v) + multiset(w);
    assert multiset([s[i], s[j]]) == multiset([s[i]]) + multiset([s[j]]);
  }

  lemma InParts<T>(s: seq<T>, i: nat, j: nat)
    requires i < j < |s|
    ensures s == s[..i] + [s[i]] + s[i + 1..j] + [s[j]] + s[j + 1..]
  {
  }

  lemma SwapFront<T>(x: T, y: T, rest: seq<T>)
    ensures multiset([y, x] + rest) == multiset([x, y] + rest)
  {
  }

  /** Two clashing items can be brought to the front. */
  lemma BringToFront<P(!new)>(le: Order, canon: P -> string, items: seq<Item<P>>)
    returns (x: Item<P>, y: Item<P>, rest: seq<Item<P>>)
    requires TotalPreorder(le) && !Unambiguous(le, canon, items)
    ensures multiset([x, y] + rest) == multiset(items) && Clash(le, canon, [x, y] + rest, x, y)
  {
    x, y :| x in items && y in items && Clash(le, canon, items, x, y);
    var i :| 0 <= i < |items| && items[i] == x;
    var j :| 0 <= j < |items| && items[j] == y;
    if j < i {
      i, j := j, i;
      x, y := y, x;
    }
    rest := Rest(items, i, j);
    PulledOut(items, i, j);
    SameMembership([x, y] + rest, items);
    assert Leads(le, canon, items, x) ==> Leads(le, canon, [x, y] + rest, x);
    assert Leads(le, canon, items, y) ==> Leads(le, canon, [x, y] + rest, y);
  }

  // ---------------------------------------------------------------------
  // The two characterisations
  // ---------------------------------------------------------------------

  ghost predicate OrderFree<P(!new)>(le: Order, canon: P -> string, items: seq<Item<P>>) {
    forall b :: multiset(b) == multiset(items) ==> Correlate(le, canon, b) == Correlate(le, canon, items)
  }

  lemma OrderFreeAt<P(!new)>(le: Order, canon: P -> string, items: seq<Item<P>>, b: seq<Item<P>>)
    requires OrderFree(le, canon, items) && multiset(b) == multiset(items)
    ensures Correlate(le, canon, b) == Correlate(le, canon, items)
  {
  }

  /** The result itself, payloads included, is the same for every order of the items exactly
      when no two of them clash; for every collation that is a total preorder. */
  lemma OrderFreeIff<P(!new)>(le: Order, canon: P -> string, items: seq<Item<P>>)
    requires TotalPreorder(le)
    ensures OrderFree(le, canon, items) <==> Unambiguous(le, canon, items)
  {
    if Unambiguous(le, canon, items) {
      forall b | multiset(b) == multiset(items) ensures Correlate(le, canon, b) == Correlate(le, canon, items) {
        Determined(le, canon, items, b);
      }
    } else {
      var x, y, rest := BringToFront(le, canon, items);
      SwapFront(x, y, rest);
      SwapShows(le, canon, x, y, rest);
      if OrderFree(le, canon, items) {
        OrderFreeAt(le, canon, items, [x, y] + rest);
        OrderFreeAt(le, canon, items, [y, x] + rest);
      }
    }
  }

  /** Two items that agree in all the sort looks at and differ in payload. */
  predicate SameButPayload<P(==)>(canon: P -> string, x: Item<P>, y: Item<P>) {
    && x.fingerprint == y.fingerprint && x.producerId == y.producerId
    && canon(x.payload) == canon(y.payload) && x.payload != y.payload
  }

  lemma ClashUnderTotalOrder<P>(le: Order, canon: P -> string, items: seq<Item<P>>, x: Item<P>, y: Item<P>)
    requires TotalOrder(le)
    ensures Clash(le, canon, items, x, y) <==> SameButPayload(canon, x, y)
  {
    TiesUnderTotalOrder(le, x.fingerprint, y.fingerprint);
    TiesUnderTotalOrder(le, x.producerId, y.producerId);
    TiesUnderTotalOrder(le, canon(x.payload), canon(y.payload));
  }

  lemma TiesUnderTotalOrder(le: Order, a: string, b: string)
    requires TotalOrder(le)
    ensures Tied(le, a, b) <==> a == b
  {
    assert le(a, a);
  }

  ghost predicate PayloadsTold<P>(canon: P -> string, items: seq<Item<P>>) {
    forall x, y :: x in items && y in items ==> !SameButPayload(canon, x, y)
  }

  /** When ties of the collation are equalities, the only clashes are between payloads that the
      canonical form cannot tell apart. */
  lemma OrderFreeUnderTotalOrder<P(!new)>(le: Order, canon: P -> string, items: seq<Item<P>>)
    requires TotalOrder(le)
    ensures OrderFree(le, canon, items) <==> PayloadsTold(canon, items)
  {
    OrderFreeIff(le, canon, items);
    UnambiguousUnderTotalOrder(le, canon, items);
  }

  lemma UnambiguousUnderTotalOrder<P>(le: Order, canon: P -> string, items: seq<Item<P>>)
    requires TotalOrder(le)
    ensures Unambiguous(le, canon, items) <==> PayloadsTold(canon, items)
  {
    forall x, y | x in items && y in items ensures Clash(le, canon, items, x, y) <==> SameButPayload(canon, x, y) {
      ClashUnderTotalOrder(le, canon, items, x, y);
    }
  }

  // ---------------------------------------------------------------------
  // The canonical view
  // ---------------------------------------------------------------------

  /** A group as a reader of canonical JSON sees it. */
  function View<P>(canon: P -> string): Group<P> -> Group<string> {
    (g: Group<P>) => Group(g.fingerprint, g.producerIds, Map(g.payloads, canon), g.disagreement)
  }

  function CanonicalItem<P>(canon: P -> string): Item<P> -> Item<string> {
    (it: Item<P>) => Item(it.fingerprint, it.producerId, canon(it.payload))
  }

  function Same(): string -> string {
    (c: string) => c
  }

  function CanonicalPair<P>(): Pair<P> -> Pair<string> {
    (p: Pair<P>) => Pair(p.producer, p.canonical, p.canonical)
  }

  /** Mapping commutes with inserting and sorting when the comparison does not see it. */
  lemma {:induction false} FilterMap<A, B>(s: seq<A>, f: A -> B, keep: A -> bool, fkeep: B -> bool)
    requires forall k :: 0 <= k < |s| ==> keep(s[k]) == fkeep(f(s[k]))
    ensures Map(Filter(s, keep), f) == Filter(Map(s, f), fkeep)
  {
    if s != [] {
      var n := |s| - 1;
      FilterMap(s[..n], f, keep, fkeep);
      assert Map(s, f)[..n] == Map(s[..n], f);
      if keep(s[n]) { MapSnoc(Filter(s[..n], keep), s[n], f); }
    }
  }

  lemma ViewOfPairs<P(!new)>(le: Order, canon: P -> string, members: seq<Item<P>>)
    ensures SortedPairs(le, Same(), Map(members, CanonicalItem(canon))) == Map(SortedPairs(le, canon, members), CanonicalPair())
  {
    SortMap(Map(members, ToPair(canon)), PairLe(le), CanonicalPair(), PairLe(le));
    assert Map(Map(members, ToPair(canon)), CanonicalPair()) == Map(Map(members, CanonicalItem(canon)), ToPair(Same()));
  }

  /** The view of a group is the group of the canonical items. */
  lemma ViewOfGroup<P(!new)>(le: Order, canon: P -> string, f: string, members: seq<Item<P>>)
    ensures View(canon)(GroupOfPairs(f, SortedPairs(le, canon, members)))
         == GroupOfPairs(f, SortedPairs(le, Same(), Map(members, CanonicalItem(canon))))
  {
    var pairs := SortedPairs(le, canon, members);
    var seen := Map(pairs, CanonicalPair<P>());
    ViewOfPairs(le, canon, members);
    forall i | 0 <= i < |pairs| ensures canon(pairs[i].payload) == pairs[i].canonical {
      var x := FromMember(le, canon, members, pairs[i]);
    }
    assert Map(seen, Producer()) == Map(pairs, Producer());
    assert Map(seen, Canonical()) == Map(pairs, Canonical());
    assert Map(seen, Payload()) == Map(Map(pairs, Payload()), canon);
  }

  /** The view of the result is the result for the canonical items. */
  lemma ViewIsCorrelation<P(!new)>(le: Order, canon: P -> string, items: seq<Item<P>>)
    ensures Map(Correlate(le, canon, items), View(canon)) == Correlate(le, Same(), Map(items, CanonicalItem(canon)))
  {
    var seen := Map(items, CanonicalItem(canon));
    assert Map(seen, FingerprintOf()) == Map(items, FingerprintOf());
    var fs := Fingerprints(le, items);
    forall k | 0 <= k < |fs| ensures View(canon)(GroupOf(le, canon, items)(fs[k])) == GroupOf(le, Same(), seen)(fs[k]) {
      FilterMap(items, CanonicalItem(canon), HasFingerprint(fs[k]), HasFingerprint(fs[k]));
      ViewOfGroup(le, canon, fs[k], Members(items, fs[k]));
    }
  }

  ghost predicate ViewOrderFree<P(!new)>(le: Order, canon: P -> string, items: seq<Item<P>>) {
    forall b :: multiset(b) == multiset(items) ==> SameView(le, canon, b, items)
  }

  predicate SameView<P>(le: Order, canon: P -> string, a: seq<Item<P>>, b: seq<Item<P>>) {
    Map(Correlate(le, canon, a), View(canon)) == Map(Correlate(le, canon, b), View(canon))
  }

  /** Without a clash among the canonical items, permuting the items keeps the view. */
  lemma ViewDetermined<P(!new)>(le: Order, canon: P -> string, a: seq<Item<P>>, b: seq<Item<P>>)
    requires TotalPreorder(le) && Unambiguous(le, Same(), Map(a, CanonicalItem(canon))) && multiset(a) == multiset(b)
    ensures SameView(le, canon, a, b)
  {
    ViewIsCorrelation(le, canon, a);
    ViewIsCorrelation(le, canon, b);
    MapMultiset(a, b, CanonicalItem(canon));
    Determined(le, Same(), Map(a, CanonicalItem(canon)), Map(b, CanonicalItem(canon)));
  }

  /** Two clashing canonical items come from two items that can be brought to the front. */
  lemma BringCanonicalToFront<P(!new)>(le: Order, canon: P -> string, items: seq<Item<P>>)
    returns (x: Item<P>, y: Item<P>, rest: seq<Item<P>>)
    requires TotalPreorder(le) && !Unambiguous(le, Same(), Map(items, CanonicalItem(canon)))
    ensures multiset([x, y] + rest) == multiset(items)
    ensures var g := CanonicalItem(canon); Clash(le, Same(), [g(x), g(y)] + Map(rest, g), g(x), g(y))
  {
    var g := CanonicalItem(canon);
    var seen := Map(items, g);
    var u, v :| u in seen && v in seen && Clash(le, Same(), seen, u, v);
    var i :| 0 <= i < |seen| && seen[i] == u;
    var j :| 0 <= j < |seen| && seen[j] == v;
    if j < i { i, j := j, i; }
    x, y, rest := items[i], items[j], Rest(items, i, j);
    PulledOut(items, i, j);
    MapMultiset([x, y] + rest, items, g);
    MapFront(x, y, rest, g);
    ClashMoves(le, seen, [g(x), g(y)] + Map(rest, g), u, v);
  }

  lemma ClashMoves(le: Order, a: seq<Item<string>>, b: seq<Item<string>>, u: Item<string>, v: Item<string>)
    requires multiset(a) == multiset(b) && Clash(le, Same(), a, u, v)
    ensures Clash(le, Same(), b, u, v) && Clash(le, Same(), b, v, u)
  {
    SameMembership(a, b);
    assert Leads(le, Same(), a, u) ==> Leads(le, Same(), b, u);
    assert Leads(le, Same(), a, v) ==> Leads(le, Same(), b, v);
  }

  /** The canonical view of the result is the same for every order of the items exactly when no
      two canonical items clash. */
  lemma ViewOrderFreeIff<P(!new)>(le: Order, canon: P -> string, items: seq<Item<P>>)
    requires TotalPreorder(le)
    ensures ViewOrderFree(le, canon, items) <==> Unambiguous(le, Same(), Map(items, CanonicalItem(canon)))
  {
    if Unambiguous(le, Same(), Map(items, CanonicalItem(canon))) {
      forall b | multiset(b) == multiset(items) ensures SameView(le, canon, b, items) {
        ViewDetermined(le, canon, items, b);
      }
    } else {
      var x, y, rest := BringCanonicalToFront(le, canon, items);
      ViewSwapShows(le, canon, x, y, rest);
      SwapFront(x, y, rest);
      NotViewOrderFree(le, canon, items, [x, y] + rest, [y, x] + rest);
    }
  }

  lemma NotViewOrderFree<P(!new)>(le: Order, canon: P -> string, items: seq<Item<P>>, a: seq<Item<P>>, b: seq<Item<P>>)
    requires multiset(a) == multiset(items) && multiset(b) == multiset(items) && !SameView(le, canon, a, b)
    ensures !ViewOrderFree(le, canon, items)
  {
    if SameView(le, canon, a, items) {
      assert !SameView(le, canon, b, items);
    }
  }

  lemma ViewsDiffer<P(!new)>(le: Order, canon: P -> string, a: seq<Item<P>>, b: seq<Item<P>>)
    requires Correlate(le, Same(), Map(a, CanonicalItem(canon))) != Correlate(le, Same(), Map(b, CanonicalItem(canon)))
    ensures !SameView(le, canon, a, b)
  {
    ViewIsCorrelation(le, canon, a);
    ViewIsCorrelation(le, canon, b);
  }

  lemma MapFront<A, B>(x: A, y: A, rest: seq<A>, f: A -> B)
    ensures Map([x, y] + rest, f) == [f(x), f(y)] + Map(rest, f)
  {
  }

  lemma ViewSwapShows<P(!new)>(le: Order, canon: P -> string, x: Item<P>, y: Item<P>, rest: seq<Item<P>>)
    requires TotalPreorder(le)
    requires var g := CanonicalItem(canon); Clash(le, Same(), [g(x), g(y)] + Map(rest, g), g(x), g(y))
    ensures !SameView(le, canon, [x, y] + rest, [y, x] + rest)
  {
    var g := CanonicalItem(canon);
    SwapShows(le, Same(), g(x), g(y), Map(rest, g));
    MapFront(x, y, rest, g);
    MapFront(y, x, rest, g);
    ViewsDiffer(le, canon, [x, y] + rest, [y, x] + rest);
  }

  /** When ties of the collation are equalities, permuting the items never changes the view. */
  lemma PermutationInvariant<P(!new)>(le: Order, canon: P -> string, a: seq<Item<P>>, b: seq<Item<P>>)
    requires TotalOrder(le) && multiset(a) == multiset(b)
    ensures SameView(le, canon, a, b)
  {
    UnambiguousUnderTotalOrder(le, Same(), Map(a, CanonicalItem(canon)));
    ViewDetermined(le, canon, a, b);
  }
}
