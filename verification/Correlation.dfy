/** Grouping of observations by fingerprint (packages/shared/src/correlation.ts).
    `localeCompare` is a parameter: any total preorder on strings, so a collation may tie
    different strings. */
module Correlation {
  import opened Sequences
  import opened Sorting

  datatype Item<P> = Item(fingerprint: string, producerId: string, payload: P)

  datatype Group<P> = Group(fingerprint: string, producerIds: seq<string>, payloads: seq<P>, disagreement: bool)

  datatype Pair<P> = Pair(producer: string, payload: P, canonical: string)

  /** What the pair sort looks at. */
  datatype Key = Key(producer: string, canonical: string)

  type Order = (string, string) -> bool

  function KeyLe(le: Order): (Key, Key) -> bool {
    (a: Key, b: Key) =>
      if Tied(le, a.producer, b.producer) then le(a.canonical, b.canonical) else le(a.producer, b.producer)
  }

  function KeyOf<P>(): Pair<P> -> Key {
    (p: Pair<P>) => Key(p.producer, p.canonical)
  }

  function PairLe<P>(le: Order): (Pair<P>, Pair<P>) -> bool {
    (a: Pair<P>, b: Pair<P>) => KeyLe(le)(Key(a.producer, a.canonical), Key(b.producer, b.canonical))
  }

  function ToPair<P>(canon: P -> string): Item<P> -> Pair<P> {
    (it: Item<P>) => Pair(it.producerId, it.payload, canon(it.payload))
  }

  function FingerprintOf<P>(): Item<P> -> string {
    (it: Item<P>) => it.fingerprint
  }

  function HasFingerprint<P>(f: string): Item<P> -> bool {
    (it: Item<P>) => it.fingerprint == f
  }

  function Producer<P>(): Pair<P> -> string { (p: Pair<P>) => p.producer }

  function Payload<P>(): Pair<P> -> P { (p: Pair<P>) => p.payload }

  function Canonical<P>(): Pair<P> -> string { (p: Pair<P>) => p.canonical }

  // ---------------------------------------------------------------------
  // The result as a function of the items
  // ---------------------------------------------------------------------

  function Members<P>(items: seq<Item<P>>, f: string): seq<Item<P>> {
    Filter(items, HasFingerprint(f))
  }

  function SortedPairs<P>(le: Order, canon: P -> string, members: seq<Item<P>>): seq<Pair<P>> {
    Sort(Map(members, ToPair(canon)), PairLe(le))
  }

  function GroupOfPairs<P>(f: string, pairs: seq<Pair<P>>): Group<P> {
    Group(f, Distinct(Map(pairs, Producer())), Map(pairs, Payload()), |Distinct(Map(pairs, Canonical()))| > 1)
  }

  function GroupOf<P>(le: Order, canon: P -> string, items: seq<Item<P>>): string -> Group<P> {
    (f: string) => GroupOfPairs(f, SortedPairs(le, canon, Members(items, f)))
  }

  function Fingerprints<P>(le: Order, items: seq<Item<P>>): seq<string> {
    Sort(Distinct(Map(items, FingerprintOf())), le)
  }

  function Correlate<P>(le: Order, canon: P -> string, items: seq<Item<P>>): seq<Group<P>> {
    Map(Fingerprints(le, items), GroupOf(le, canon, items))
  }

  // ---------------------------------------------------------------------
  // What the result is, told from the items
  // ---------------------------------------------------------------------

  /** By producer, and where the collation ties the producers by canonical form. */
  predicate Precedes<P>(le: Order, canon: P -> string, x: Item<P>, y: Item<P>) {
    || (le(x.producerId, y.producerId) && !le(y.producerId, x.producerId))
    || (Tied(le, x.producerId, y.producerId) && le(canon(x.payload), canon(y.payload)))
  }

  /** The items that cannot be told apart from `x` by that. */
  function TiedWith<P>(le: Order, canon: P -> string, x: Item<P>): Item<P> -> bool {
    (y: Item<P>) =>
      y.fingerprint == x.fingerprint && Tied(le, x.producerId, y.producerId) && Tied(le, canon(x.payload), canon(y.payload))
  }

  /** `s` holds all items of the fingerprint, in order, and in input order where they tie. */
  ghost predicate Arranged<P(!new)>(le: Order, canon: P -> string, items: seq<Item<P>>, f: string, s: seq<Item<P>>) {
    && s != []
    && (forall x: Item<P> :: multiset(s)[x] == if x.fingerprint == f then multiset(items)[x] else 0)
    && (forall i, j :: 0 <= i < j < |s| ==> Precedes(le, canon, s[i], s[j]))
    && (forall x: Item<P> :: x.fingerprint == f ==> Filter(s, TiedWith(le, canon, x)) == Filter(items, TiedWith(le, canon, x)))
  }

  /** The group shows the arranged items: their payloads one by one, their producers as they first
      appear, and whether two of them differ canonically. */
  ghost predicate Shows<P>(canon: P -> string, s: seq<Item<P>>, g: Group<P>) {
    && |g.payloads| == |s| && (forall i :: 0 <= i < |s| ==> g.payloads[i] == s[i].payload)
    && FirstAppearances(g.producerIds, Map(s, ProducerId()))
    && (g.disagreement <==> exists i, j :: 0 <= i < j < |s| && canon(s[i].payload) != canon(s[j].payload))
  }

  ghost predicate IsGroup<P(!new)>(le: Order, canon: P -> string, items: seq<Item<P>>, g: Group<P>) {
    exists s :: Arranged(le, canon, items, g.fingerprint, s) && Shows(canon, s, g)
  }

  /** One group per fingerprint of the items, in order. */
  ghost predicate Correlated<P(!new)>(le: Order, canon: P -> string, items: seq<Item<P>>, groups: seq<Group<P>>) {
    && (forall i, j :: 0 <= i < j < |groups| ==>
          groups[i].fingerprint != groups[j].fingerprint && le(groups[i].fingerprint, groups[j].fingerprint))
    && (forall k :: 0 <= k < |items| ==> exists i :: 0 <= i < |groups| && groups[i].fingerprint == items[k].fingerprint)
    && (forall i :: 0 <= i < |groups| ==> IsGroup(le, canon, items, groups[i]))
  }

  // ---------------------------------------------------------------------
  // The loop over a growing Map
  // ---------------------------------------------------------------------

  datatype Bucket<P> = Bucket(producers: seq<string>, payloads: seq<P>)

  function ProducerId<P>(): Item<P> -> string { (it: Item<P>) => it.producerId }

  function ItemPayload<P>(): Item<P> -> P { (it: Item<P>) => it.payload }

  function BucketOf<P>(members: seq<Item<P>>): Bucket<P> {
    Bucket(Map(members, ProducerId()), Map(members, ItemPayload()))
  }

  /** The JavaScript Map after the items `done`: keys in insertion order, and their arrays. */
  ghost predicate MapHolds<P>(order: seq<string>, groups: map<string, Bucket<P>>, done: seq<Item<P>>) {
    && order == Distinct(Map(done, FingerprintOf()))
    && KeysHold(order, groups) && BucketsHold(groups, done)
  }

  /** The JavaScript `groups.get(key) ?? { producers: [], payloads: [] }` with one item pushed. */
  function Pushed<P>(groups: map<string, Bucket<P>>, item: Item<P>): Bucket<P> {
    var current := if item.fingerprint in groups then groups[item.fingerprint] else Bucket([], []);
    Bucket(current.producers + [item.producerId], current.payloads + [item.payload])
  }

  lemma OrderStep<P>(order: seq<string>, done: seq<Item<P>>, item: Item<P>)
    requires order == Distinct(Map(done, FingerprintOf()))
    ensures After(order, item.fingerprint) == Distinct(Map(done + [item], FingerprintOf()))
  {
    MapSnoc(done, item, FingerprintOf());
    DistinctSnoc(Map(done, FingerprintOf()), item.fingerprint);
  }

  /** The keys of a Map after a write: a new key goes to the end. */
  function After(order: seq<string>, key: string): seq<string> {
    if key in order then order else order + [key]
  }

  /** The bucket of the item's own fingerprint grows by the item. */
  lemma OwnBucket<P>(groups: map<string, Bucket<P>>, done: seq<Item<P>>, item: Item<P>)
    requires var key := item.fingerprint;
             if key in groups then groups[key] == BucketOf(Members(done, key)) else Members(done, key) == []
    ensures Pushed(groups, item) == BucketOf(Members(done + [item], item.fingerprint))
  {
    var members := Members(done, item.fingerprint);
    FilterSnoc(done, item, HasFingerprint(item.fingerprint));
    MapSnoc(members, item, ProducerId());
    MapSnoc(members, item, ItemPayload());
  }

  /** Every other bucket stays. */
  lemma OtherBucket<P>(done: seq<Item<P>>, item: Item<P>, f: string)
    requires f != item.fingerprint
    ensures Members(done + [item], f) == Members(done, f)
  {
    FilterSnoc(done, item, HasFingerprint(f));
  }

  ghost predicate KeysHold<P>(order: seq<string>, groups: map<string, Bucket<P>>) {
    forall f :: f in groups <==> f in order
  }

  lemma KeysStep<P>(order: seq<string>, groups: map<string, Bucket<P>>, key: string, bucket: Bucket<P>)
    requires KeysHold(order, groups)
    ensures KeysHold(After(order, key), groups[key := bucket])
  {
  }

  ghost predicate BucketsHold<P>(groups: map<string, Bucket<P>>, done: seq<Item<P>>) {
    forall f :: f in groups ==> groups[f] == BucketOf(Members(done, f))
  }

  lemma BucketsStep<P>(groups: map<string, Bucket<P>>, done: seq<Item<P>>, item: Item<P>)
    requires BucketsHold(groups, done)
    requires item.fingerprint !in groups ==> Members(done, item.fingerprint) == []
    ensures BucketsHold(groups[item.fingerprint := Pushed(groups, item)], done + [item])
  {
    var key := item.fingerprint;
    var after := groups[key := Pushed(groups, item)];
    OwnBucket(groups, done, item);
    forall f | f in after ensures after[f] == BucketOf(Members(done + [item], f)) {
      if f != key { OtherBucket(done, item, f); }
    }
  }

  lemma NewBucket<P>(order: seq<string>, groups: map<string, Bucket<P>>, done: seq<Item<P>>, f: string)
    requires MapHolds(order, groups, done)
    ensures f !in groups ==> Members(done, f) == []
  {
    if f !in groups { NoMembers(done, f); }
  }

  lemma MapStep<P>(order: seq<string>, groups: map<string, Bucket<P>>, done: seq<Item<P>>, item: Item<P>)
    requires MapHolds(order, groups, done)
    ensures MapHolds(After(order, item.fingerprint), groups[item.fingerprint := Pushed(groups, item)], done + [item])
  {
    OrderStep(order, done, item);
    KeysStep(order, groups, item.fingerprint, Pushed(groups, item));
    NewBucket(order, groups, done, item.fingerprint);
    BucketsStep(groups, done, item);
  }

  lemma {:induction false} NoMembers<P>(items: seq<Item<P>>, f: string)
    requires f !in Map(items, FingerprintOf())
    ensures Members(items, f) == []
    decreases |items|
  {
    if items != [] {
      var n := |items| - 1;
      assert Map(items, FingerprintOf())[n] == items[n].fingerprint;
      assert forall i :: 0 <= i < n ==> Map(items[..n], FingerprintOf())[i] == Map(items, FingerprintOf())[i];
      NoMembers(items[..n], f);
    }
  }

  function Zip<P>(b: Bucket<P>, canon: P -> string): seq<Pair<P>>
    requires |b.producers| == |b.payloads|
  {
    seq(|b.payloads|, i requires 0 <= i < |b.payloads| => Pair(b.producers[i], b.payloads[i], canon(b.payloads[i])))
  }

  /** Zipping the two arrays of a bucket gives the pairs of its members. */
  lemma ZipBucket<P>(members: seq<Item<P>>, canon: P -> string)
    ensures Map(members, ToPair(canon)) == Zip(BucketOf(members), canon)
  {
  }

  /** The filling loop. */
  method FillMap<P>(items: seq<Item<P>>) returns (order: seq<string>, groups: map<string, Bucket<P>>)
    ensures MapHolds(order, groups, items)
  {
    order, groups := [], map[];
    for i := 0 to |items|
      invariant MapHolds(order, groups, items[..i])
    {
      var item := items[i];
      var key := item.fingerprint;
      MapStep(order, groups, items[..i], item);
      TakeOneMore(items, i);
      if key !in groups { order := order + [key]; }
      groups := groups[key := Pushed(groups, item)];
    }
    TakeAll(items);
  }

  method CorrelateObservations<P(!new)>(le: Order, canon: P -> string, items: seq<Item<P>>) returns (result: seq<Group<P>>)
    ensures result == Correlate(le, canon, items)
    ensures TotalPreorder(le) ==> Correlated(le, canon, items, result)
  {
    var order, groups := FillMap(items);
    var sorted := Sort(order, le);
    SortMembers(order, le);
    result := [];
    for k := 0 to |sorted|
      invariant result == Map(sorted[..k], GroupOf(le, canon, items))
    {
      var f := sorted[k];
      var bucket := groups[f];
      ZipBucket(Members(items, f), canon);
      var pairs := Sort(Zip(bucket, canon), PairLe(le));
      TakeOneMore(sorted, k);
      MapSnoc(sorted[..k], f, GroupOf(le, canon, items));
      result := result + [GroupOfPairs(f, pairs)];
    }
    TakeAll(sorted);
    if TotalPreorder(le) { CorrelateCorrelates(le, canon, items); }
  }

  // ---------------------------------------------------------------------
  // The order of the pairs
  // ---------------------------------------------------------------------

  lemma KeyPreorder(le: Order)
    requires TotalPreorder(le)
    ensures TotalPreorder(KeyLe(le))
  {
    var kle := KeyLe(le);
    forall a: Key, b: Key ensures kle(a, b) || kle(b, a) {
      assert le(a.producer, b.producer) || le(b.producer, a.producer);
      assert le(a.canonical, b.canonical) || le(b.canonical, a.canonical);
    }
    forall a: Key, b: Key, c: Key | kle(a, b) && kle(b, c) ensures kle(a, c) {
      KeyTransitive(le, a, b, c);
    }
  }

  lemma KeyTransitive(le: Order, a: Key, b: Key, c: Key)
    requires TotalPreorder(le) && KeyLe(le)(a, b) && KeyLe(le)(b, c)
    ensures KeyLe(le)(a, c)
  {
    assert le(a.producer, b.producer) && le(b.producer, c.producer);
    assert le(a.producer, c.producer);
    if le(c.producer, a.producer) {
      assert le(b.producer, a.producer) && le(c.producer, b.producer);
      assert le(a.canonical, b.canonical) && le(b.canonical, c.canonical);
    }
  }

  lemma PairPreorder<P(!new)>(le: Order)
    requires TotalPreorder(le)
    ensures TotalPreorder(PairLe<P>(le))
  {
    KeyPreorder(le);
    var kle, ple := KeyLe(le), PairLe<P>(le);
    assert forall a: Pair<P>, b: Pair<P> :: ple(a, b) == kle(KeyOf<P>()(a), KeyOf<P>()(b));
  }

  function ItemLe<P>(le: Order, canon: P -> string): (Item<P>, Item<P>) -> bool {
    (x: Item<P>, y: Item<P>) => Precedes(le, canon, x, y)
  }

  /** The pair sort compares items by producer and canonical form. */
  lemma PairsCompareItems<P>(le: Order, canon: P -> string, x: Item<P>, y: Item<P>)
    ensures PairLe(le)(ToPair(canon)(x), ToPair(canon)(y)) == Precedes(le, canon, x, y)
  {
    var a, b := Key(x.producerId, canon(x.payload)), Key(y.producerId, canon(y.payload));
    assert PairLe<P>(le)(ToPair(canon)(x), ToPair(canon)(y)) == KeyLe(le)(a, b);
  }

  lemma ItemPreorder<P(!new)>(le: Order, canon: P -> string)
    requires TotalPreorder(le)
    ensures TotalPreorder(ItemLe(le, canon))
  {
    PairPreorder<P>(le);
    var ple, ile, pair := PairLe<P>(le), ItemLe(le, canon), ToPair(canon);
    forall x: Item<P>, y: Item<P> ensures ile(x, y) == ple(pair(x), pair(y)) {
      PairsCompareItems(le, canon, x, y);
    }
  }

  /** The items of a group as they are shown. */
  function SortedMembers<P>(le: Order, canon: P -> string, items: seq<Item<P>>, f: string): seq<Item<P>> {
    Sort(Members(items, f), ItemLe(le, canon))
  }

  lemma PairsOfSorted<P(!new)>(le: Order, canon: P -> string, items: seq<Item<P>>, f: string)
    ensures SortedPairs(le, canon, Members(items, f)) == Map(SortedMembers(le, canon, items, f), ToPair(canon))
  {
    forall x: Item<P>, y: Item<P> ensures ItemLe(le, canon)(x, y) == PairLe(le)(ToPair(canon)(x), ToPair(canon)(y)) {
      PairsCompareItems(le, canon, x, y);
    }
    SortMap(Members(items, f), ItemLe(le, canon), ToPair(canon), PairLe(le));
  }

  lemma MembersArranged<P(!new)>(le: Order, canon: P -> string, items: seq<Item<P>>, f: string)
    requires TotalPreorder(le) && f in Map(items, FingerprintOf())
    ensures Arranged(le, canon, items, f, SortedMembers(le, canon, items, f))
  {
    var members, s, ile := Members(items, f), SortedMembers(le, canon, items, f), ItemLe(le, canon);
    HasMembers(items, f);
    SortMultiset(members, ile);
    ItemPreorder(le, canon);
    SortSorted(members, ile);
    forall x: Item<P> ensures multiset(s)[x] == if x.fingerprint == f then multiset(items)[x] else 0 {
      FilterMultiset(items, HasFingerprint(f), x);
    }
    assert forall i, j :: 0 <= i < j < |s| ==> ile(s[i], s[j]);
    forall x: Item<P> | x.fingerprint == f
      ensures Filter(s, TiedWith(le, canon, x)) == Filter(items, TiedWith(le, canon, x))
    {
      TiesKeepOrder(le, canon, items, x);
    }
  }

  lemma TiedTogether(le: Order, x: string, a: string, b: string)
    requires TotalPreorder(le) && Tied(le, x, a) && Tied(le, x, b)
    ensures Tied(le, a, b)
  {
  }

  lemma TiesKeepOrder<P(!new)>(le: Order, canon: P -> string, items: seq<Item<P>>, x: Item<P>)
    requires TotalPreorder(le)
    ensures Filter(SortedMembers(le, canon, items, x.fingerprint), TiedWith(le, canon, x)) ==
            Filter(items, TiedWith(le, canon, x))
  {
    var keep, ile := TiedWith(le, canon, x), ItemLe(le, canon);
    forall a, b | keep(a) && keep(b) ensures ile(a, b) {
      TiedTogether(le, x.producerId, a.producerId, b.producerId);
      TiedTogether(le, canon(x.payload), canon(a.payload), canon(b.payload));
    }
    SortStable(Members(items, x.fingerprint), ile, keep);
    FilterWithin(items, keep, HasFingerprint(x.fingerprint));
  }

  lemma GroupShowsMembers<P(!new)>(le: Order, canon: P -> string, items: seq<Item<P>>, f: string)
    ensures Shows(canon, SortedMembers(le, canon, items, f), GroupOf(le, canon, items)(f))
  {
    var s := SortedMembers(le, canon, items, f);
    PairsOfSorted(le, canon, items, f);
    PairsShowItems(canon, f, s);
  }

  lemma PairsShowItems<P>(canon: P -> string, f: string, s: seq<Item<P>>)
    ensures Shows(canon, s, GroupOfPairs(f, Map(s, ToPair(canon))))
  {
    var pairs := Map(s, ToPair(canon));
    assert Map(pairs, Producer()) == Map(s, ProducerId());
    DistinctInOrder(Map(s, ProducerId()));
    PairsDiffer(canon, s);
  }

  lemma PairsDiffer<P>(canon: P -> string, s: seq<Item<P>>)
    ensures var canons := Map(Map(s, ToPair(canon)), Canonical());
            |Distinct(canons)| > 1 <==> exists i, j :: 0 <= i < j < |s| && canon(s[i].payload) != canon(s[j].payload)
  {
    var canons := Map(Map(s, ToPair(canon)), Canonical());
    assert forall i :: 0 <= i < |s| ==> canons[i] == canon(s[i].payload);
    TwoDistinct(Distinct(canons), canons);
  }

  /** The specification function gives one group per fingerprint, in order, each showing its items
      in the order of producers and canonical forms. */
  lemma CorrelateCorrelates<P(!new)>(le: Order, canon: P -> string, items: seq<Item<P>>)
    requires TotalPreorder(le)
    ensures Correlated(le, canon, items, Correlate(le, canon, items))
  {
    var groups := Correlate(le, canon, items);
    GroupsStrictlyOrdered(le, canon, items);
    FingerprintsAreKeys(le, items);
    forall k | 0 <= k < |items| ensures exists i :: 0 <= i < |groups| && groups[i].fingerprint == items[k].fingerprint {
      var i := EveryItemHasItsGroup(le, canon, items, k);
    }
    forall i | 0 <= i < |groups| ensures IsGroup(le, canon, items, groups[i]) {
      var f := Fingerprints(le, items)[i];
      assert f in Fingerprints(le, items);
      MembersArranged(le, canon, items, f);
      GroupShowsMembers(le, canon, items, f);
    }
  }

  // ---------------------------------------------------------------------
  // Groups partition the items
  // ---------------------------------------------------------------------

  /** Fingerprints are distinct, in increasing order, and those of the items. */
  lemma FingerprintsAreKeys<P>(le: Order, items: seq<Item<P>>)
    requires TotalPreorder(le)
    ensures var fs := Fingerprints(le, items);
            && NoDuplicates(fs) && Sorted(fs, le)
            && (forall f :: f in fs <==> f in Map(items, FingerprintOf()))
  {
    var distinct := Distinct(Map(items, FingerprintOf()));
    SortMembers(distinct, le);
    SortSorted(distinct, le);
  }

  lemma GroupAt<P>(le: Order, canon: P -> string, items: seq<Item<P>>, k: nat)
    requires k < |Fingerprints(le, items)|
    ensures var f := Fingerprints(le, items)[k];
            Correlate(le, canon, items)[k] == GroupOfPairs(f, SortedPairs(le, canon, Members(items, f)))
  {
  }

  /** Each fingerprint has at most one group, and groups come in increasing order. */
  lemma GroupsStrictlyOrdered<P>(le: Order, canon: P -> string, items: seq<Item<P>>)
    requires TotalPreorder(le)
    ensures var groups := Correlate(le, canon, items);
            forall i, j :: 0 <= i < j < |groups| ==>
              groups[i].fingerprint != groups[j].fingerprint && le(groups[i].fingerprint, groups[j].fingerprint)
  {
    FingerprintsAreKeys(le, items);
    var groups, fs := Correlate(le, canon, items), Fingerprints(le, items);
    assert forall i :: 0 <= i < |groups| ==> groups[i].fingerprint == fs[i];
  }

  /** Every item is in a group: the one of its fingerprint. */
  lemma EveryItemHasItsGroup<P>(le: Order, canon: P -> string, items: seq<Item<P>>, k: nat) returns (i: nat)
    requires TotalPreorder(le) && k < |items|
    ensures i < |Correlate(le, canon, items)|
    ensures Correlate(le, canon, items)[i].fingerprint == items[k].fingerprint
  {
    FingerprintsAreKeys(le, items);
    MapMembers(items, FingerprintOf(), k);
    var fs := Fingerprints(le, items);
    i :| 0 <= i < |fs| && fs[i] == items[k].fingerprint;
    GroupAt(le, canon, items, i);
  }

  /** A group holds exactly the payloads and producers of its items. */
  lemma GroupsHoldExactly<P>(le: Order, canon: P -> string, items: seq<Item<P>>, i: nat)
    requires TotalPreorder(le) && i < |Correlate(le, canon, items)|
    ensures var g := Correlate(le, canon, items)[i];
            HoldsExactly(g, Members(items, g.fingerprint))
  {
    FingerprintsAreKeys(le, items);
    var f := Fingerprints(le, items)[i];
    assert f in Fingerprints(le, items);
    GroupAt(le, canon, items, i);
    HasMembers(items, f);
    PairsCarryMembers(le, canon, Members(items, f));
  }

  /** No payload is lost or duplicated, and the producers are those of the members, once each. */
  ghost predicate HoldsExactly<P>(g: Group<P>, members: seq<Item<P>>) {
    && members != []
    && multiset(g.payloads) == multiset(Map(members, ItemPayload()))
    && (forall p :: p in g.producerIds <==> p in Map(members, ProducerId()))
    && NoDuplicates(g.producerIds)
  }

  lemma {:induction false} HasMembers<P>(items: seq<Item<P>>, f: string)
    requires f in Map(items, FingerprintOf())
    ensures Members(items, f) != []
    decreases |items|
  {
    var n := |items| - 1;
    if items[n].fingerprint != f {
      var k :| 0 <= k < |items| && Map(items, FingerprintOf())[k] == f;
      assert Map(items[..n], FingerprintOf())[k] == f;
      HasMembers(items[..n], f);
    }
  }

  lemma PairsCarryMembers<P>(le: Order, canon: P -> string, members: seq<Item<P>>)
    ensures var pairs := SortedPairs(le, canon, members);
            && multiset(Map(pairs, Payload())) == multiset(Map(members, ItemPayload()))
            && multiset(Map(pairs, Producer())) == multiset(Map(members, ProducerId()))
            && multiset(Map(pairs, Canonical())) == multiset(Map(Map(members, ItemPayload()), canon))
            && (forall p :: p in Map(pairs, Producer()) <==> p in Map(members, ProducerId()))
            && (forall c :: c in Map(pairs, Canonical()) <==> c in Map(Map(members, ItemPayload()), canon))
  {
    var unsorted := Map(members, ToPair(canon));
    var pairs := SortedPairs(le, canon, members);
    SortMultiset(unsorted, PairLe(le));
    MapMultiset(pairs, unsorted, Payload());
    MapMultiset(pairs, unsorted, Producer());
    MapMultiset(pairs, unsorted, Canonical());
    assert Map(unsorted, Payload()) == Map(members, ItemPayload());
    assert Map(unsorted, Producer()) == Map(members, ProducerId());
    assert Map(unsorted, Canonical()) == Map(Map(members, ItemPayload()), canon);
    SameMembership(Map(pairs, Producer()), Map(members, ProducerId()));
    SameMembership(Map(pairs, Canonical()), Map(Map(members, ItemPayload()), canon));
  }

  /** A group disagrees exactly when two of its items differ canonically. */
  lemma DisagreementIff<P>(le: Order, canon: P -> string, items: seq<Item<P>>, f: string)
    ensures GroupOf(le, canon, items)(f).disagreement <==>
              exists i, j :: 0 <= i < j < |Members(items, f)|
                && canon(Members(items, f)[i].payload) != canon(Members(items, f)[j].payload)
  {
    var members := Members(items, f);
    PairsCarryMembers(le, canon, members);
    var canons := Map(SortedPairs(le, canon, members), Canonical());
    var all := Map(Map(members, ItemPayload()), canon);
    var d := Distinct(canons);
    assert forall i :: 0 <= i < |members| ==> all[i] == canon(members[i].payload);
    assert (forall c :: c in d ==> c in all) && (forall c :: c in all ==> c in d);
    TwoDistinct(d, all);
  }

  /** A duplicate-free list with the elements of `all` is longer than one exactly when `all`
      is not constant. */
  lemma TwoDistinct(d: seq<string>, all: seq<string>)
    requires NoDuplicates(d)
    requires (forall c :: c in d ==> c in all) && (forall c :: c in all ==> c in d)
    ensures |d| > 1 <==> exists i, j :: 0 <= i < j < |all| && all[i] != all[j]
  {
    if |d| > 1 {
      assert d[0] in all && d[1] in all;
      var i :| 0 <= i < |all| && all[i] == d[0];
      var j :| 0 <= j < |all| && all[j] == d[1];
      assert all[if i < j then i else j] != all[if i < j then j else i];
    }
    if i, j :| 0 <= i < j < |all| && all[i] != all[j] {
      assert all[i] in d && all[j] in d;
      var u :| 0 <= u < |d| && d[u] == all[i];
      var v :| 0 <= v < |d| && d[v] == all[j];
    }
  }
}
