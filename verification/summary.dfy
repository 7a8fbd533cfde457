/**
 * calculateTypeEffectivenessSummary: over a list of defender entries, how many entries
 * each attacking type hits for 4x and for 2x, as two lists of (type, count) pairs
 * ordered by count, most hits first.
 */
module Summary {
  import opened Catalog
  import opened Breakdown
  import opened StableSort

  /** One entry of a summary list: an attacking type and the number of defenders it hits. */
  type Entry = (TypeId, nat)

  /** The entries of a JavaScript `Map` from attacking type to count, in first-insertion order. */
  type Tally = seq<Entry>

  /** The keys of the map, in insertion order. */
  function Names(t: Tally): (r: seq<TypeId>)
    ensures |r| == |t| && forall i | 0 <= i < |t| :: r[i] == t[i].0
  {
    if t == [] then [] else [t[0].0] + Names(t[1..])
  }

  /** Every count in the map is positive. */
  predicate Positive(t: Tally) {
    forall i | 0 <= i < |t| :: t[i].1 > 0
  }

  /** `map.get(a) || 0`: zero for a missing key; positive for a present key of a map of positive counts. */
  function CountOf(t: Tally, a: TypeId): (n: nat)
    ensures a !in Names(t) ==> n == 0
    ensures Positive(t) && a in Names(t) ==> n > 0
  {
    if t == [] then 0 else if t[0].0 == a then t[0].1 else CountOf(t[1..], a)
  }

  /**
   * `map.set(a, (map.get(a) || 0) + 1)`: a key already present keeps its place and gets
   * the next count; a new key goes at the end with count 1.
   */
  function Increment(t: Tally, a: TypeId): (r: Tally)
  {
    if t == [] then [(a, 1)]
    else if t[0].0 == a then [(a, t[0].1 + 1)] + t[1..]
    else [t[0]] + Increment(t[1..], a)
  }

  /** One increment per element of xs, in the order of xs. */
  function AddAll(t: Tally, xs: seq<TypeId>): Tally {
    if xs == [] then t else Increment(AddAll(t, xs[..|xs| - 1]), xs[|xs| - 1])
  }

  /** The entries of a summary list are catalog types. */
  predicate AllPlaceable(c: Chart, list: seq<Defender>) {
    c.WellFormed() && forall p | p in list :: Placeable(c, p)
  }

  /** The attackers the breakdown of entry p lists under multiplier m. */
  function ListedFor(c: Chart, p: Defender, m: real): seq<TypeId>
    requires Placeable(c, p)
  {
    Listed(c, Unpack(p).0, Unpack(p).1, m)
  }

  /** The map calculateTypeEffectivenessSummary builds for multiplier m over the list. */
  function TallyOf(c: Chart, list: seq<Defender>, m: real): Tally
    requires AllPlaceable(c, list)
  {
    if list == [] then []
    else AddAll(TallyOf(c, list[..|list| - 1], m), ListedFor(c, list[|list| - 1], m))
  }

  /** The number of entries of the list whose breakdown lists attacker a under m. */
  function Hits(c: Chart, list: seq<Defender>, m: real, a: TypeId): nat
    requires AllPlaceable(c, list)
  {
    if list == [] then 0
    else Hits(c, list[..|list| - 1], m, a) + (if a in ListedFor(c, list[|list| - 1], m) then 1 else 0)
  }

  // ----- the map operations -----

  /** A set only changes the count of its own key, by one. */
  lemma {:induction false} IncrementCounts(t: Tally, a: TypeId, b: TypeId)
    ensures CountOf(Increment(t, a), b) == CountOf(t, b) + (if a == b then 1 else 0)
  {
    if t != [] && t[0].0 != a {
      IncrementCounts(t[1..], a, b);
      assert Increment(t, a)[1..] == Increment(t[1..], a);
    }
  }

  /** A set keeps the key order of the map and appends a key it did not have. */
  lemma {:induction false} IncrementNames(t: Tally, a: TypeId)
    ensures Names(Increment(t, a)) == if a in Names(t) then Names(t) else Names(t) + [a]
  {
    if t != [] && t[0].0 != a {
      IncrementNames(t[1..], a);
      assert Increment(t, a)[1..] == Increment(t[1..], a);
      assert Names(t) == [t[0].0] + Names(t[1..]);
    }
  }

  /** A set keeps every count positive. */
  lemma {:induction false} IncrementPositive(t: Tally, a: TypeId)
    requires Positive(t)
    ensures Positive(Increment(t, a))
  {
    if t != [] && t[0].0 != a {
      IncrementPositive(t[1..], a);
      assert Increment(t, a)[1..] == Increment(t[1..], a);
    }
  }

  lemma {:induction false} AddAllCounts(t: Tally, xs: seq<TypeId>, b: TypeId)
    ensures CountOf(AddAll(t, xs), b) == CountOf(t, b) + multiset(xs)[b]
    decreases |xs|
  {
    if xs != [] {
      var init, last := xs[..|xs| - 1], xs[|xs| - 1];
      AddAllCounts(t, init, b);
      IncrementCounts(AddAll(t, init), last, b);
      assert xs == init + [last];
    }
  }

  lemma {:induction false} AddAllNames(t: Tally, xs: seq<TypeId>)
    requires NoDup(Names(t)) && Positive(t)
    ensures NoDup(Names(AddAll(t, xs))) && Positive(AddAll(t, xs))
    ensures forall a :: a in Names(AddAll(t, xs)) <==> a in Names(t) || a in xs
    decreases |xs|
  {
    if xs != [] {
      var init, last := xs[..|xs| - 1], xs[|xs| - 1];
      var u := AddAll(t, init);
      assert AddAll(t, xs) == Increment(u, last);
      AddAllNames(t, init);
      IncrementNames(u, last);
      IncrementPositive(u, last);
      if last !in Names(u) {
        AppendKeepsNoDup(Names(u), last);
      }
      forall a ensures a in xs <==> a in init || a == last {
        assert xs == init + [last];
      }
    }
  }

  /** With distinct keys, `get` returns the count stored with the key, and 0 for a missing key. */
  lemma {:induction false} CountOfEntry(t: Tally, a: TypeId)
    requires NoDup(Names(t))
    ensures a !in Names(t) ==> CountOf(t, a) == 0
    ensures forall i | 0 <= i < |t| && t[i].0 == a :: CountOf(t, a) == t[i].1
  {
    if t != [] {
      CountOfEntry(t[1..], a);
      assert Names(t)[1..] == Names(t[1..]);
      if t[0].0 == a {
        assert a in Names(t);
        forall i | 0 < i < |t| ensures t[i].0 != a {
          assert Names(t)[0] != Names(t)[i];
        }
      } else {
        forall i | 0 < i < |t| && t[i].0 == a ensures CountOf(t, a) == t[i].1 {
          assert t[1..][i - 1] == t[i];
        }
      }
    }
  }

  /** A list without duplicates holds each value at most once. */
  lemma {:induction false} NoDupCount<T>(s: seq<T>, x: T)
    requires NoDup(s)
    ensures multiset(s)[x] == if x in s then 1 else 0
  {
    if s != [] {
      NoDupCount(s[1..], x);
      assert s == [s[0]] + s[1..];
    }
  }

  // ----- what the map counts -----

  /**
   * The map for m counts, for each attacking type, the entries of the list whose
   * breakdown lists it under m.
   */
  lemma {:induction false} TallyCounts(c: Chart, list: seq<Defender>, m: real, a: TypeId)
    requires AllPlaceable(c, list)
    ensures CountOf(TallyOf(c, list, m), a) == Hits(c, list, m, a)
  {
    if list != [] {
      var init, last := list[..|list| - 1], list[|list| - 1];
      assert AllPlaceable(c, init);
      TallyCounts(c, init, m, a);
      assert last in list;
      var (d1, d2) := Unpack(last);
      ListedInCatalogOrder(c, d1, d2, m);
      AddAllCounts(TallyOf(c, init, m), ListedFor(c, last, m), a);
      NoDupCount(ListedFor(c, last, m), a);
    }
  }

  /** The keys of the map for m are distinct catalog types with positive counts. */
  lemma {:induction false} TallyShape(c: Chart, list: seq<Defender>, m: real)
    requires AllPlaceable(c, list)
    ensures NoDup(Names(TallyOf(c, list, m))) && Positive(TallyOf(c, list, m))
    ensures forall a | a in Names(TallyOf(c, list, m)) :: a in c.types
  {
    if list != [] {
      var init, last := list[..|list| - 1], list[|list| - 1];
      assert AllPlaceable(c, init);
      TallyShape(c, init, m);
      assert last in list;
      var (d1, d2) := Unpack(last);
      HitsAmongMembers(c, d1, d2, m, c.types);
      AddAllNames(TallyOf(c, init, m), ListedFor(c, last, m));
    }
  }

  /**
   * The map for m holds exactly the attacking types that hit some entry of the list
   * under m, each with the number of entries it hits.
   */
  lemma TallyEntries(c: Chart, list: seq<Defender>, m: real)
    requires AllPlaceable(c, list)
    ensures NoDup(Names(TallyOf(c, list, m)))
    ensures forall e | e in TallyOf(c, list, m) :: e.0 in c.types && e.1 == Hits(c, list, m, e.0) > 0
    ensures forall a | Hits(c, list, m, a) > 0 :: (a, Hits(c, list, m, a)) in TallyOf(c, list, m)
  {
    var t := TallyOf(c, list, m);
    TallyShape(c, list, m);
    forall e | e in t ensures e.0 in c.types && e.1 == Hits(c, list, m, e.0) > 0 {
      var i :| 0 <= i < |t| && t[i] == e;
      assert Names(t)[i] == e.0;
      CountOfEntry(t, e.0);
      TallyCounts(c, list, m, e.0);
    }
    forall a | Hits(c, list, m, a) > 0 ensures (a, Hits(c, list, m, a)) in t {
      TallyCounts(c, list, m, a);
      CountOfEntry(t, a);
      var i :| 0 <= i < |t| && Names(t)[i] == a;
      assert t[i] == (a, Hits(c, list, m, a));
    }
  }

  // ----- the sort -----

  /**
   * The evidently intended order of a summary list as a sort key: more hits first, and
   * among equal counts the earlier catalog type first.
   */
  function SummaryKey(c: Chart): Entry -> int {
    (e: Entry) => e.1 * (|c.types| + 2) + (|c.types| - IndexOf(c.types, e.0))
  }

  /** The intended comparator `(x, y) => y.count - x.count || indexOf(x.type) - indexOf(y.type)`. */
  function CompareIntended(types: seq<TypeId>, x: Entry, y: Entry): int {
    var d := y.1 - x.1;
    if d != 0 then d else IndexOf(types, x.0) - IndexOf(types, y.0)
  }

  /** Product of a count with the positive radix is monotone in the count. */
  lemma {:induction false} MulMono(x: nat, y: nat, b: nat)
    requires x < y
    ensures x * b + b <= y * b
    decreases y - x
  {
    if x + 1 < y {
      MulMono(x + 1, y, b);
    }
    assert (x + 1) * b == x * b + b;
  }

  /**
   * The key orders distinct catalog types exactly as the intended comparator does:
   * x gets the larger key precisely when the comparator puts x first.
   */
  lemma SummaryKeyMatchesComparator(c: Chart, x: Entry, y: Entry)
    requires x.0 in c.types && y.0 in c.types && x.0 != y.0
    ensures SummaryKey(c)(x) > SummaryKey(c)(y) <==> CompareIntended(c.types, x, y) < 0
    ensures SummaryKey(c)(x) != SummaryKey(c)(y)
  {
    var n := |c.types|;
    var ix, iy := IndexOf(c.types, x.0), IndexOf(c.types, y.0);
    assert 0 <= ix < n && 0 <= iy < n && ix != iy;
    if x.1 < y.1 {
      MulMono(x.1, y.1, n + 2);
    } else if y.1 < x.1 {
      MulMono(y.1, x.1, n + 2);
    }
  }

  /** An intended-order sort of distinct catalog types is strictly ordered by (count desc, catalog index asc). */
  lemma SortedByIntendedOrder(c: Chart, r: seq<Entry>)
    requires SortedDesc(r, SummaryKey(c))
    requires NoDup(Names(r)) && forall e | e in r :: e.0 in c.types
    ensures forall k, l | 0 <= k < l < |r| :: CompareIntended(c.types, r[k], r[l]) < 0
    ensures forall k, l | 0 <= k < l < |r| ::
              r[k].1 > r[l].1 || (r[k].1 == r[l].1 && IndexOf(c.types, r[k].0) < IndexOf(c.types, r[l].0))
  {
    forall k, l | 0 <= k < l < |r| ensures CompareIntended(c.types, r[k], r[l]) < 0 {
      assert Names(r)[k] != Names(r)[l];
      SummaryKeyMatchesComparator(c, r[k], r[l]);
    }
  }

  /** Two positions holding the same value make it occur at least twice. */
  lemma DupCount<T>(s: seq<T>, i: int, j: int)
    requires 0 <= i < j < |s| && s[i] == s[j]
    ensures multiset(s)[s[i]] >= 2
  {
    assert s == s[..j] + s[j..];
    assert s[i] in s[..j] && s[j] in s[j..];
  }

  /** A rearrangement of a map's entries still has distinct keys, all from the map. */
  lemma RearrangedNames(r: seq<Entry>, t: Tally)
    requires multiset(r) == multiset(t) && NoDup(Names(t))
    ensures NoDup(Names(r))
    ensures forall e | e in r :: e in t
  {
    forall e | e in r ensures e in t {
      assert e in multiset(r);
    }
    forall k, l | 0 <= k < l < |r| ensures r[k].0 != r[l].0 {
      if r[k].0 == r[l].0 {
        assert r[k] in t && r[l] in t;
        var p :| 0 <= p < |t| && t[p] == r[k];
        var q :| 0 <= q < |t| && t[q] == r[l];
        if p == q {
          DupCount(r, k, l);
          assert NoDup(t) by {
            forall u, v | 0 <= u < v < |t| ensures t[u] != t[v] {
              assert Names(t)[u] != Names(t)[v];
            }
          }
          NoDupCount(t, r[k]);
          assert false;
        }
      }
    }
  }

  /** `Array.from(map.entries()).sort(...)`, sorting in the intended order. */
  method SortedEntries(c: Chart, t: Tally) returns (r: seq<Entry>)
    ensures SortedDesc(r, SummaryKey(c))
    ensures SameByKey(r, t, SummaryKey(c))
    ensures multiset(r) == multiset(t)
  {
    var a := new Entry[|t|](i requires 0 <= i < |t| => t[i]);
    assert a[..] == t;
    SortDescending(a, SummaryKey(c));
    r := a[..];
    SameByKeyIsPermutation(r, t, SummaryKey(c));
  }

  /** The inner forEach: one `set` per attacker of the breakdown list. */
  method RecordAttackers(t: Tally, attackers: seq<TypeId>) returns (t': Tally)
    ensures t' == AddAll(t, attackers)
  {
    t' := t;
    var k := 0;
    while k < |attackers|
      invariant 0 <= k <= |attackers|
      invariant t' == AddAll(t, attackers[..k])
    {
      assert attackers[..k + 1][..k] == attackers[..k];
      t' := Increment(t', attackers[k]);
      k := k + 1;
    }
    assert attackers[..k] == attackers;
  }

  /** The two result lists, under keys 4 and 2. */
  datatype TypeSummary = TypeSummary(four: seq<Entry>, two: seq<Entry>)

  /** The result list for one multiplier holds the counted attackers in the intended order. */
  ghost predicate SummaryList(c: Chart, list: seq<Defender>, m: real, r: seq<Entry>)
    requires AllPlaceable(c, list)
  {
    && (forall e | e in r :: e.0 in c.types && e.1 == Hits(c, list, m, e.0) > 0)
    && (forall a | Hits(c, list, m, a) > 0 :: (a, Hits(c, list, m, a)) in r)
    && NoDup(Names(r))
    && (forall k, l | 0 <= k < l < |r| ::
          r[k].1 > r[l].1 || (r[k].1 == r[l].1 && IndexOf(c.types, r[k].0) < IndexOf(c.types, r[l].0)))
  }

  /** Sorting the map for m gives the summary list for m. */
  lemma SortedTallyIsSummaryList(c: Chart, list: seq<Defender>, m: real, r: seq<Entry>)
    requires AllPlaceable(c, list)
    requires SortedDesc(r, SummaryKey(c)) && multiset(r) == multiset(TallyOf(c, list, m))
    ensures SummaryList(c, list, m, r)
  {
    var t := TallyOf(c, list, m);
    TallyEntries(c, list, m);
    RearrangedNames(r, t);
    SortedByIntendedOrder(c, r);
    forall a | Hits(c, list, m, a) > 0 ensures (a, Hits(c, list, m, a)) in r {
      assert (a, Hits(c, list, m, a)) in multiset(t);
    }
  }

  /**
   * calculateTypeEffectivenessSummary: for 4x and 2x, every attacking type that hits
   * some entry of the list, with the number of entries it hits, most hits first and
   * ties in catalog order.
   */
  method CalculateTypeEffectivenessSummary(c: Chart, typesList: seq<Defender>) returns (s: TypeSummary)
    requires AllPlaceable(c, typesList)
    ensures SummaryList(c, typesList, 4.0, s.four)
    ensures SummaryList(c, typesList, 2.0, s.two)
  {
    var four: Tally := [];
    var two: Tally := [];
    var i := 0;
    while i < |typesList|
      invariant 0 <= i <= |typesList|
      invariant AllPlaceable(c, typesList[..i])
      invariant four == TallyOf(c, typesList[..i], 4.0)
      invariant two == TallyOf(c, typesList[..i], 2.0)
    {
      var typePair := typesList[i];
      assert typePair in typesList;
      assert typesList[..i + 1][..i] == typesList[..i] && typesList[..i + 1][i] == typePair;
      assert AllPlaceable(c, typesList[..i + 1]);
      var (type1, type2) := Unpack(typePair);
      var effectiveness := GetEffectivenessForType(c, type1, type2);
      if 4 in effectiveness {
        four := RecordAttackers(four, effectiveness[4]);
      } else {
        assert ListedFor(c, typePair, 4.0) == [];
      }
      if 2 in effectiveness {
        two := RecordAttackers(two, effectiveness[2]);
      } else {
        assert ListedFor(c, typePair, 2.0) == [];
      }
      i := i + 1;
    }
    assert typesList[..i] == typesList;
    var sortedFour := SortedEntries(c, four);
    var sortedTwo := SortedEntries(c, two);
    SortedTallyIsSummaryList(c, typesList, 4.0, sortedFour);
    SortedTallyIsSummaryList(c, typesList, 2.0, sortedTwo);
    s := TypeSummary(sortedFour, sortedTwo);
  }

  // ----- the comparator as written -----

  /** The JavaScript values the comparator compares: a type name or a count. */
  datatype JsValue = Str(name: string) | Num(n: int)

  /** `types.indexOf(v)` on the catalog array: strict equality never matches a number to a name. */
  function JsIndexOf(types: seq<TypeId>, v: JsValue): int {
    IndexOf(seq(|types|, i requires 0 <= i < |types| => Str(types[i])), v)
  }

  /**
   * The comparator as written, `([, a], [, b]) => b - a || types.indexOf(a) - types.indexOf(b)`:
   * the destructuring binds a and b to the counts, so the tie term looks counts up in the catalog.
   */
  function CompareAsWritten(types: seq<TypeId>, x: Entry, y: Entry): int {
    var a, b := x.1, y.1;
    var d := b - a;
    if d != 0 then d else JsIndexOf(types, Num(a)) - JsIndexOf(types, Num(b))
  }

  /** The sort key of the comparator as written: the count alone. */
  function Count(e: Entry): int {
    e.1
  }

  /**
   * The tie term is always `-1 - -1 = 0`: the comparator as written is the plain count
   * comparator, a stable sort by descending count that keeps ties in insertion order.
   */
  lemma TieTermIsDead(types: seq<TypeId>, x: Entry, y: Entry)
    ensures CompareAsWritten(types, x, y) == Count(y) - Count(x)
  {
    var names := seq(|types|, i requires 0 <= i < |types| => Str(types[i]));
    assert Num(x.1) !in names && Num(y.1) !in names;
  }

  /**
   * The result list for one multiplier as the source computes it: any stable sort of the
   * map by the comparator as written (the count alone) holds the counted attackers, most
   * hits first, and keeps ties in the map's first-insertion order, not in catalog order.
   */
  lemma AsWrittenSummaryList(c: Chart, list: seq<Defender>, m: real, r: seq<Entry>)
    requires AllPlaceable(c, list)
    requires SortedDesc(r, Count) && SameByKey(r, TallyOf(c, list, m), Count)
    ensures forall e | e in r :: e.0 in c.types && e.1 == Hits(c, list, m, e.0) > 0
    ensures forall a | Hits(c, list, m, a) > 0 :: (a, Hits(c, list, m, a)) in r
    ensures NoDup(Names(r))
    ensures forall k, l | 0 <= k < l < |r| ::
              r[k].1 > r[l].1 ||
              (r[k].1 == r[l].1 &&
               IndexOf(Names(TallyOf(c, list, m)), r[k].0) < IndexOf(Names(TallyOf(c, list, m)), r[l].0))
  {
    var t := TallyOf(c, list, m);
    TallyEntries(c, list, m);
    SameByKeyIsPermutation(r, t, Count);
    RearrangedNames(r, t);
    forall a | Hits(c, list, m, a) > 0 ensures (a, Hits(c, list, m, a)) in r {
      assert (a, Hits(c, list, m, a)) in multiset(t);
    }
    forall k, l | 0 <= k < l < |r| && r[k].1 == r[l].1
      ensures IndexOf(Names(t), r[k].0) < IndexOf(Names(t), r[l].0)
    {
      InsertionOrderKept(r, t, k, l);
    }
  }

  /** Two entries with equal counts keep the order in which their keys entered the map. */
  lemma InsertionOrderKept(r: seq<Entry>, t: Tally, k: int, l: int)
    requires SameByKey(r, t, Count) && NoDup(Names(t))
    requires 0 <= k < l < |r| && r[k].1 == r[l].1
    ensures IndexOf(Names(t), r[k].0) < IndexOf(Names(t), r[l].0)
  {
    SameByKeyKeepsOrder(r, t, Count, k, l);
    var p, q :| 0 <= p < q < |t| && t[p] == r[k] && t[q] == r[l];
    assert Names(t)[p] == r[k].0 && Names(t)[q] == r[l].0;
    IndexOfNoDup(Names(t), p);
    IndexOfNoDup(Names(t), q);
  }

  /** A two-type catalog [A, B] in which each type takes 2x from itself and 1x from the other. */
  function TwoTypes(): Chart {
    Chart(["A", "B"], map["A" := map["A" := 2.0, "B" := 1.0], "B" := map["A" := 1.0, "B" := 2.0]])
  }

  /** The two-type catalog is well formed, with the table it was built from. */
  lemma TwoTypesTable()
    ensures TwoTypes().WellFormed()
    ensures TwoTypes().Eff("A", "A") == 2.0 && TwoTypes().Eff("A", "B") == 1.0
    ensures TwoTypes().Eff("B", "A") == 1.0 && TwoTypes().Eff("B", "B") == 2.0
  {
    var c := TwoTypes();
    assert c.types[1..] == ["B"];
    assert NoDup(c.types);
  }

  /** In the two-type catalog each type's 2x list is the type itself. */
  lemma TwoTypesListed()
    ensures TwoTypes().WellFormed()
    ensures Listed(TwoTypes(), "A", None, 2.0) == ["A"]
    ensures Listed(TwoTypes(), "B", None, 2.0) == ["B"]
  {
    var c := TwoTypes();
    TwoTypesTable();
    var ts: seq<TypeId> := c.types;
    assert ts[..1] == ["A"] && ts[..1][..0] == [] && ts[1] == "B";
    assert HitsAmong(c, "A", None, 2.0, []) == [];
    assert HitsAmong(c, "A", None, 2.0, ["A"]) == [] + ["A"];
    assert HitsAmong(c, "A", None, 2.0, ts) == ["A"] + [];
    assert HitsAmong(c, "B", None, 2.0, ["A"]) == [] + [];
    assert HitsAmong(c, "B", None, 2.0, ts) == [] + ["B"];
  }

  /** Over [B, A] the 2x map counts B, then A, once each. */
  lemma TwoTypesTally()
    ensures AllPlaceable(TwoTypes(), [Single("B"), Single("A")])
    ensures TallyOf(TwoTypes(), [Single("B"), Single("A")], 2.0) == [("B", 1), ("A", 1)]
  {
    var c := TwoTypes();
    TwoTypesListed();
    var list := [Single("B"), Single("A")];
    var first := list[..1];
    assert first == [Single("B")] && first[..0] == [];
    assert ListedFor(c, Single("B"), 2.0) == ["B"];
    assert ListedFor(c, Single("A"), 2.0) == ["A"];
    TwoIncrements();
    assert TallyOf(c, first, 2.0) == AddAll([], ["B"]);
    assert TallyOf(c, list, 2.0) == AddAll([("B", 1)], ["A"]);
  }

  /** Counting B into the empty map, then A. */
  lemma TwoIncrements()
    ensures AddAll([], ["B"]) == [("B", 1)]
    ensures AddAll([("B", 1)], ["A"]) == [("B", 1), ("A", 1)]
  {
    assert AddAll([], ["B"]) == Increment([], "B");
    assert AddAll([("B", 1)], ["A"]) == Increment([("B", 1)], "A");
    var t: Tally := [("B", 1)];
    assert t[1..] == [];
  }

  /** The intended keys of the two one-hit entries: A ranks above B. */
  lemma TwoTypesKeys()
    ensures SummaryKey(TwoTypes())(("A", 1)) == 6
    ensures SummaryKey(TwoTypes())(("B", 1)) == 5
  {
    var ts := TwoTypes().types;
    assert IndexOf(ts, "A") == 0;
    assert ts[1..] == ["B"];
    assert IndexOf(ts, "B") == 1;
  }

  /** With distinct keys, the two orders of the pair are stable rearrangements of each other. */
  lemma SwappedPairSameByKey(x: Entry, y: Entry, key: Entry -> int)
    requires key(x) != key(y)
    ensures SameByKey([x, y], [y, x], key)
  {
    var t: seq<Entry>, u: seq<Entry> := [x, y], [y, x];
    assert t[..1] == [x] && u[..1] == [y] && |t[..1][..0]| == 0 && |u[..1][..0]| == 0;
  }

  /**
   * As written, the 2x summary over [B, A] lists B before A although both have one hit
   * and A comes first in the catalog: every stable sort by count gives [B, A].
   */
  lemma AsWrittenIgnoresCatalogOrder(r: seq<Entry>)
    requires AllPlaceable(TwoTypes(), [Single("B"), Single("A")])
    requires SortedDesc(r, Count)
    requires SameByKey(r, TallyOf(TwoTypes(), [Single("B"), Single("A")], 2.0), Count)
    ensures r == [("B", 1), ("A", 1)]
    ensures IndexOf(TwoTypes().types, "A") < IndexOf(TwoTypes().types, "B")
  {
    TwoTypesTally();
    StableSortIsUnique(r, [("B", 1), ("A", 1)], Count);
  }

  /** In the intended order the same summary lists A before B. */
  lemma IntendedOrdersTiesByCatalog(r: seq<Entry>)
    requires AllPlaceable(TwoTypes(), [Single("B"), Single("A")])
    requires SortedDesc(r, SummaryKey(TwoTypes()))
    requires SameByKey(r, TallyOf(TwoTypes(), [Single("B"), Single("A")], 2.0), SummaryKey(TwoTypes()))
    ensures r == [("A", 1), ("B", 1)]
  {
    var key := SummaryKey(TwoTypes());
    TwoTypesTally();
    TwoTypesKeys();
    SwappedPairSameByKey(("B", 1), ("A", 1), key);
    SameByKeyTrans(r, [("B", 1), ("A", 1)], [("A", 1), ("B", 1)], key);
    StableSortIsUnique(r, [("A", 1), ("B", 1)], key);
  }
}
