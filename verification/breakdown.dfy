/**
 * The attacker breakdown of one defender combination (getEffectivenessForType): which
 * attacking types of the whole catalog hit it for exactly 2x or exactly 4x, and the
 * weakness score sortTypesByEffectiveness derives from it.
 */
module Breakdown {
  import opened Catalog
  import opened Coverage

  /** JavaScript truthiness of the second defender argument: `null` and `""` are falsy. */
  predicate Truthy(d2: Option<TypeId>) {
    d2.Some? && d2.value != ""
  }

  /** The defender arguments can be looked up in the table. */
  predicate Defends(c: Chart, d1: TypeId, d2: Option<TypeId>) {
    c.WellFormed() && d1 in c.types && (Truthy(d2) ==> d2.value in c.types)
  }

  /**
   * The multiplier of attacker `a`: the product of both table values, or the single one
   * when d2 is falsy. It agrees with the grid's multiplier for the same defender, except
   * that a pair of one type twice squares the single value.
   */
  function Multiplier(c: Chart, d1: TypeId, d2: Option<TypeId>, a: TypeId): (r: real)
    requires Defends(c, d1, d2) && a in c.types
    ensures !Truthy(d2) ==> r == Combined(c, d1, d1, a)
    ensures Truthy(d2) && d2.value != d1 ==> r == Combined(c, d1, d2.value, a)
    ensures Truthy(d2) && d2.value == d1 ==> r == Combined(c, d1, d1, a) * Combined(c, d1, d1, a)
  {
    if Truthy(d2) then c.Eff(d1, a) * c.Eff(d2.value, a) else c.Eff(d1, a)
  }

  /** The types of `ts` whose multiplier against the defender is exactly `m`, in the order of `ts`. */
  function HitsAmong(c: Chart, d1: TypeId, d2: Option<TypeId>, m: real, ts: seq<TypeId>): seq<TypeId>
    requires Defends(c, d1, d2) && FromCatalog(c, ts)
  {
    if ts == [] then []
    else
      var last := ts[|ts| - 1];
      HitsAmong(c, d1, d2, m, ts[..|ts| - 1]) + (if Multiplier(c, d1, d2, last) == m then [last] else [])
  }

  /** The catalog attackers listed under multiplier `m`. */
  function Listed(c: Chart, d1: TypeId, d2: Option<TypeId>, m: real): seq<TypeId>
    requires Defends(c, d1, d2)
  {
    HitsAmong(c, d1, d2, m, c.types)
  }

  lemma {:induction false} HitsAmongMembers(c: Chart, d1: TypeId, d2: Option<TypeId>, m: real, ts: seq<TypeId>)
    requires Defends(c, d1, d2) && FromCatalog(c, ts)
    ensures forall a :: a in HitsAmong(c, d1, d2, m, ts) <==> a in ts && Multiplier(c, d1, d2, a) == m
    decreases |ts|
  {
    if ts != [] {
      var init := ts[..|ts| - 1];
      HitsAmongMembers(c, d1, d2, m, init);
      assert ts == init + [ts[|ts| - 1]];
    }
  }

  /** The types of r are catalog types before position i, in strictly increasing catalog position. */
  predicate OrderedBelow(c: Chart, r: seq<TypeId>, i: int) {
    (forall k | 0 <= k < |r| :: 0 <= IndexOf(c.types, r[k]) < i) &&
    (forall k, l | 0 <= k < l < |r| :: IndexOf(c.types, r[k]) < IndexOf(c.types, r[l]))
  }

  /** The hits among the first i catalog types come in strictly increasing catalog position below i. */
  lemma {:induction false} HitsAmongPrefixOrdered(c: Chart, d1: TypeId, d2: Option<TypeId>, m: real, i: nat)
    requires Defends(c, d1, d2) && i <= |c.types|
    ensures OrderedBelow(c, HitsAmong(c, d1, d2, m, c.types[..i]), i)
  {
    if i > 0 {
      HitsAmongPrefixOrdered(c, d1, d2, m, i - 1);
      HitsAmongStep(c, d1, d2, m, i - 1);
      IndexOfNoDup(c.types, i - 1);
      var r0 := HitsAmong(c, d1, d2, m, c.types[..i - 1]);
      var last := c.types[i - 1];
      var r := HitsAmong(c, d1, d2, m, c.types[..i]);
      if Multiplier(c, d1, d2, last) == m {
        assert r == r0 + [last];
        AppendOrdered(c, r0, last, i - 1);
      } else {
        assert r == r0 + [];
        assert r == r0;
        WidenOrdered(c, r0, i - 1);
      }
    }
  }

  /** The hits among the first i + 1 catalog types: those among the first i, then type i if it hits. */
  lemma HitsAmongStep(c: Chart, d1: TypeId, d2: Option<TypeId>, m: real, i: nat)
    requires Defends(c, d1, d2) && i < |c.types|
    ensures c.types[i] in c.types
    ensures HitsAmong(c, d1, d2, m, c.types[..i + 1])
         == HitsAmong(c, d1, d2, m, c.types[..i]) + (if Multiplier(c, d1, d2, c.types[i]) == m then [c.types[i]] else [])
  {
    var prefix := c.types[..i + 1];
    assert prefix[..i] == c.types[..i];
    assert prefix[i] == c.types[i];
  }

  lemma WidenOrdered(c: Chart, r: seq<TypeId>, i: int)
    requires OrderedBelow(c, r, i)
    ensures OrderedBelow(c, r, i + 1)
  {
  }

  /** Appending the type at catalog position i keeps a list ordered below i ordered below i + 1. */
  lemma AppendOrdered(c: Chart, r0: seq<TypeId>, last: TypeId, i: int)
    requires OrderedBelow(c, r0, i) && 0 <= i && IndexOf(c.types, last) == i
    ensures OrderedBelow(c, r0 + [last], i + 1)
  {
    var r := r0 + [last];
    forall k | 0 <= k < |r|
      ensures 0 <= IndexOf(c.types, r[k]) < i + 1
      ensures k < |r0| ==> IndexOf(c.types, r[k]) < i
    {
      if k < |r0| {
        assert r[k] == r0[k];
      } else {
        assert r[k] == last;
      }
    }
  }

  /** An attacker is listed under m exactly when it is a catalog type whose multiplier is m. */
  lemma ListedMembership(c: Chart, d1: TypeId, d2: Option<TypeId>, m: real, a: TypeId)
    requires Defends(c, d1, d2)
    ensures a in Listed(c, d1, d2, m) <==> a in c.types && Multiplier(c, d1, d2, a) == m
  {
    HitsAmongMembers(c, d1, d2, m, c.types);
  }

  /** A list lists every catalog attacker at most once, in catalog order. */
  lemma ListedInCatalogOrder(c: Chart, d1: TypeId, d2: Option<TypeId>, m: real)
    requires Defends(c, d1, d2)
    ensures var r := Listed(c, d1, d2, m);
            forall k, l | 0 <= k < l < |r| :: IndexOf(c.types, r[k]) < IndexOf(c.types, r[l])
    ensures NoDup(Listed(c, d1, d2, m))
  {
    HitsAmongPrefixOrdered(c, d1, d2, m, |c.types|);
    assert c.types[..|c.types|] == c.types;
  }

  /** No attacker is listed under both 2 and 4. */
  lemma ListsDisjoint(c: Chart, d1: TypeId, d2: Option<TypeId>)
    requires Defends(c, d1, d2)
    ensures forall a | a in Listed(c, d1, d2, 2.0) :: a !in Listed(c, d1, d2, 4.0)
  {
    HitsAmongMembers(c, d1, d2, 2.0, c.types);
    HitsAmongMembers(c, d1, d2, 4.0, c.types);
  }

  /**
   * getEffectivenessForType: an object with key 2 (resp. 4) holding the catalog attackers
   * whose multiplier is exactly 2 (resp. 4); a key exists only when its list is non-empty.
   */
  method GetEffectivenessForType(c: Chart, d1: TypeId, d2: Option<TypeId>) returns (e: map<int, seq<TypeId>>)
    requires Defends(c, d1, d2)
    ensures e.Keys <= {2, 4}
    ensures 2 in e <==> Listed(c, d1, d2, 2.0) != []
    ensures 4 in e <==> Listed(c, d1, d2, 4.0) != []
    ensures 2 in e ==> e[2] == Listed(c, d1, d2, 2.0)
    ensures 4 in e ==> e[4] == Listed(c, d1, d2, 4.0)
  {
    e := map[];
    var i := 0;
    while i < |c.types|
      invariant 0 <= i <= |c.types|
      invariant e.Keys <= {2, 4}
      invariant 2 in e <==> HitsAmong(c, d1, d2, 2.0, c.types[..i]) != []
      invariant 4 in e <==> HitsAmong(c, d1, d2, 4.0, c.types[..i]) != []
      invariant 2 in e ==> e[2] == HitsAmong(c, d1, d2, 2.0, c.types[..i])
      invariant 4 in e ==> e[4] == HitsAmong(c, d1, d2, 4.0, c.types[..i])
    {
      var attackType := c.types[i];
      HitsAmongStep(c, d1, d2, 2.0, i);
      HitsAmongStep(c, d1, d2, 4.0, i);
      var multiplier := Multiplier(c, d1, d2, attackType);
      if multiplier == 2.0 || multiplier == 4.0 {
        var key := multiplier.Floor;
        var list := if key in e then e[key] else [];
        e := e[key := list + [attackType]];
      }
      i := i + 1;
    }
    assert c.types[..i] == c.types;
  }

  /** The defender arguments a coverage-list entry unpacks to: `[t, null]` or `[d1, d2]`. */
  function Unpack(p: Defender): (TypeId, Option<TypeId>) {
    match p
    case Single(t) => (t, None)
    case Dual(t1, t2) => (t1, Some(t2))
  }

  /** The entry's types are catalog types. */
  predicate Placeable(c: Chart, p: Defender) {
    c.WellFormed() &&
    match p
    case Single(t) => t in c.types
    case Dual(t1, t2) => t1 in c.types && t2 in c.types
  }

  /** The weakness score of an entry: twice the number of 4x attackers plus the number of 2x attackers. */
  function Score(c: Chart, p: Defender): nat
    requires Placeable(c, p)
  {
    var (d1, d2) := Unpack(p);
    2 * |Listed(c, d1, d2, 4.0)| + |Listed(c, d1, d2, 2.0)|
  }

  /**
   * getEffectivenessScore inside sortTypesByEffectiveness: reads the breakdown and counts
   * a missing key as an empty list.
   */
  method EffectivenessScore(c: Chart, p: Defender) returns (s: int)
    requires Placeable(c, p)
    ensures s == Score(c, p)
  {
    var (type1, type2) := Unpack(p);
    var effectiveness := GetEffectivenessForType(c, type1, type2);
    var fours := if 4 in effectiveness then |effectiveness[4]| else 0;
    var twos := if 2 in effectiveness then |effectiveness[2]| else 0;
    s := fours * 2 + twos;
  }
}
