/**
 * The fixed inputs of the coverage engine: the ordered type catalog (the keys of the
 * type data object) and the defender -> attacker effectiveness table. Both live in data
 * files outside this model and are taken here as a parameter of every operation.
 */
module Catalog {

  /** A type identifier, a key of the type data object. */
  type TypeId = string

  datatype Option<T> = None | Some(value: T)

  /**
   * A defender combination as the coverage lists store it: a bare type for a
   * single-type defender, a two-element array `[d1, d2]` for a dual-type one.
   */
  datatype Defender = Single(t: TypeId) | Dual(first: TypeId, second: TypeId)

  /** True when no element of `s` occurs twice. */
  predicate NoDup<T(==)>(s: seq<T>) {
    forall i, j | 0 <= i < j < |s| :: s[i] != s[j]
  }

  /** Appending an element the list does not hold keeps it free of duplicates. */
  lemma AppendKeepsNoDup<T>(s: seq<T>, x: T)
    requires NoDup(s) && x !in s
    ensures NoDup(s + [x])
  {
    var r := s + [x];
    forall i, j | 0 <= i < j < |r| ensures r[i] != r[j] {
      assert r[i] == s[i];
      if j < |s| {
        assert r[j] == s[j];
      }
    }
  }

  /** `Array.prototype.indexOf` with strict equality: the first position of `x`, or -1. */
  function IndexOf<T(==)>(s: seq<T>, x: T): (r: int)
    ensures -1 <= r < |s|
    ensures r == -1 <==> x !in s
    ensures 0 <= r ==> s[r] == x && x !in s[..r]
  {
    if s == [] then -1
    else if s[0] == x then 0
    else
      var k := IndexOf(s[1..], x);
      if k == -1 then -1
      else
        assert s[..k + 1] == [s[0]] + s[1..][..k];
        k + 1
  }

  /** In a list without duplicates, `indexOf` of the element at position i is i. */
  lemma IndexOfNoDup<T>(s: seq<T>, i: int)
    requires NoDup(s) && 0 <= i < |s|
    ensures IndexOf(s, s[i]) == i
  {
  }

  /** The type catalog and the effectiveness table `typeEffectiveness[defender][attacker]`. */
  datatype Chart = Chart(types: seq<TypeId>, eff: map<TypeId, map<TypeId, real>>)
  {
    /** The catalog lists each type once, and the table is total over catalog x catalog. */
    predicate WellFormed() {
      && NoDup(types)
      && (forall d | d in types :: d in eff)
      && (forall d, a | d in types && a in types :: a in eff[d])
    }

    /** The multiplier of an attack of type `a` against a single-type defender `d`. */
    function Eff(d: TypeId, a: TypeId): real
      requires WellFormed() && d in types && a in types
    {
      eff[d][a]
    }

    /** Every single-type entry of the table is one of 0, 1/2, 1 and 2. */
    predicate StandardValues()
      requires WellFormed()
    {
      forall d, a | d in types && a in types :: Eff(d, a) in {0.0, 0.5, 1.0, 2.0}
    }
  }

  /** The six multipliers a cell of the coverage table can show. */
  predicate IsMultiplier(x: real) {
    x == 0.0 || x == 0.25 || x == 0.5 || x == 1.0 || x == 2.0 || x == 4.0
  }

  /** Membership in a list of types drawn from the catalog. */
  predicate FromCatalog(c: Chart, s: seq<TypeId>) {
    forall a | a in s :: a in c.types
  }
}
