/**
 * One cell of the coverage table: the largest multiplier any selected attacking type
 * achieves against a defender combination (calculateMaxEffectiveness).
 */
module Coverage {
  import opened Catalog

  /** What a cell holds: `null` (lower triangle), `'-'` (nothing selected) or a number. */
  datatype Cell = Hidden | Dash | Mult(value: real)

  /**
   * The multiplier one attacking type achieves against the defender (d1, d2):
   * the table value itself for a single type, the product of both table values otherwise.
   */
  function Combined(c: Chart, d1: TypeId, d2: TypeId, a: TypeId): real
    requires c.WellFormed() && d1 in c.types && d2 in c.types && a in c.types
  {
    if d1 == d2 then c.Eff(d1, a) else c.Eff(d1, a) * c.Eff(d2, a)
  }

  /** `Math.max(...xs)` for a non-empty list: an element of the list that bounds every other. */
  function MaxOf(xs: seq<real>): (m: real)
    requires xs != []
    ensures m in xs
    ensures forall x | x in xs :: x <= m
  {
    if |xs| == 1 then xs[0]
    else
      var rest := MaxOf(xs[1..]);
      assert forall x | x in xs :: x == xs[0] || x in xs[1..];
      if xs[0] >= rest then xs[0] else rest
  }

  /** The per-attacker multipliers the cell takes the maximum of, in selection order. */
  function Column(c: Chart, d1: TypeId, d2: TypeId, attackers: seq<TypeId>): (col: seq<real>)
    requires c.WellFormed() && d1 in c.types && d2 in c.types && FromCatalog(c, attackers)
    ensures |col| == |attackers|
    ensures forall i | 0 <= i < |attackers| :: col[i] == Combined(c, d1, d2, attackers[i])
  {
    if d1 == d2 then seq(|attackers|, i requires 0 <= i < |attackers| => c.Eff(d1, attackers[i]))
    else seq(|attackers|, i requires 0 <= i < |attackers| => c.Eff(d1, attackers[i]) * c.Eff(d2, attackers[i]))
  }

  /**
   * calculateMaxEffectiveness: `null` below the diagonal of the catalog-ordered grid,
   * `'-'` when nothing is selected, else the best multiplier of a selected attacker.
   */
  function MaxEffectiveness(c: Chart, d1: TypeId, d2: TypeId, attackers: seq<TypeId>): (r: Cell)
    requires c.WellFormed() && d1 in c.types && d2 in c.types && FromCatalog(c, attackers)
    ensures r == Hidden <==> IndexOf(c.types, d1) > IndexOf(c.types, d2)
    ensures r == Dash <==> IndexOf(c.types, d1) <= IndexOf(c.types, d2) && attackers == []
    ensures r.Mult? ==> forall a | a in attackers :: Combined(c, d1, d2, a) <= r.value
    ensures r.Mult? ==> exists a | a in attackers :: Combined(c, d1, d2, a) == r.value
  {
    if IndexOf(c.types, d1) > IndexOf(c.types, d2) then Hidden
    else if |attackers| == 0 then Dash
    else
      var col := Column(c, d1, d2, attackers);
      var m := MaxOf(col);
      assert forall a | a in attackers :: Combined(c, d1, d2, a) in col by {
        forall a | a in attackers ensures Combined(c, d1, d2, a) in col {
          var i :| 0 <= i < |attackers| && attackers[i] == a;
          assert col[i] == Combined(c, d1, d2, a);
        }
      }
      var i :| 0 <= i < |col| && col[i] == m;
      assert attackers[i] in attackers && Combined(c, d1, d2, attackers[i]) == m;
      Mult(m)
  }

  /** For a single-type defender the cell is the best single table value, never its square. */
  lemma SingleTypeCell(c: Chart, d: TypeId, attackers: seq<TypeId>)
    requires c.WellFormed() && d in c.types && FromCatalog(c, attackers) && attackers != []
    ensures MaxEffectiveness(c, d, d, attackers).Mult?
    ensures forall a | a in attackers :: c.Eff(d, a) <= MaxEffectiveness(c, d, d, attackers).value
    ensures exists a | a in attackers :: c.Eff(d, a) == MaxEffectiveness(c, d, d, attackers).value
  {
    var r := MaxEffectiveness(c, d, d, attackers);
    assert forall a | a in attackers :: Combined(c, d, d, a) == c.Eff(d, a);
  }

  /** Any single table value and any product of two of them is one of the six multipliers. */
  lemma CombinedIsMultiplier(c: Chart, d1: TypeId, d2: TypeId, a: TypeId)
    requires c.WellFormed() && d1 in c.types && d2 in c.types && a in c.types
    requires c.StandardValues()
    ensures IsMultiplier(Combined(c, d1, d2, a))
  {
    var x, y := c.Eff(d1, a), c.Eff(d2, a);
    assert x in {0.0, 0.5, 1.0, 2.0} && y in {0.0, 0.5, 1.0, 2.0};
    if d1 != d2 {
      if x == 0.0 {
        assert x * y == 0.0;
      } else if x == 0.5 {
        assert x * y == 0.5 * y;
      } else if x == 1.0 {
        assert x * y == y;
      } else {
        assert x * y == 2.0 * y;
      }
    }
  }

  /** With single-type entries from {0, 1/2, 1, 2}, a numeric cell is one of the six multipliers. */
  lemma CellIsMultiplier(c: Chart, d1: TypeId, d2: TypeId, attackers: seq<TypeId>)
    requires c.WellFormed() && d1 in c.types && d2 in c.types && FromCatalog(c, attackers)
    requires c.StandardValues()
    ensures MaxEffectiveness(c, d1, d2, attackers).Mult? ==>
              IsMultiplier(MaxEffectiveness(c, d1, d2, attackers).value)
  {
    var r := MaxEffectiveness(c, d1, d2, attackers);
    if r.Mult? {
      var a :| a in attackers && Combined(c, d1, d2, a) == r.value;
      CombinedIsMultiplier(c, d1, d2, a);
    }
  }

  /**
   * Of the two mirrored cells of a dual-type defender exactly one is shown, and the one
   * shown holds the best multiplier for both orders of the pair.
   */
  lemma MirroredCells(c: Chart, d1: TypeId, d2: TypeId, attackers: seq<TypeId>)
    requires c.WellFormed() && d1 in c.types && d2 in c.types && FromCatalog(c, attackers)
    requires d1 != d2
    ensures (MaxEffectiveness(c, d1, d2, attackers) == Hidden) != (MaxEffectiveness(c, d2, d1, attackers) == Hidden)
    ensures MaxEffectiveness(c, d1, d2, attackers).Mult? ==>
              && (forall a | a in attackers :: Combined(c, d2, d1, a) <= MaxEffectiveness(c, d1, d2, attackers).value)
              && (exists a | a in attackers :: Combined(c, d2, d1, a) == MaxEffectiveness(c, d1, d2, attackers).value)
  {
    var i1, i2 := IndexOf(c.types, d1), IndexOf(c.types, d2);
    assert i1 != i2;
    var r := MaxEffectiveness(c, d1, d2, attackers);
    assert forall a | a in attackers :: Combined(c, d2, d1, a) == Combined(c, d1, d2, a);
  }

  /**
   * A cell depends only on which types are selected, not on their order or repetition:
   * two selections with the same members give the same cell.
   */
  lemma {:induction false} CellDependsOnMembersOnly(c: Chart, d1: TypeId, d2: TypeId, s: seq<TypeId>, t: seq<TypeId>)
    requires c.WellFormed() && d1 in c.types && d2 in c.types && FromCatalog(c, s) && FromCatalog(c, t)
    requires forall a :: a in s <==> a in t
    ensures MaxEffectiveness(c, d1, d2, s) == MaxEffectiveness(c, d1, d2, t)
  {
    var r, q := MaxEffectiveness(c, d1, d2, s), MaxEffectiveness(c, d1, d2, t);
    assert s == [] <==> t == [] by {
      if s != [] { assert s[0] in t; }
      if t != [] { assert t[0] in s; }
    }
    if r.Mult? {
      var a :| a in s && Combined(c, d1, d2, a) == r.value;
      var b :| b in t && Combined(c, d1, d2, b) == q.value;
      assert Combined(c, d1, d2, a) <= q.value;
      assert Combined(c, d1, d2, b) <= r.value;
    }
  }
}
