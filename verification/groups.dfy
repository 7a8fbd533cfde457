/**
 * The lists below the coverage table: findTypesByEffectiveness walks the canonical
 * defender pairs and files those whose cell is 0.25, 0.5 or 1 under that multiplier;
 * sortTypesByEffectiveness orders such a list by weakness score.
 */
module Groups {
  import opened Catalog
  import opened Coverage
  import opened Breakdown
  import opened StableSort

  /** The `typeGroups` object: the lists under keys 0.25, 0.5 and 1. */
  datatype TypeGroups = TypeGroups(quarter: seq<Defender>, half: seq<Defender>, neutral: seq<Defender>)

  /** The entry for grid cell (i, j): a bare type on the diagonal, else the pair. */
  function PairAt(c: Chart, i: nat, j: nat): Defender
    requires i < |c.types| && j < |c.types|
  {
    if c.types[i] == c.types[j] then Single(c.types[i]) else Dual(c.types[i], c.types[j])
  }

  /** What grid cell (i, j) adds to the list for multiplier m. */
  function CellEntry(c: Chart, sel: seq<TypeId>, m: real, i: nat, j: nat): seq<Defender>
    requires c.WellFormed() && FromCatalog(c, sel) && i < |c.types| && j < |c.types|
  {
    var d1 := c.types[i];
    var d2 := c.types[j];
    if IndexOf(c.types, d1) <= IndexOf(c.types, d2) && MaxEffectiveness(c, d1, d2, sel) == Mult(m)
    then [PairAt(c, i, j)]
    else []
  }

  /** The entries row i adds for its first j cells. */
  function RowEntries(c: Chart, sel: seq<TypeId>, m: real, i: nat, j: nat): seq<Defender>
    requires c.WellFormed() && FromCatalog(c, sel) && i < |c.types| && j <= |c.types|
  {
    if j == 0 then [] else RowEntries(c, sel, m, i, j - 1) + CellEntry(c, sel, m, i, j - 1)
  }

  /** The entries of the first i rows, in row-major order. */
  function GridEntries(c: Chart, sel: seq<TypeId>, m: real, i: nat): seq<Defender>
    requires c.WellFormed() && FromCatalog(c, sel) && i <= |c.types|
  {
    if i == 0 then [] else GridEntries(c, sel, m, i - 1) + RowEntries(c, sel, m, i - 1, |c.types|)
  }

  /** The list findTypesByEffectiveness builds under multiplier m. */
  function Bucket(c: Chart, sel: seq<TypeId>, m: real): seq<Defender>
    requires c.WellFormed() && FromCatalog(c, sel)
  {
    GridEntries(c, sel, m, |c.types|)
  }

  function First(p: Defender): TypeId {
    match p
    case Single(t) => t
    case Dual(t1, _) => t1
  }

  function Second(p: Defender): TypeId {
    match p
    case Single(t) => t
    case Dual(_, t2) => t2
  }

  /** The entry is the canonical form of its defender: a bare type, or a pair in catalog order. */
  predicate Canonical(c: Chart, p: Defender) {
    Placeable(c, p) &&
    match p
    case Single(_) => true
    case Dual(t1, t2) => IndexOf(c.types, t1) < IndexOf(c.types, t2)
  }

  /** The grid row and column of an entry. */
  function RowOf(c: Chart, p: Defender): int { IndexOf(c.types, First(p)) }
  function ColOf(c: Chart, p: Defender): int { IndexOf(c.types, Second(p)) }

  /** The coverage cell of an entry's defender. */
  function CellOf(c: Chart, sel: seq<TypeId>, p: Defender): Cell
    requires Placeable(c, p) && FromCatalog(c, sel)
  {
    MaxEffectiveness(c, First(p), Second(p), sel)
  }

  /** p comes before q in row-major grid order. */
  predicate Before(c: Chart, p: Defender, q: Defender) {
    RowOf(c, p) < RowOf(c, q) || (RowOf(c, p) == RowOf(c, q) && ColOf(c, p) < ColOf(c, q))
  }

  lemma PairAtFacts(c: Chart, i: nat, j: nat)
    requires c.WellFormed() && i <= j < |c.types|
    ensures Canonical(c, PairAt(c, i, j))
    ensures First(PairAt(c, i, j)) == c.types[i] && Second(PairAt(c, i, j)) == c.types[j]
    ensures RowOf(c, PairAt(c, i, j)) == i && ColOf(c, PairAt(c, i, j)) == j
  {
    IndexOfNoDup(c.types, i);
    IndexOfNoDup(c.types, j);
  }

  lemma PairAtUnique(c: Chart, p: Defender, i: nat, j: nat)
    requires Canonical(c, p) && i < |c.types| && j < |c.types|
    requires RowOf(c, p) == i && ColOf(c, p) == j
    ensures i <= j && p == PairAt(c, i, j)
  {
  }

  lemma {:induction false} RowEntriesMembers(c: Chart, sel: seq<TypeId>, m: real, i: nat, j: nat)
    requires c.WellFormed() && FromCatalog(c, sel) && i < |c.types| && j <= |c.types|
    ensures forall p :: p in RowEntries(c, sel, m, i, j) <==>
              Canonical(c, p) && RowOf(c, p) == i && ColOf(c, p) < j && CellOf(c, sel, p) == Mult(m)
  {
    if j > 0 {
      RowEntriesMembers(c, sel, m, i, j - 1);
      IndexOfNoDup(c.types, i);
      IndexOfNoDup(c.types, j - 1);
      forall p ensures p in CellEntry(c, sel, m, i, j - 1) <==>
                         Canonical(c, p) && RowOf(c, p) == i && ColOf(c, p) == j - 1 && CellOf(c, sel, p) == Mult(m)
      {
        if p in CellEntry(c, sel, m, i, j - 1) {
          PairAtFacts(c, i, j - 1);
        }
        if Canonical(c, p) && RowOf(c, p) == i && ColOf(c, p) == j - 1 {
          PairAtUnique(c, p, i, j - 1);
          PairAtFacts(c, i, j - 1);
        }
      }
    }
  }

  lemma {:induction false} GridEntriesMembers(c: Chart, sel: seq<TypeId>, m: real, i: nat)
    requires c.WellFormed() && FromCatalog(c, sel) && i <= |c.types|
    ensures forall p :: p in GridEntries(c, sel, m, i) <==>
              Canonical(c, p) && RowOf(c, p) < i && CellOf(c, sel, p) == Mult(m)
  {
    if i > 0 {
      GridEntriesMembers(c, sel, m, i - 1);
      RowEntriesMembers(c, sel, m, i - 1, |c.types|);
    }
  }

  /** Consecutive entries of a row come in increasing column order. */
  predicate ColumnsIncrease(c: Chart, r: seq<Defender>) {
    forall k, l | 0 <= k < l < |r| :: ColOf(c, r[k]) < ColOf(c, r[l])
  }

  /** The entries come in row-major grid order. */
  predicate RowMajor(c: Chart, g: seq<Defender>) {
    forall k, l | 0 <= k < l < |g| :: Before(c, g[k], g[l])
  }

  /** One more cell of a row adds nothing or the pair for that cell. */
  lemma RowEntriesStep(c: Chart, sel: seq<TypeId>, m: real, i: nat, j: nat)
    requires c.WellFormed() && FromCatalog(c, sel) && i < |c.types| && j < |c.types|
    ensures RowEntries(c, sel, m, i, j + 1) == RowEntries(c, sel, m, i, j)
         || (i <= j && RowEntries(c, sel, m, i, j + 1) == RowEntries(c, sel, m, i, j) + [PairAt(c, i, j)])
  {
    IndexOfNoDup(c.types, i);
    IndexOfNoDup(c.types, j);
  }

  /** Every entry lies in row i, left of column j. */
  predicate InRow(c: Chart, r: seq<Defender>, i: int, j: int) {
    forall p | p in r :: RowOf(c, p) == i && ColOf(c, p) < j
  }

  /** Every entry lies above row i. */
  predicate AboveRow(c: Chart, g: seq<Defender>, i: int) {
    forall p | p in g :: RowOf(c, p) < i
  }

  lemma {:induction false} RowEntriesOrdered(c: Chart, sel: seq<TypeId>, m: real, i: nat, j: nat)
    requires c.WellFormed() && FromCatalog(c, sel) && i < |c.types| && j <= |c.types|
    ensures InRow(c, RowEntries(c, sel, m, i, j), i, j)
    ensures ColumnsIncrease(c, RowEntries(c, sel, m, i, j))
  {
    if j > 0 {
      var k := j - 1;
      var r0, r := RowEntries(c, sel, m, i, k), RowEntries(c, sel, m, i, k + 1);
      RowEntriesOrdered(c, sel, m, i, k);
      RowEntriesStep(c, sel, m, i, k);
      RowOrderStep(c, r0, r, i, k);
    }
  }

  /** A row in column order stays so when it gains nothing or the pair for the next cell. */
  lemma RowOrderStep(c: Chart, r0: seq<Defender>, r: seq<Defender>, i: nat, j: nat)
    requires c.WellFormed() && i < |c.types| && j < |c.types|
    requires ColumnsIncrease(c, r0) && InRow(c, r0, i, j)
    requires r == r0 || (i <= j && r == r0 + [PairAt(c, i, j)])
    ensures ColumnsIncrease(c, r) && InRow(c, r, i, j + 1)
  {
    if r == r0 {
      WidenRow(c, r0, i, j);
    } else {
      PairAtFacts(c, i, j);
      AppendColumn(c, r0, PairAt(c, i, j), i, j);
    }
  }

  lemma WidenRow(c: Chart, r: seq<Defender>, i: int, j: int)
    requires InRow(c, r, i, j)
    ensures InRow(c, r, i, j + 1)
  {
  }

  /** A row stays in column order when an entry right of all its entries is appended. */
  lemma AppendColumn(c: Chart, r0: seq<Defender>, last: Defender, i: int, j: int)
    requires ColumnsIncrease(c, r0) && InRow(c, r0, i, j)
    requires RowOf(c, last) == i && ColOf(c, last) == j
    ensures ColumnsIncrease(c, r0 + [last]) && InRow(c, r0 + [last], i, j + 1)
  {
    var r := r0 + [last];
    forall k, l | 0 <= k < l < |r| ensures ColOf(c, r[k]) < ColOf(c, r[l]) {
      assert r[k] == r0[k] && r[k] in r0;
      if l < |r0| {
        assert r[l] == r0[l];
      }
    }
  }

  lemma {:induction false} GridEntriesOrdered(c: Chart, sel: seq<TypeId>, m: real, i: nat)
    requires c.WellFormed() && FromCatalog(c, sel) && i <= |c.types|
    ensures AboveRow(c, GridEntries(c, sel, m, i), i)
    ensures RowMajor(c, GridEntries(c, sel, m, i))
  {
    if i > 0 {
      GridEntriesOrdered(c, sel, m, i - 1);
      RowEntriesOrdered(c, sel, m, i - 1, |c.types|);
      AppendRow(c, GridEntries(c, sel, m, i - 1), RowEntries(c, sel, m, i - 1, |c.types|), i - 1, |c.types|);
    }
  }

  /** The grid stays in row-major order when a row below all its entries is appended. */
  lemma AppendRow(c: Chart, g0: seq<Defender>, row: seq<Defender>, i: int, n: int)
    requires RowMajor(c, g0) && AboveRow(c, g0, i)
    requires ColumnsIncrease(c, row) && InRow(c, row, i, n)
    ensures AboveRow(c, g0 + row, i + 1) && RowMajor(c, g0 + row)
  {
    var g := g0 + row;
    forall k, l | 0 <= k < l < |g| ensures Before(c, g[k], g[l]) {
      if l < |g0| {
        assert g[k] == g0[k] && g[l] == g0[l];
      } else if k < |g0| {
        assert g[k] == g0[k] && g[k] in g0;
        assert g[l] == row[l - |g0|] && g[l] in row;
      } else {
        assert g[k] == row[k - |g0|] && g[l] == row[l - |g0|];
        assert g[k] in row && g[l] in row;
      }
    }
  }

  /**
   * An entry is in the list for m exactly when it is the canonical form of a catalog
   * defender (bare type for one type, pair in catalog order for two) whose cell is m.
   */
  lemma BucketMembership(c: Chart, sel: seq<TypeId>, m: real, p: Defender)
    requires c.WellFormed() && FromCatalog(c, sel)
    ensures p in Bucket(c, sel, m) <==> Canonical(c, p) && CellOf(c, sel, p) == Mult(m)
  {
    GridEntriesMembers(c, sel, m, |c.types|);
  }

  /** A list holds its entries in row-major catalog order, so none occurs twice. */
  lemma BucketRowMajor(c: Chart, sel: seq<TypeId>, m: real)
    requires c.WellFormed() && FromCatalog(c, sel)
    ensures RowMajor(c, Bucket(c, sel, m))
    ensures NoDup(Bucket(c, sel, m))
  {
    GridEntriesOrdered(c, sel, m, |c.types|);
  }

  /** No defender is filed under two multipliers. */
  lemma BucketsDisjoint(c: Chart, sel: seq<TypeId>, m1: real, m2: real, p: Defender)
    requires c.WellFormed() && FromCatalog(c, sel) && m1 != m2
    ensures !(p in Bucket(c, sel, m1) && p in Bucket(c, sel, m2))
  {
    BucketMembership(c, sel, m1, p);
    BucketMembership(c, sel, m2, p);
  }

  /** With nothing selected every cell is '-', so every list stays empty. */
  lemma EmptySelectionFilesNothing(c: Chart, m: real)
    requires c.WellFormed()
    ensures Bucket(c, [], m) == []
  {
    var b := Bucket(c, [], m);
    if b != [] {
      BucketMembership(c, [], m, b[0]);
      assert false;
    }
  }

  /** The three lists side by side, as one `typeGroups` value. */
  function FiledRows(c: Chart, sel: seq<TypeId>, i: nat): TypeGroups
    requires c.WellFormed() && FromCatalog(c, sel) && i <= |c.types|
  {
    TypeGroups(GridEntries(c, sel, 0.25, i), GridEntries(c, sel, 0.5, i), GridEntries(c, sel, 1.0, i))
  }

  /** What the first j cells of row i add to each of the three lists. */
  function RowGroups(c: Chart, sel: seq<TypeId>, i: nat, j: nat): TypeGroups
    requires c.WellFormed() && FromCatalog(c, sel) && i < |c.types| && j <= |c.types|
  {
    TypeGroups(RowEntries(c, sel, 0.25, i, j), RowEntries(c, sel, 0.5, i, j), RowEntries(c, sel, 1.0, i, j))
  }

  /** What cell (i, j) adds to each of the three lists. */
  function CellGroups(c: Chart, sel: seq<TypeId>, i: nat, j: nat): TypeGroups
    requires c.WellFormed() && FromCatalog(c, sel) && i < |c.types| && j < |c.types|
  {
    TypeGroups(CellEntry(c, sel, 0.25, i, j), CellEntry(c, sel, 0.5, i, j), CellEntry(c, sel, 1.0, i, j))
  }

  /** Each list of g followed by the same list of h. */
  function Append(g: TypeGroups, h: TypeGroups): TypeGroups {
    TypeGroups(g.quarter + h.quarter, g.half + h.half, g.neutral + h.neutral)
  }

  lemma AppendAssoc(f: TypeGroups, g: TypeGroups, h: TypeGroups)
    ensures Append(Append(f, g), h) == Append(f, Append(g, h))
  {
  }

  lemma RowGroupsStep(c: Chart, sel: seq<TypeId>, i: nat, j: nat)
    requires c.WellFormed() && FromCatalog(c, sel) && i < |c.types| && j < |c.types|
    ensures RowGroups(c, sel, i, j + 1) == Append(RowGroups(c, sel, i, j), CellGroups(c, sel, i, j))
  {
  }

  /** Filing cell (i, j) after the first j cells of row i files the first j + 1 cells. */
  lemma FileRowStep(c: Chart, sel: seq<TypeId>, i: nat, j: nat, g: TypeGroups)
    requires c.WellFormed() && FromCatalog(c, sel) && i < |c.types| && j < |c.types|
    ensures Append(Append(g, RowGroups(c, sel, i, j)), CellGroups(c, sel, i, j)) == Append(g, RowGroups(c, sel, i, j + 1))
  {
    RowGroupsStep(c, sel, i, j);
    AppendAssoc(g, RowGroups(c, sel, i, j), CellGroups(c, sel, i, j));
  }

  lemma FiledRowsStep(c: Chart, sel: seq<TypeId>, i: nat)
    requires c.WellFormed() && FromCatalog(c, sel) && i < |c.types|
    ensures FiledRows(c, sel, i + 1) == Append(FiledRows(c, sel, i), RowGroups(c, sel, i, |c.types|))
  {
  }

  /** findTypesByEffectiveness: the three lists, built by the nested walk over the catalog. */
  method FindTypesByEffectiveness(c: Chart, selectedTypes: seq<TypeId>) returns (g: TypeGroups)
    requires c.WellFormed() && FromCatalog(c, selectedTypes)
    ensures g.quarter == Bucket(c, selectedTypes, 0.25)
    ensures g.half == Bucket(c, selectedTypes, 0.5)
    ensures g.neutral == Bucket(c, selectedTypes, 1.0)
  {
    g := TypeGroups([], [], []);
    var i := 0;
    while i < |c.types|
      invariant 0 <= i <= |c.types|
      invariant g == FiledRows(c, selectedTypes, i)
    {
      FiledRowsStep(c, selectedTypes, i);
      g := FileRow(c, selectedTypes, i, g);
      i := i + 1;
    }
  }

  /** The inner walk for defender d1 = catalog type i, over every d2 of the catalog. */
  method FileRow(c: Chart, selectedTypes: seq<TypeId>, i: nat, g: TypeGroups) returns (g': TypeGroups)
    requires c.WellFormed() && FromCatalog(c, selectedTypes) && i < |c.types|
    ensures g' == Append(g, RowGroups(c, selectedTypes, i, |c.types|))
  {
    g' := g;
    var j := 0;
    while j < |c.types|
      invariant 0 <= j <= |c.types|
      invariant g' == Append(g, RowGroups(c, selectedTypes, i, j))
    {
      FileRowStep(c, selectedTypes, i, j, g);
      g' := FileCell(c, selectedTypes, i, j, g');
      j := j + 1;
    }
  }

  /**
   * The body of the inner walk for cell (i, j): a canonical pair whose cell is 0.25, 0.5
   * or 1 is pushed onto the list under that multiplier.
   */
  method FileCell(c: Chart, selectedTypes: seq<TypeId>, i: nat, j: nat, g: TypeGroups) returns (g': TypeGroups)
    requires c.WellFormed() && FromCatalog(c, selectedTypes) && i < |c.types| && j < |c.types|
    ensures g' == Append(g, CellGroups(c, selectedTypes, i, j))
  {
    g' := g;
    var defenseType1, defenseType2 := c.types[i], c.types[j];
    if IndexOf(c.types, defenseType1) <= IndexOf(c.types, defenseType2) {
      var effectiveness := MaxEffectiveness(c, defenseType1, defenseType2, selectedTypes);
      if effectiveness == Mult(0.25) || effectiveness == Mult(0.5) || effectiveness == Mult(1.0) {
        var typePair := if defenseType1 == defenseType2 then Single(defenseType1)
                        else Dual(defenseType1, defenseType2);
        if effectiveness.value == 0.25 {
          g' := g'.(quarter := g'.quarter + [typePair]);
        } else if effectiveness.value == 0.5 {
          g' := g'.(half := g'.half + [typePair]);
        } else {
          g' := g'.(neutral := g'.neutral + [typePair]);
        }
      }
    }
  }

  /** The sort key of sortTypesByEffectiveness: the weakness score of an entry. */
  function ScoreKey(c: Chart): Defender -> int {
    p => if Placeable(c, p) then Score(c, p) else 0
  }

  /**
   * sortTypesByEffectiveness: sorts the list in place by descending weakness score,
   * stably, so entries with equal scores keep their order.
   */
  method SortTypesByEffectiveness(c: Chart, typesList: array<Defender>)
    requires forall k | 0 <= k < typesList.Length :: Placeable(c, typesList[k])
    modifies typesList
    ensures multiset(typesList[..]) == multiset(old(typesList[..]))
    ensures forall k | 0 <= k < typesList.Length :: Placeable(c, typesList[k])
    ensures forall k, l | 0 <= k < l < typesList.Length :: Score(c, typesList[k]) >= Score(c, typesList[l])
    ensures SameByKey(typesList[..], old(typesList[..]), ScoreKey(c))
  {
    SortDescending(typesList, ScoreKey(c));
    SameByKeyIsPermutation(typesList[..], old(typesList[..]), ScoreKey(c));
    forall k | 0 <= k < typesList.Length ensures Placeable(c, typesList[k]) {
      assert typesList[k] in multiset(typesList[..]);
      assert typesList[k] in old(typesList[..]);
    }
    forall k, l | 0 <= k < l < typesList.Length ensures Score(c, typesList[k]) >= Score(c, typesList[l]) {
      assert ScoreKey(c)(typesList[..][k]) >= ScoreKey(c)(typesList[..][l]);
    }
  }
}
