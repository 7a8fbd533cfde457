/**
 * The selection state of the application: the list of attacking types the user has
 * picked, in the order they were picked. Clicking a type button toggles that type;
 * the reset button clears the list.
 */
module Selection {
  import opened Catalog

  /** `s.filter(x => x !== t)`: s without any occurrence of t, the rest in order. */
  function Without(s: seq<TypeId>, t: TypeId): (r: seq<TypeId>)
    ensures forall x :: x in r <==> x in s && x != t
    ensures |r| <= |s|
  {
    if s == [] then []
    else Without(s[..|s| - 1], t) + (if s[|s| - 1] == t then [] else [s[|s| - 1]])
  }

  /**
   * The list after a click on t: t removed when present, otherwise appended. The click
   * flips the membership of t and of no other type.
   */
  function Toggled(s: seq<TypeId>, t: TypeId): (r: seq<TypeId>)
    ensures t in r <==> t !in s
    ensures forall x | x != t :: x in r <==> x in s
  {
    if t in s then Without(s, t) else s + [t]
  }

  /** The selection held by the application component. */
  class TypeSelection {
    var selected: seq<TypeId>

    /** The list never holds a type twice. */
    ghost predicate Valid()
      reads this
    {
      NoDup(selected)
    }

    /** The initial state: nothing selected. */
    constructor ()
      ensures selected == [] && Valid()
    {
      selected := [];
    }

    /** handleTypeClick: toggles t. */
    method HandleTypeClick(t: TypeId)
      requires Valid()
      modifies this
      ensures selected == Toggled(old(selected), t)
      ensures Valid()
    {
      if t in selected {
        selected := Without(selected, t);
      } else {
        selected := selected + [t];
      }
      ToggleKeepsNoDup(old(selected), t);
    }

    /** handleReset: clears the selection. */
    method HandleReset()
      modifies this
      ensures selected == [] && Valid()
    {
      selected := [];
    }
  }

  /** Filtering distributes over concatenation, so the kept types stay in their order. */
  lemma {:induction false} WithoutConcat(s: seq<TypeId>, u: seq<TypeId>, t: TypeId)
    ensures Without(s + u, t) == Without(s, t) + Without(u, t)
    decreases |u|
  {
    if u == [] {
      assert s + u == s;
    } else {
      var init := u[..|u| - 1];
      assert (s + u)[..|s + u| - 1] == s + init;
      WithoutConcat(s, init, t);
    }
  }

  /** A list that does not hold t is unchanged by the filter. */
  lemma {:induction false} WithoutAbsent(s: seq<TypeId>, t: TypeId)
    requires t !in s
    ensures Without(s, t) == s
    decreases |s|
  {
    if s != [] {
      var init, last := s[..|s| - 1], s[|s| - 1];
      assert last in s;
      assert Without(s, t) == Without(init, t) + [last];
      assert t !in init by {
        forall x | x in init ensures x in s {
          var k :| 0 <= k < |init| && init[k] == x;
          assert s[k] == x;
        }
      }
      WithoutAbsent(init, t);
      assert s == init + [last];
    }
  }

  /** Removing the one occurrence of t splices it out: the types around it keep their order. */
  lemma WithoutSplices(p: seq<TypeId>, t: TypeId, q: seq<TypeId>)
    requires t !in p && t !in q
    ensures Without(p + [t] + q, t) == p + q
  {
    WithoutConcat(p + [t], q, t);
    WithoutConcat(p, [t], t);
    WithoutAbsent(p, t);
    WithoutAbsent(q, t);
    WithoutSelf(t);
    assert Without(p + [t], t) == p + [];
    assert p + [] == p;
  }

  lemma WithoutSelf(t: TypeId)
    ensures Without([t], t) == []
  {
    assert [t][..0] == [];
  }

  /** The filter keeps a list free of duplicates. */
  lemma {:induction false} WithoutKeepsNoDup(s: seq<TypeId>, t: TypeId)
    requires NoDup(s)
    ensures NoDup(Without(s, t))
    decreases |s|
  {
    if s != [] {
      var init, last := s[..|s| - 1], s[|s| - 1];
      assert NoDup(init);
      WithoutKeepsNoDup(init, t);
      assert last !in init;
      var r0 := Without(init, t);
      if last != t {
        assert last !in r0;
        AppendKeepsNoDup(r0, last);
      }
    }
  }

  /** A click keeps the selection free of duplicates. */
  lemma ToggleKeepsNoDup(s: seq<TypeId>, t: TypeId)
    requires NoDup(s)
    ensures NoDup(Toggled(s, t))
  {
    if t in s {
      WithoutKeepsNoDup(s, t);
    } else {
      AppendKeepsNoDup(s, t);
    }
  }

  /** Two clicks on an unselected type restore the selection. */
  lemma ToggleTwiceAbsent(s: seq<TypeId>, t: TypeId)
    requires t !in s
    ensures Toggled(Toggled(s, t), t) == s
  {
    WithoutSplices(s, t, []);
    assert s + [t] + [] == s + [t];
    assert s + [] == s;
  }

  /** A click on a selected type takes it out; the types before and after it keep their order. */
  lemma ToggleRemoves(p: seq<TypeId>, t: TypeId, q: seq<TypeId>)
    requires NoDup(p + [t] + q)
    ensures Toggled(p + [t] + q, t) == p + q
  {
    NoDupAround(p, t, q);
    WithoutSplices(p, t, q);
  }

  /** Two clicks on a selected type move it to the end of the selection. */
  lemma ToggleTwicePresent(p: seq<TypeId>, t: TypeId, q: seq<TypeId>)
    requires NoDup(p + [t] + q)
    ensures Toggled(Toggled(p + [t] + q, t), t) == p + q + [t]
  {
    ToggleRemoves(p, t, q);
    NoDupAround(p, t, q);
  }

  /** In a list without duplicates, an element occurs neither before nor after its position. */
  lemma NoDupAround(p: seq<TypeId>, t: TypeId, q: seq<TypeId>)
    requires NoDup(p + [t] + q)
    ensures t !in p && t !in q
  {
    var s := p + [t] + q;
    assert s[|p|] == t;
    forall i | 0 <= i < |p| ensures p[i] != t {
      assert s[i] == p[i];
    }
    forall i | 0 <= i < |q| ensures q[i] != t {
      assert s[|p| + 1 + i] == q[i];
    }
  }

  /** The distinct elements of a list are at most as many as its length. */
  lemma {:induction false} SetOfSeqBound(s: seq<TypeId>)
    ensures |set x | x in s| <= |s|
    ensures NoDup(s) ==> |set x | x in s| == |s|
    decreases |s|
  {
    if s != [] {
      var init, last := s[..|s| - 1], s[|s| - 1];
      SetOfSeqBound(init);
      assert (set x | x in s) == (set x | x in init) + {last};
      if NoDup(s) {
        assert NoDup(init);
        assert last !in (set x | x in init);
      }
    }
  }

  /** A selection of catalog types without duplicates is no longer than the catalog. */
  lemma SelectionBound(c: Chart, s: seq<TypeId>)
    requires NoDup(s) && FromCatalog(c, s)
    ensures |s| <= |c.types|
  {
    SetOfSeqBound(s);
    SetOfSeqBound(c.types);
    var a, b := set x | x in s, set x | x in c.types;
    assert a <= b;
    assert |b| == |a| + |b - a| by {
      assert b == a + (b - a);
    }
  }
}
