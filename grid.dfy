/** The current grid (Lab1.Core Grid): cell texts, the row and column
    counters, and the reference and dependents lists, all edited in place. */
module Grid {
  import opened Results
  import CP = CellPointer
  import opened CellStore

  // ---------------------------------------------------------------------------
  // What UpdateCell and a load compute
  // ---------------------------------------------------------------------------

  /** The counter rule of the indexer's setter: non-empty text at index k
      raises the count to k + 1 when it was not above k. */
  function Grown(n: int, k: int, value: string): int
  {
    if value != "" && k >= n then k + 1 else n
  }

  /** The row (or column) counter after a load, which starts it at 0. */
  function Extent(entries: seq<Entry>, byRow: bool): int
    decreases |entries|
  {
    if entries == [] then 0
    else
      var e := entries[|entries| - 1];
      Grown(Extent(entries[..|entries| - 1], byRow), if byRow then e.row else e.col, e.value)
  }

  /** After a load the counter is one more than the largest row (column)
      that received non-empty text, or 0 when there is none with a
      non-negative index. */
  lemma {:induction false} ExtentIsLargest(entries: seq<Entry>, byRow: bool)
    ensures Extent(entries, byRow) >= 0
    ensures forall j :: 0 <= j < |entries| && entries[j].value != "" ==>
      (if byRow then entries[j].row else entries[j].col) < Extent(entries, byRow)
    ensures Extent(entries, byRow) > 0 ==>
      exists j :: 0 <= j < |entries| && entries[j].value != "" &&
        (if byRow then entries[j].row else entries[j].col) == Extent(entries, byRow) - 1
    decreases |entries|
  {
    if entries != [] {
      var front := entries[..|entries| - 1];
      ExtentIsLargest(front, byRow);
      forall j | 0 <= j < |front| ensures entries[j] == front[j] {
      }
      if Extent(entries, byRow) == Extent(front, byRow) && Extent(front, byRow) > 0 {
        var j :| 0 <= j < |front| && front[j].value != "" &&
          (if byRow then front[j].row else front[j].col) == Extent(front, byRow) - 1;
        assert entries[j] == front[j];
      }
    }
  }

  /** UpdateCell's new reference list for p: FindPointers of the text with
      the first occurrence of p itself removed. */
  function NewReferences(p: CP.Addr, value: string): seq<CP.Addr>
  {
    RemoveFirst(CP.PointersIn(value), p)
  }

  function UpdatedRefs(refs: Edges, p: CP.Addr, value: string): Edges
  {
    refs[p := NewReferences(p, value)]
  }

  lemma OldReferencesKeyed(refs: Edges, deps: Edges, p: CP.Addr)
    requires KeysPresent(refs, deps)
    ensures forall j :: 0 <= j < |Get(refs, p)| ==> Get(refs, p)[j] in deps
  {
    forall j | 0 <= j < |Get(refs, p)| ensures Get(refs, p)[j] in deps {
      assert Get(refs, p)[j] in refs[p];
    }
  }

  /** UpdateCell's dependents map. Empty text removes p from every old
      target except p itself; other text removes p from the old targets that
      are not new ones, then adds it once to each new target. */
  function UpdatedDeps(refs: Edges, deps: Edges, p: CP.Addr, value: string): Edges
    requires KeysPresent(refs, deps)
  {
    OldReferencesKeyed(refs, deps, p);
    if value == "" then Unlink(deps, Get(refs, p), [p], p)
    else Link(Unlink(deps, Get(refs, p), NewReferences(p, value), p), NewReferences(p, value), p)
  }

  /** The targets UpdateCell uses as `news` when unlinking. */
  function Kept(p: CP.Addr, value: string): seq<CP.Addr>
  {
    if value == "" then [p] else NewReferences(p, value)
  }

  /** How often q is listed among r's dependents after UpdateCell. */
  lemma UpdatedCount(refs: Edges, deps: Edges, p: CP.Addr, value: string, r: CP.Addr, q: CP.Addr)
    requires KeysPresent(refs, deps)
    ensures multiset(Get(UpdatedDeps(refs, deps, p, value), r))[q] ==
      if q != p then multiset(Get(deps, r))[q]
      else if value != "" && r in NewReferences(p, value) then
        (if multiset(Get(deps, r))[p] == 0 then 1 else multiset(Get(deps, r))[p])
      else if r in Kept(p, value) then multiset(Get(deps, r))[p]
      else Drop(multiset(Get(deps, r))[p], multiset(Get(refs, p))[r])
  {
    OldReferencesKeyed(refs, deps, p);
    var olds := Get(refs, p);
    UnlinkCount(deps, olds, Kept(p, value), p, r, q);
    if value != "" {
      LinkCount(Unlink(deps, olds, Kept(p, value), p), NewReferences(p, value), p, r, q);
    }
  }

  /** After UpdateCell p is listed among the dependents of each new target,
      exactly once when no cell was listed twice before. */
  lemma UpdateLinksOnce(refs: Edges, deps: Edges, p: CP.Addr, value: string, r: CP.Addr)
    requires KeysPresent(refs, deps)
    requires r in NewReferences(p, value)
    ensures p in Get(UpdatedDeps(refs, deps, p, value), r)
    ensures AtMostOnce(deps) ==> multiset(Get(UpdatedDeps(refs, deps, p, value), r))[p] == 1
  {
    assert value != "" by {
      assert CP.PointersIn("") == [];
    }
    UpdatedCount(refs, deps, p, value, r, p);
  }

  /** After UpdateCell, an old target that is not a new one no longer lists
      p, given the mirror and no duplicates before; an empty text exempts p's
      own entry. */
  lemma UpdateUnlinksStale(refs: Edges, deps: Edges, p: CP.Addr, value: string, r: CP.Addr)
    requires Mirror(refs, deps) && AtMostOnce(deps)
    requires r in Get(refs, p) && r !in Kept(p, value)
    ensures p !in Get(UpdatedDeps(refs, deps, p, value), r)
  {
    UpdatedCount(refs, deps, p, value, r, p);
    assert multiset(Get(deps, r))[p] <= 1;
  }

  /** UpdateCell changes no entry other than p's, and leaves the dependents
      of cells that are neither old nor new targets as they were. */
  lemma UpdateKeepsOthers(refs: Edges, deps: Edges, p: CP.Addr, value: string, r: CP.Addr)
    requires KeysPresent(refs, deps)
    ensures forall q :: q != p ==> multiset(Get(UpdatedDeps(refs, deps, p, value), r))[q] == multiset(Get(deps, r))[q]
    ensures r !in Get(refs, p) && r !in NewReferences(p, value) ==> Get(UpdatedDeps(refs, deps, p, value), r) == Get(deps, r)
  {
    forall q | q != p ensures multiset(Get(UpdatedDeps(refs, deps, p, value), r))[q] == multiset(Get(deps, r))[q] {
      UpdatedCount(refs, deps, p, value, r, q);
    }
    if r !in Get(refs, p) && r !in NewReferences(p, value) {
      OldReferencesKeyed(refs, deps, p);
      UnlinkElsewhere(deps, Get(refs, p), Kept(p, value), p, r);
      if value != "" {
        LinkElsewhere(Unlink(deps, Get(refs, p), Kept(p, value), p), NewReferences(p, value), p, r);
      }
    }
  }

  /** One pair of cells after UpdateCell: the mirror holds for it and no
      cell is listed twice. */
  lemma UpdatePair(refs: Edges, deps: Edges, p: CP.Addr, value: string, q: CP.Addr, r: CP.Addr)
    requires Mirror(refs, deps) && AtMostOnce(deps)
    requires value == "" ==> p !in Get(refs, p)
    ensures r in Get(UpdatedRefs(refs, p, value), q) <==> q in Get(UpdatedDeps(refs, deps, p, value), r)
    ensures multiset(Get(UpdatedDeps(refs, deps, p, value), r))[q] <= 1
  {
    UpdatedCount(refs, deps, p, value, r, q);
    assert multiset(Get(deps, r))[q] <= 1;
    assert r in Get(refs, q) <==> q in Get(deps, r);
    if q == p && value == "" {
      assert NewReferences(p, value) == [] by {
        assert CP.PointersIn("") == [];
      }
    }
  }

  /** UpdateCell keeps the mirror and the absence of duplicates, except
      when it clears a cell that references itself. */
  lemma UpdateKeepsMirror(refs: Edges, deps: Edges, p: CP.Addr, value: string)
    requires Mirror(refs, deps) && AtMostOnce(deps)
    requires value == "" ==> p !in Get(refs, p)
    ensures Mirror(UpdatedRefs(refs, p, value), UpdatedDeps(refs, deps, p, value))
    ensures AtMostOnce(UpdatedDeps(refs, deps, p, value))
  {
    var refs', deps' := UpdatedRefs(refs, p, value), UpdatedDeps(refs, deps, p, value);
    UpdateKeepsKeys(refs, deps, p, value);
    forall q, r ensures r in Get(refs', q) <==> q in Get(deps', r) {
      UpdatePair(refs, deps, p, value, q, r);
    }
    forall r, q ensures multiset(Get(deps', r))[q] <= 1 {
      UpdatePair(refs, deps, p, value, q, r);
    }
  }

  /** Clearing a cell whose formula referenced the cell itself leaves the
      cell among its own dependents with no reference left to explain it. */
  lemma SelfEdgeSurvivesClear(a: CP.Addr)
    ensures Mirror(map[a := [a]], map[a := [a]]) && AtMostOnce(map[a := [a]])
    ensures UpdatedRefs(map[a := [a]], a, "") == map[a := []]
    ensures UpdatedDeps(map[a := [a]], map[a := [a]], a, "") == map[a := [a]]
    ensures !Mirror(map[a := []], map[a := [a]])
  {
    var one := map[a := [a]];
    forall r, q ensures multiset(Get(one, r))[q] <= 1 {
      if r != a {
        assert Get(one, r) == [];
      }
    }
    assert CP.PointersIn("") == [];
    assert [a][..0] == [];
    assert Unlink(one, [a], [a], a) == one;
    assert a in Get(map[a := [a]], a) && a !in Get(map[a := []], a);
  }

  /** Such a self-reference is stored by UpdateCell itself, from an empty
      grid, when the text names its own cell twice. */
  lemma SelfEdgeFromText(text: string)
    requires text == "$A$1+$A$1"
    ensures UpdatedRefs(map[], CP.Addr(1, 1), text) == map[CP.Addr(1, 1) := [CP.Addr(1, 1)]]
    ensures UpdatedDeps(map[], map[], CP.Addr(1, 1), text) == map[CP.Addr(1, 1) := [CP.Addr(1, 1)]]
  {
    var a := CP.Addr(1, 1);
    CP.PointersKeepDuplicates(text);
    assert NewReferences(a, text) == [a];
    var e: Edges := map[];
    assert Link(e, [a][..0], a) == e;
    assert Get(e, a) + [a] == [a];
    assert Link(e, [a], a) == e[a := [a]] == map[a := [a]];
  }

  /** Writing `$A$1+$A$1` to $A$1 of an empty grid and then clearing the cell
      leaves the two maps out of mirror: the self-edge is stored by the first
      update and kept by the second. */
  lemma SelfReferenceThenClear(text: string)
    requires text == "$A$1+$A$1"
    ensures UpdatedRefs(map[], CP.Addr(1, 1), text) == map[CP.Addr(1, 1) := [CP.Addr(1, 1)]]
    ensures UpdatedDeps(map[], map[], CP.Addr(1, 1), text) == map[CP.Addr(1, 1) := [CP.Addr(1, 1)]]
    ensures Mirror(map[CP.Addr(1, 1) := [CP.Addr(1, 1)]], map[CP.Addr(1, 1) := [CP.Addr(1, 1)]])
    ensures UpdatedRefs(map[CP.Addr(1, 1) := [CP.Addr(1, 1)]], CP.Addr(1, 1), "") == map[CP.Addr(1, 1) := []]
    ensures UpdatedDeps(map[CP.Addr(1, 1) := [CP.Addr(1, 1)]], map[CP.Addr(1, 1) := [CP.Addr(1, 1)]], CP.Addr(1, 1), "") ==
      map[CP.Addr(1, 1) := [CP.Addr(1, 1)]]
    ensures !Mirror(map[CP.Addr(1, 1) := []], map[CP.Addr(1, 1) := [CP.Addr(1, 1)]])
  {
    SelfEdgeFromText(text);
    SelfEdgeSurvivesClear(CP.Addr(1, 1));
  }

  /** The clearing branch as the two maps' description intends it: p is
      removed from the dependents of every old target, itself included. */
  function IntendedUpdatedDeps(refs: Edges, deps: Edges, p: CP.Addr, value: string): Edges
    requires KeysPresent(refs, deps)
  {
    OldReferencesKeyed(refs, deps, p);
    if value == "" then Unlink(deps, Get(refs, p), [], p)
    else UpdatedDeps(refs, deps, p, value)
  }

  /** Unlink looks at `news` only through membership of the old targets. */
  lemma {:induction false} UnlinkSameNews(deps: Edges, olds: seq<CP.Addr>, news1: seq<CP.Addr>, news2: seq<CP.Addr>, p: CP.Addr)
    requires forall j :: 0 <= j < |olds| ==> olds[j] in deps
    requires forall j :: 0 <= j < |olds| ==> (olds[j] in news1 <==> olds[j] in news2)
    ensures Unlink(deps, olds, news1, p) == Unlink(deps, olds, news2, p)
    decreases |olds|
  {
    if olds != [] {
      UnlinkSameNews(deps, olds[..|olds| - 1], news1, news2, p);
    }
  }

  /** The correction changes UpdateCell only where a cell that references
      itself is cleared. */
  lemma IntendedAgrees(refs: Edges, deps: Edges, p: CP.Addr, value: string)
    requires KeysPresent(refs, deps)
    ensures value != "" || p !in Get(refs, p) ==>
      IntendedUpdatedDeps(refs, deps, p, value) == UpdatedDeps(refs, deps, p, value)
  {
    OldReferencesKeyed(refs, deps, p);
    if value == "" && p !in Get(refs, p) {
      UnlinkSameNews(deps, Get(refs, p), [], [p], p);
    }
  }

  /** Where a self-reference is cleared the two differ: the code keeps p
      among its own dependents, the correction removes it. */
  lemma IntendedDiffers(refs: Edges, deps: Edges, p: CP.Addr)
    requires Mirror(refs, deps) && AtMostOnce(deps)
    requires p in Get(refs, p)
    ensures p in Get(UpdatedDeps(refs, deps, p, ""), p)
    ensures p !in Get(IntendedUpdatedDeps(refs, deps, p, ""), p)
  {
    OldReferencesKeyed(refs, deps, p);
    UnlinkCount(deps, Get(refs, p), [p], p, p, p);
    UnlinkCount(deps, Get(refs, p), [], p, p, p);
    assert p in Get(deps, p);
    assert multiset(Get(deps, p))[p] <= 1;
    assert multiset(Get(refs, p))[p] >= 1;
  }

  /** With the correction, UpdateCell keeps the mirror and the absence of
      duplicates on every update, clearing a self-reference included. */
  lemma IntendedUpdateKeepsMirror(refs: Edges, deps: Edges, p: CP.Addr, value: string)
    requires Mirror(refs, deps) && AtMostOnce(deps)
    ensures Mirror(UpdatedRefs(refs, p, value), IntendedUpdatedDeps(refs, deps, p, value))
    ensures AtMostOnce(IntendedUpdatedDeps(refs, deps, p, value))
  {
    if value != "" {
      UpdateKeepsMirror(refs, deps, p, value);
    } else {
      var refs', deps' := UpdatedRefs(refs, p, value), IntendedUpdatedDeps(refs, deps, p, value);
      assert NewReferences(p, value) == [] by {
        assert CP.PointersIn("") == [];
      }
      OldReferencesKeyed(refs, deps, p);
      assert deps'.Keys == deps.Keys;
      assert KeysPresent(refs', deps') by {
        forall q, r | q in refs' && r in refs'[q] ensures r in deps' {
          assert q != p && r in refs[q];
        }
      }
      forall q, r ensures r in Get(refs', q) <==> q in Get(deps', r) {
        IntendedClearPair(refs, deps, p, q, r);
      }
      forall r, q ensures multiset(Get(deps', r))[q] <= 1 {
        IntendedClearPair(refs, deps, p, q, r);
      }
    }
  }

  /** One pair of cells after the corrected clearing. */
  lemma IntendedClearPair(refs: Edges, deps: Edges, p: CP.Addr, q: CP.Addr, r: CP.Addr)
    requires Mirror(refs, deps) && AtMostOnce(deps)
    ensures r in Get(UpdatedRefs(refs, p, ""), q) <==> q in Get(IntendedUpdatedDeps(refs, deps, p, ""), r)
    ensures multiset(Get(IntendedUpdatedDeps(refs, deps, p, ""), r))[q] <= 1
  {
    assert NewReferences(p, "") == [] by {
      assert CP.PointersIn("") == [];
    }
    OldReferencesKeyed(refs, deps, p);
    UnlinkCount(deps, Get(refs, p), [], p, r, q);
    assert multiset(Get(deps, r))[q] <= 1;
    assert r in Get(refs, q) <==> q in Get(deps, r);
    if q == p && p in Get(deps, r) {
      assert multiset(Get(refs, p))[r] >= 1;
    }
  }

  /** A load lists a cell once per occurrence; a later edit that keeps one
      occurrence keeps both entries, and removing that one occurrence leaves
      a stale entry behind. */
  lemma LoadedDuplicateOutlivesEdits(a: CP.Addr, b: CP.Addr, once: string, none: string)
    requires a != b
    requires once != "" && CP.PointersIn(once) == [a]
    requires none != "" && CP.PointersIn(none) == []
    ensures CountMirror(map[b := [a, a]], map[a := [b, b]])
    ensures UpdatedRefs(map[b := [a, a]], b, once) == map[b := [a]]
    ensures UpdatedDeps(map[b := [a, a]], map[a := [b, b]], b, once) == map[a := [b, b]]
    ensures UpdatedRefs(map[b := [a]], b, none) == map[b := []]
    ensures UpdatedDeps(map[b := [a]], map[a := [b, b]], b, none) == map[a := [b]]
    ensures !Mirror(map[b := []], map[a := [b]])
  {
    DuplicateLoadCounted(a, b);
    KeepOneOccurrence(a, b, once);
    DropLastOccurrence(a, b, none);
    assert b in Get(map[a := [b]], a) && a !in Get(map[b := []], b);
  }

  lemma DuplicateLoadCounted(a: CP.Addr, b: CP.Addr)
    ensures CountMirror(map[b := [a, a]], map[a := [b, b]])
  {
    var refs, deps := map[b := [a, a]], map[a := [b, b]];
    forall q, r ensures multiset(Get(deps, r))[q] == multiset(Get(refs, q))[r] {
      if r != a {
        assert Get(deps, r) == [];
      }
      if q != b {
        assert Get(refs, q) == [];
      }
    }
  }

  lemma KeepOneOccurrence(a: CP.Addr, b: CP.Addr, once: string)
    requires a != b && once != "" && CP.PointersIn(once) == [a]
    ensures UpdatedRefs(map[b := [a, a]], b, once) == map[b := [a]]
    ensures UpdatedDeps(map[b := [a, a]], map[a := [b, b]], b, once) == map[a := [b, b]]
  {
    var deps := map[a := [b, b]];
    RemoveFirstCount([a], b);
    assert NewReferences(b, once) == [a];
    assert [a, a][..1] == [a] && [a][..0] == [];
    assert Unlink(deps, [], [a], b) == deps;
    assert Unlink(deps, [a], [a], b) == deps;
    assert Unlink(deps, [a, a], [a], b) == deps;
    assert Link(deps, [], b) == deps;
    assert Link(deps, [a], b) == deps;
  }

  lemma DropLastOccurrence(a: CP.Addr, b: CP.Addr, none: string)
    requires a != b && none != "" && CP.PointersIn(none) == []
    ensures UpdatedRefs(map[b := [a]], b, none) == map[b := []]
    ensures UpdatedDeps(map[b := [a]], map[a := [b, b]], b, none) == map[a := [b]]
  {
    var deps := map[a := [b, b]];
    assert NewReferences(b, none) == [];
    assert [a][..0] == [] && [b, b][1..] == [b];
    assert Unlink(deps, [], [], b) == deps;
    assert RemoveFirst([b, b], b) == [b];
    assert Unlink(deps, [a], [], b) == map[a := [b]];
  }

  /** Every stored cell lies below the row and column counters. */
  ghost predicate Bounded(inner: Sheet, rows: int, columns: int)
  {
    forall row, col :: row in inner && col in inner[row] ==> row < rows && col < columns
  }

  /** The setter's counter rule keeps every stored cell below the counters. */
  lemma StoredKeepsBounds(inner: Sheet, row: int, col: int, value: string, rows: int, columns: int)
    requires Bounded(inner, rows, columns)
    ensures Bounded(Stored(inner, row, col, value), Grown(rows, row, value), Grown(columns, col, value))
  {
    forall r, c | r in Stored(inner, row, col, value) && c in Stored(inner, row, col, value)[r]
      ensures r < Grown(rows, row, value) && c < Grown(columns, col, value)
    {
      StoredReadsBack(inner, row, col, value, r, c);
      assert CellOf(Stored(inner, row, col, value), r, c).Some?;
    }
  }

  /** UpdateCell's branch for empty text: p is removed from the dependents
      of every cell it referenced except itself, and its references go. */
  method ClearReferences(refs: Edges, deps: Edges, p: CP.Addr, value: string) returns (refs': Edges, deps': Edges)
    requires KeysPresent(refs, deps)
    ensures KeysPresent(refs', deps')
    ensures value == "" ==> refs' == refs - {p} && deps' == Unlink(deps, Get(refs, p), [p], p)
    ensures value != "" ==> refs' == refs && deps' == deps
  {
    refs', deps' := refs, deps;
    OldReferencesKeyed(refs, deps, p);
    if value == "" {
      if p in refs {
        var usedCells := refs[p];
        deps' := RemoveFromTargets(deps, usedCells, [p], p);
        refs' := refs - {p};
      }
    }
  }

  /** The rest of UpdateCell: the new references of p with p itself taken
      out once, p removed from the old targets that are not new ones, the
      new list stored, and p added to each new target. */
  method Relink(refs: Edges, deps: Edges, p: CP.Addr, value: string) returns (refs': Edges, deps': Edges)
    requires KeysPresent(refs, deps)
    ensures refs' == refs[p := NewReferences(p, value)]
    ensures deps' == Link(Unlink(deps, Get(refs, p), NewReferences(p, value), p), NewReferences(p, value), p)
  {
    var newReferences := CP.FindPointers(value);
    newReferences := RemoveFirst(newReferences, p);
    var oldReferences := Get(refs, p);
    OldReferencesKeyed(refs, deps, p);
    deps' := RemoveFromTargets(deps, oldReferences, newReferences, p);
    refs' := refs[p := newReferences];
    deps' := AddToTargets(deps', newReferences, p);
  }

  /** ClearReferences followed by Relink is the update UpdatedRefs and
      UpdatedDeps describe. */
  lemma UpdateComposes(refs: Edges, deps: Edges, p: CP.Addr, value: string, refs1: Edges, deps1: Edges)
    requires KeysPresent(refs, deps) && KeysPresent(refs1, deps1)
    requires value == "" ==> refs1 == refs - {p} && deps1 == Unlink(deps, Get(refs, p), [p], p)
    requires value != "" ==> refs1 == refs && deps1 == deps
    ensures refs1[p := NewReferences(p, value)] == UpdatedRefs(refs, p, value)
    ensures Link(Unlink(deps1, Get(refs1, p), NewReferences(p, value), p), NewReferences(p, value), p) ==
      UpdatedDeps(refs, deps, p, value)
  {
    OldReferencesKeyed(refs1, deps1, p);
    if value == "" {
      assert NewReferences(p, value) == [] by {
        assert CP.PointersIn("") == [];
      }
      assert Get(refs1, p) == [];
      assert refs1[p := []] == refs[p := []];
    }
  }

  // ---------------------------------------------------------------------------
  // The grid
  // ---------------------------------------------------------------------------

  class Grid {
    var inner: Sheet
    var nbColumns: int
    var nbRows: int
    var references: Edges
    var dependents: Edges

    /** No stored text is empty and every stored cell lies below the
        counters. */
    ghost predicate CellsValid()
      reads this
    {
      0 <= nbRows && 0 <= nbColumns && NoEmptyText(inner) && Bounded(inner, nbRows, nbColumns)
    }

    /** The cells are valid and every referenced cell has a dependents
        entry. */
    ghost predicate Valid()
      reads this
    {
      CellsValid() && KeysPresent(references, dependents)
    }

    /** Allocates `rows` empty rows; the counters stay at 0. A negative
        capacity is refused by the dictionaries. */
    constructor(rows: int, columns: int)
      requires rows >= 0 && (rows > 0 ==> columns >= 0)
      ensures Valid()
      ensures forall k :: k in inner <==> 0 <= k < rows
      ensures forall k :: k in inner ==> inner[k] == map[]
      ensures nbRows == 0 && nbColumns == 0
      ensures references == map[] && dependents == map[]
    {
      var rowMaps: Sheet := map[];
      var i := 0;
      while i < rows
        invariant 0 <= i <= rows
        invariant forall k :: k in rowMaps <==> 0 <= k < i
        invariant forall k :: k in rowMaps ==> rowMaps[k] == map[]
      {
        rowMaps := rowMaps[i := map[]];
        i := i + 1;
      }
      inner := rowMaps;
      nbColumns, nbRows := 0, 0;
      references, dependents := map[], map[];
    }

    /** The indexer's setter. */
    method SetCell(row: int, col: int, value: string)
      requires CellsValid()
      modifies this
      ensures CellsValid()
      ensures inner == Stored(old(inner), row, col, value)
      ensures nbColumns == Grown(old(nbColumns), col, value)
      ensures nbRows == Grown(old(nbRows), row, value)
      ensures references == old(references) && dependents == old(dependents)
    {
      StoredKeepsNoEmptyText(inner, row, col, value);
      StoredKeepsBounds(inner, row, col, value, nbRows, nbColumns);
      // the row, created empty when missing
      var cells := if row in inner then inner[row] else map[];
      if value == "" {
        inner := inner[row := cells - {col}];
        return;
      }
      if col >= nbColumns {
        nbColumns := col + 1;
      }
      if row >= nbRows {
        nbRows := row + 1;
      }
      inner := inner[row := cells[col := value]];
    }

    function Rows(): int
      reads this
    {
      nbRows
    }

    function Columns(): int
      reads this
    {
      nbColumns
    }

    /** GetCellData: "" exactly for a cell that is not stored. */
    function GetCellData(p: CP.Addr): (r: string)
      reads this
      ensures CellsValid() ==> (r == "" <==> CellOf(inner, p.row, p.col).None?)
    {
      CellText(inner, p)
    }

    /** GetDependents: under the mirror, exactly the cells whose formulas
        reference p. */
    function GetDependents(p: CP.Addr): (r: seq<CP.Addr>)
      reads this
      ensures Mirror(references, dependents) ==> forall q :: q in r <==> p in Get(references, q)
    {
      Get(dependents, p)
    }

    method UpdateCell(p: CP.Addr, value: string) returns (deps: seq<CP.Addr>)
      requires Valid()
      modifies this
      ensures Valid()
      ensures inner == Stored(old(inner), p.row, p.col, value)
      ensures nbRows == Grown(old(nbRows), p.row, value) && nbColumns == Grown(old(nbColumns), p.col, value)
      ensures references == UpdatedRefs(old(references), p, value)
      ensures dependents == UpdatedDeps(old(references), old(dependents), p, value)
      ensures deps == GetDependents(p)
      ensures GetCellData(p) == value
      ensures forall q :: q != p ==> GetCellData(q) == old(GetCellData(q))
      ensures (old(Mirror(references, dependents) && AtMostOnce(dependents)) &&
               (value == "" ==> p !in old(Get(references, p)))) ==>
        Mirror(references, dependents) && AtMostOnce(dependents)
    {
      ghost var refs0, deps0, inner0 := references, dependents, inner;
      var refs, depMap := ClearReferences(references, dependents, p, value);
      ghost var refs1, deps1 := refs, depMap;
      SetCell(p.row, p.col, value);
      refs, depMap := Relink(refs, depMap, p, value);
      UpdateComposes(refs0, deps0, p, value, refs1, deps1);
      references, dependents := refs, depMap;
      deps := Get(dependents, p);
      UpdateKeepsKeys(refs0, deps0, p, value);
      StoredReadsBack(inner0, p.row, p.col, value, p.row, p.col);
      forall q | q != p ensures CellText(inner, q) == CellText(inner0, q) {
        StoredReadsBack(inner0, p.row, p.col, value, q.row, q.col);
      }
      if Mirror(refs0, deps0) && AtMostOnce(deps0) && (value == "" ==> p !in Get(refs0, p)) {
        UpdateKeepsMirror(refs0, deps0, p, value);
      }
    }

    /** ClearCell is UpdateCell with empty text. */
    method ClearCell(p: CP.Addr) returns (deps: seq<CP.Addr>)
      requires Valid()
      modifies this
      ensures Valid()
      ensures inner == Stored(old(inner), p.row, p.col, "")
      ensures nbRows == old(nbRows) && nbColumns == old(nbColumns)
      ensures references == old(references)[p := []]
      ensures dependents == UpdatedDeps(old(references), old(dependents), p, "")
      ensures deps == GetDependents(p) && GetCellData(p) == ""
    {
      assert CP.PointersIn("") == [];
      deps := UpdateCell(p, "");
    }

    /** The replay loop of ReadFromJsonStreamAsync over the deserialized
        cells, in the order the dictionaries enumerate them. No data leaves
        the grid as it was. */
    method Load(data: Option<seq<Entry>>)
      requires Valid()
      modifies this
      ensures Valid()
      ensures data.None? ==>
        inner == old(inner) && nbRows == old(nbRows) && nbColumns == old(nbColumns) &&
        references == old(references) && dependents == old(dependents)
      ensures data.Some? ==> inner == LoadSheet(map[], data.value)
      ensures data.Some? ==> nbRows == Extent(data.value, true) && nbColumns == Extent(data.value, false)
      ensures data.Some? ==> references == LoadEdges(data.value).0 && dependents == LoadEdges(data.value).1
    {
      if data.None? {
        return;
      }
      var entries := data.value;
      var refs: Edges, depMap: Edges := map[], map[];
      inner := map[];
      nbColumns, nbRows := 0, 0;
      for k := 0 to |entries|
        invariant CellsValid()
        invariant inner == LoadSheet(map[], entries[..k])
        invariant nbRows == Extent(entries[..k], true) && nbColumns == Extent(entries[..k], false)
        invariant (refs, depMap) == LoadEdges(entries[..k])
      {
        assert entries[..k + 1][..k] == entries[..k];
        var e := entries[k];
        var pointer := CP.Addr(e.col, e.row);
        SetCell(e.row, e.col, e.value);
        var usedInCells := CP.FindPointers(e.value);
        refs := refs[pointer := usedInCells];
        depMap := AppendToTargets(depMap, usedInCells, pointer);
      }
      assert entries[..|entries|] == entries;
      references, dependents := refs, depMap;
      LoadKeysPresent(entries);
    }
  }

  /** UpdateCell leaves every referenced cell with a dependents entry. */
  lemma UpdateKeepsKeys(refs: Edges, deps: Edges, p: CP.Addr, value: string)
    requires KeysPresent(refs, deps)
    ensures KeysPresent(UpdatedRefs(refs, p, value), UpdatedDeps(refs, deps, p, value))
  {
    var news := NewReferences(p, value);
    assert value == "" ==> news == [] by {
      assert CP.PointersIn("") == [];
    }
    forall q, r | q in UpdatedRefs(refs, p, value) && r in UpdatedRefs(refs, p, value)[q]
      ensures r in UpdatedDeps(refs, deps, p, value)
    {
      if q == p {
        assert r in news;
      }
    }
  }
}
