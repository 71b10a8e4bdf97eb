/** The older grid (Grid/Grid.cs): the same three maps, without counters,
    with unfiltered reference lists and dependents lists that only grow
    unless the cell is cleared. */
module LegacyGrid {
  import opened Results
  import CP = CellPointer
  import opened CellStore

  // ---------------------------------------------------------------------------
  // What UpdateCell computes
  // ---------------------------------------------------------------------------

  /** UpdateCell's references: the unfiltered FindPointers of the text. */
  function UpdatedRefs(refs: Edges, p: CP.Addr, value: string): Edges
  {
    refs[p := CP.PointersIn(value)]
  }

  /** UpdateCell's dependents: empty text first removes p once from the
      dependents of each old reference (p's own entry included); then p is
      appended once per occurrence in the new text. */
  function UpdatedDeps(refs: Edges, deps: Edges, p: CP.Addr, value: string): Edges
    requires KeysPresent(refs, deps)
  {
    KeyedReferences(refs, deps, p);
    Append(if value == "" then Unlink(deps, Get(refs, p), [], p) else deps, CP.PointersIn(value), p)
  }

  lemma KeyedReferences(refs: Edges, deps: Edges, p: CP.Addr)
    requires KeysPresent(refs, deps)
    ensures forall j :: 0 <= j < |Get(refs, p)| ==> Get(refs, p)[j] in deps
  {
    forall j | 0 <= j < |Get(refs, p)| ensures Get(refs, p)[j] in deps {
      assert Get(refs, p)[j] in refs[p];
    }
  }

  lemma UpdateKeepsKeys(refs: Edges, deps: Edges, p: CP.Addr, value: string)
    requires KeysPresent(refs, deps)
    ensures KeysPresent(UpdatedRefs(refs, p, value), UpdatedDeps(refs, deps, p, value))
  {
    forall q, r | q in UpdatedRefs(refs, p, value) && r in UpdatedRefs(refs, p, value)[q]
      ensures r in UpdatedDeps(refs, deps, p, value)
    {
      if q == p {
        assert r in CP.PointersIn(value);
      }
    }
  }

  /** How often q is listed among r's dependents after UpdateCell: p gains
      one entry per occurrence of r in the new text, after empty text has
      removed one per occurrence among the old references. */
  lemma UpdatedCount(refs: Edges, deps: Edges, p: CP.Addr, value: string, r: CP.Addr, q: CP.Addr)
    requires KeysPresent(refs, deps)
    ensures multiset(Get(UpdatedDeps(refs, deps, p, value), r))[q] ==
      if q != p then multiset(Get(deps, r))[q]
      else if value == "" then Drop(multiset(Get(deps, r))[p], multiset(Get(refs, p))[r])
      else multiset(Get(deps, r))[p] + multiset(CP.PointersIn(value))[r]
  {
    KeyedReferences(refs, deps, p);
    var cleared := if value == "" then Unlink(deps, Get(refs, p), [], p) else deps;
    UnlinkCount(deps, Get(refs, p), [], p, r, q);
    AppendCount(cleared, CP.PointersIn(value), p, r, q);
    assert value == "" ==> multiset(CP.PointersIn(value))[r] == 0 by {
      assert CP.PointersIn("") == [];
    }
  }

  /** A formula naming its own cell keeps that edge: the cell is among its
      own references and its own dependents. */
  lemma SelfReferenceKept(refs: Edges, deps: Edges, p: CP.Addr, value: string)
    requires KeysPresent(refs, deps)
    requires p in CP.PointersIn(value)
    ensures p in Get(UpdatedRefs(refs, p, value), p)
    ensures p in Get(UpdatedDeps(refs, deps, p, value), p)
  {
    assert value != "" by {
      assert CP.PointersIn("") == [];
    }
    UpdatedCount(refs, deps, p, value, p, p);
  }

  /** Text that is not empty removes nothing: every earlier dependents list
      is a prefix of the new one, stale edges included. */
  lemma NothingRemoved(refs: Edges, deps: Edges, p: CP.Addr, value: string, r: CP.Addr)
    requires KeysPresent(refs, deps)
    requires value != ""
    ensures Get(deps, r) <= Get(UpdatedDeps(refs, deps, p, value), r)
  {
    AppendGrows(deps, CP.PointersIn(value), p, r);
  }

  /** Repeating the same update lists p twice among the dependents of each
      cell its text references. */
  lemma RepeatedUpdateDuplicates(refs: Edges, deps: Edges, p: CP.Addr, value: string, r: CP.Addr)
    requires KeysPresent(refs, deps)
    requires r in CP.PointersIn(value)
    ensures KeysPresent(UpdatedRefs(refs, p, value), UpdatedDeps(refs, deps, p, value))
    ensures multiset(Get(UpdatedDeps(UpdatedRefs(refs, p, value), UpdatedDeps(refs, deps, p, value), p, value), r))[p] >=
      multiset(Get(deps, r))[p] + 2
  {
    assert value != "" by {
      assert CP.PointersIn("") == [];
    }
    UpdateKeepsKeys(refs, deps, p, value);
    UpdatedCount(refs, deps, p, value, r, p);
    UpdatedCount(UpdatedRefs(refs, p, value), UpdatedDeps(refs, deps, p, value), p, value, r, p);
  }

  /** Clearing keeps the mirror with multiplicities, and so does a first
      formula for a cell with no references; any other update keeps the old
      targets' entries while replacing the references. */
  lemma UpdateKeepsCountMirror(refs: Edges, deps: Edges, p: CP.Addr, value: string)
    requires CountMirror(refs, deps)
    requires value == "" || Get(refs, p) == []
    ensures CountMirror(UpdatedRefs(refs, p, value), UpdatedDeps(refs, deps, p, value))
  {
    UpdateKeepsKeys(refs, deps, p, value);
    forall q, r ensures multiset(Get(UpdatedDeps(refs, deps, p, value), r))[q] ==
      multiset(Get(UpdatedRefs(refs, p, value), q))[r]
    {
      UpdatedCount(refs, deps, p, value, r, q);
      assert multiset(Get(deps, r))[q] == multiset(Get(refs, q))[r];
      if q == p && value == "" {
        assert CP.PointersIn("") == [];
      }
    }
  }

  /** Replacing a reference without clearing first leaves a stale edge, so
      the mirror no longer holds. */
  lemma StaleEdgeBreaksMirror(a: CP.Addr, b: CP.Addr, none: string)
    requires none != "" && CP.PointersIn(none) == []
    ensures Mirror(map[b := [a]], map[a := [b]])
    ensures UpdatedRefs(map[b := [a]], b, none) == map[b := []]
    ensures UpdatedDeps(map[b := [a]], map[a := [b]], b, none) == map[a := [b]]
    ensures !Mirror(map[b := []], map[a := [b]])
  {
    var refs, deps := map[b := [a]], map[a := [b]];
    forall q, r ensures r in Get(refs, q) <==> q in Get(deps, r) {
      if r != a {
        assert Get(deps, r) == [];
      }
      if q != b {
        assert Get(refs, q) == [];
      }
    }
    assert Append(deps, [], b) == deps;
    assert b in Get(map[a := [b]], a) && a !in Get(map[b := []], b);
  }

  lemma EmptyOrMember(s: set<int>)
    ensures s == {} || exists x :: x in s
  {
    if forall x :: x !in s {
      assert s == {};
    }
  }

  /** The largest element of a non-empty set. */
  ghost function MaxKey(s: set<int>): (m: int)
    requires s != {}
    ensures m in s && forall k :: k in s ==> k <= m
  {
    EmptyOrMember(s);
    var x :| x in s;
    if s == {x} then
      assert forall k :: k in s ==> k == x;
      x
    else
      var m := MaxKey(s - {x});
      assert forall k :: k in s ==> k == x || k in s - {x};
      if x > m then x else m
  }

  /** The largest column key over all rows, each of them non-empty. */
  ghost function LargestColumn(inner: Sheet): (m: int)
    requires inner.Keys != {} && forall row :: row in inner ==> inner[row].Keys != {}
    ensures forall row, col :: row in inner && col in inner[row] ==> col <= m
    ensures exists row :: row in inner && m in inner[row]
    decreases |inner|
  {
    EmptyOrMember(inner.Keys);
    var row :| row in inner;
    var here := MaxKey(inner[row].Keys);
    var rest := inner - {row};
    assert forall r :: r in inner ==> r == row || r in rest.Keys;
    if rest.Keys == {} then
      here
    else
      var there := LargestColumn(rest);
      if here >= there then here else there
  }

  // ---------------------------------------------------------------------------
  // The grid
  // ---------------------------------------------------------------------------

  class Grid {
    var inner: Sheet
    var references: Edges
    var dependents: Edges

    /** No stored text is empty and every referenced cell has a dependents
        entry. */
    ghost predicate Valid()
      reads this
    {
      NoEmptyText(inner) && KeysPresent(references, dependents)
    }

    /** Allocates `rows` empty rows. A negative capacity is refused by the
        dictionaries. */
    constructor(rows: int, columns: int)
      requires rows >= 0 && (rows > 0 ==> columns >= 0)
      ensures Valid()
      ensures forall k :: k in inner <==> 0 <= k < rows
      ensures forall k :: k in inner ==> inner[k] == map[]
      ensures Rows() == rows
      ensures references == map[] && dependents == map[]
    {
      var rowMaps: Sheet := map[];
      var i := 0;
      while i < rows
        invariant 0 <= i <= rows
        invariant forall k :: k in rowMaps <==> 0 <= k < i
        invariant forall k :: k in rowMaps ==> rowMaps[k] == map[]
        invariant |rowMaps| == i
      {
        assert i !in rowMaps;
        rowMaps := rowMaps[i := map[]];
        i := i + 1;
      }
      inner := rowMaps;
      references, dependents := map[], map[];
    }

    /** The indexer's setter. */
    method SetCell(row: int, col: int, value: string)
      requires NoEmptyText(inner)
      modifies this
      ensures NoEmptyText(inner)
      ensures inner == Stored(old(inner), row, col, value)
      ensures references == old(references) && dependents == old(dependents)
    {
      StoredKeepsNoEmptyText(inner, row, col, value);
      // the row, created empty when missing
      var cells := if row in inner then inner[row] else map[];
      if value == "" {
        inner := inner[row := cells - {col}];
        return;
      }
      inner := inner[row := cells[col := value]];
    }

    /** Rows: the number of row entries, preallocated empty rows included. */
    function Rows(): int
      reads this
    {
      |inner|
    }

    /** Columns: the largest stored column key (not a count); Max throws
        when there are no rows or some row is empty. */
    ghost function Columns(): (r: Result<int>)
      reads this
      ensures r.Err? <==> inner.Keys == {} || exists row :: row in inner && inner[row].Keys == {}
      ensures r.Err? ==> r.error == InvalidCount
      ensures r.Ok? ==> exists row :: row in inner && r.value in inner[row]
      ensures r.Ok? ==> forall row, col :: row in inner && col in inner[row] ==> col <= r.value
    {
      if inner.Keys == {} || exists row :: row in inner && inner[row].Keys == {} then Err(InvalidCount)
      else
        Ok(LargestColumn(inner))
    }

    /** GetCellData: "" exactly for a cell that is not stored. */
    function GetCellData(p: CP.Addr): (r: string)
      reads this
      ensures NoEmptyText(inner) ==> (r == "" <==> CellOf(inner, p.row, p.col).None?)
    {
      CellText(inner, p)
    }

    function GetDependents(p: CP.Addr): seq<CP.Addr>
      reads this
    {
      Get(dependents, p)
    }

    method UpdateCell(p: CP.Addr, value: string) returns (deps: seq<CP.Addr>)
      requires Valid()
      modifies this
      ensures Valid()
      ensures inner == Stored(old(inner), p.row, p.col, value)
      ensures references == UpdatedRefs(old(references), p, value)
      ensures dependents == UpdatedDeps(old(references), old(dependents), p, value)
      ensures deps == GetDependents(p)
      ensures GetCellData(p) == value
      ensures forall q :: q != p ==> GetCellData(q) == old(GetCellData(q))
    {
      ghost var refs0, deps0, inner0 := references, dependents, inner;
      var refs, depMap := references, dependents;
      KeyedReferences(refs, depMap, p);
      if value == "" {
        if p in refs {
          var usedCells := refs[p];
          depMap := RemoveFromTargets(depMap, usedCells, [], p);
          refs := refs - {p};
        }
      }
      SetCell(p.row, p.col, value);
      var usedInCells := CP.FindPointers(value);
      refs := refs[p := usedInCells];
      depMap := AppendToTargets(depMap, usedInCells, p);
      assert refs == UpdatedRefs(refs0, p, value);
      references, dependents := refs, depMap;
      deps := Get(dependents, p);
      UpdateKeepsKeys(refs0, deps0, p, value);
      StoredReadsBack(inner0, p.row, p.col, value, p.row, p.col);
      forall q | q != p ensures CellText(inner, q) == CellText(inner0, q) {
        StoredReadsBack(inner0, p.row, p.col, value, q.row, q.col);
      }
    }

    /** ClearCell is UpdateCell with empty text. */
    method ClearCell(p: CP.Addr) returns (deps: seq<CP.Addr>)
      requires Valid()
      modifies this
      ensures Valid()
      ensures inner == Stored(old(inner), p.row, p.col, "")
      ensures references == old(references)[p := []]
      ensures dependents == UpdatedDeps(old(references), old(dependents), p, "")
      ensures deps == GetDependents(p) && GetCellData(p) == ""
    {
      assert CP.PointersIn("") == [];
      deps := UpdateCell(p, "");
    }

    /** The replay loop of ReadFromJsonStreamAsync. Only the edge maps are
        cleared: the loaded cells are written over the existing text. */
    method Load(data: Option<seq<Entry>>)
      requires Valid()
      modifies this
      ensures Valid()
      ensures data.None? ==>
        inner == old(inner) && references == old(references) && dependents == old(dependents)
      ensures data.Some? ==> inner == LoadSheet(old(inner), data.value)
      ensures data.Some? ==> references == LoadEdges(data.value).0 && dependents == LoadEdges(data.value).1
    {
      if data.None? {
        return;
      }
      var entries := data.value;
      var refs: Edges, depMap: Edges := map[], map[];
      for k := 0 to |entries|
        invariant NoEmptyText(inner)
        invariant inner == LoadSheet(old(inner), entries[..k])
        invariant (refs, depMap) == LoadEdges(entries[..k])
      {
        assert entries[..k + 1][..k] == entries[..k];
        var e := entries[k];
        var pointer := CP.Addr(e.col, e.row);
        SetCell(e.row, e.col, e.value);
        var usedInCells := CP.FindPointers(e.value);
        refs := refs[pointer := usedInCells];
        depMap := AppendToTargets(depMap, usedInCells, pointer);
      }
      assert entries[..|entries|] == entries;
      references, dependents := refs, depMap;
      LoadKeysPresent(entries);
    }
  }
}
