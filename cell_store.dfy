/** What both grids keep: a sparse row -> column -> text map, and two maps
    from a cell to a list of cells (the cells its formula references, and the
    cells whose formulas reference it). Lists are sequences because the code
    depends on their order and multiplicity: List.Remove takes out only the
    first occurrence and List.Add never looks for an earlier one. */
module CellStore {
  import opened Results
  import CP = CellPointer

  type Sheet = map<int, map<int, string>>
  type Edges = map<CP.Addr, seq<CP.Addr>>

  /** One cell of the data a load replays: `new CellPointer(col, row)` and
      the cell's text. */
  datatype Entry = Entry(row: int, col: int, value: string)

  function Position(e: Entry): CP.Addr
  {
    CP.Addr(e.col, e.row)
  }

  // ---------------------------------------------------------------------------
  // The text map (the private indexer)
  // ---------------------------------------------------------------------------

  /** The indexer's getter: null (None) when the row or the column is absent. */
  function CellOf(inner: Sheet, row: int, col: int): Option<string>
  {
    if row in inner && col in inner[row] then Some(inner[row][col]) else None
  }

  /** GetCellData: the stored text, or "" for an absent cell. */
  function CellText(inner: Sheet, p: CP.Addr): string
  {
    match CellOf(inner, p.row, p.col)
    case None => ""
    case Some(s) => s
  }

  /** The indexer's setter: the row is created when missing; empty text
      removes the column, other text is stored as given. */
  function Stored(inner: Sheet, row: int, col: int, value: string): Sheet
  {
    var cells := if row in inner then inner[row] else map[];
    inner[row := if value == "" then cells - {col} else cells[col := value]]
  }

  /** Writing a cell changes what that cell reads as and nothing else:
      empty text reads back as absent, other text verbatim. */
  lemma StoredReadsBack(inner: Sheet, row: int, col: int, value: string, r: int, c: int)
    ensures CellOf(Stored(inner, row, col, value), r, c) ==
      if r == row && c == col then (if value == "" then None else Some(value))
      else CellOf(inner, r, c)
    ensures Stored(inner, row, col, value).Keys == inner.Keys + {row}
  {
  }

  /** Stored texts are never empty. */
  ghost predicate NoEmptyText(inner: Sheet)
  {
    forall row, col :: row in inner && col in inner[row] ==> inner[row][col] != ""
  }

  lemma StoredKeepsNoEmptyText(inner: Sheet, row: int, col: int, value: string)
    requires NoEmptyText(inner)
    ensures NoEmptyText(Stored(inner, row, col, value))
  {
  }

  // ---------------------------------------------------------------------------
  // Lists of cells
  // ---------------------------------------------------------------------------

  /** GetValueOrDefault(r, []). */
  function Get(edges: Edges, r: CP.Addr): seq<CP.Addr>
  {
    if r in edges then edges[r] else []
  }

  /** List.Remove: the first occurrence of x goes, the rest stays in order. */
  function RemoveFirst(s: seq<CP.Addr>, x: CP.Addr): seq<CP.Addr>
  {
    if s == [] then []
    else if s[0] == x then s[1..]
    else [s[0]] + RemoveFirst(s[1..], x)
  }

  /** List.Remove takes out one occurrence of x when there is one, and
      changes nothing otherwise. */
  lemma {:induction false} RemoveFirstCount(s: seq<CP.Addr>, x: CP.Addr)
    ensures multiset(RemoveFirst(s, x)) == multiset(s) - multiset{x}
    ensures x !in s ==> RemoveFirst(s, x) == s
  {
    if s != [] {
      assert s == [s[0]] + s[1..];
      if s[0] != x {
        RemoveFirstCount(s[1..], x);
      }
    }
  }

  /** List.Remove cuts the list at the first occurrence of x: elements
      before it and after it keep their places. */
  lemma {:induction false} RemoveFirstSplits(s: seq<CP.Addr>, x: CP.Addr, i: nat)
    requires i < |s| && s[i] == x && x !in s[..i]
    ensures RemoveFirst(s, x) == s[..i] + s[i + 1..]
  {
    var t := s[1..];
    if i == 0 {
      assert s[..0] + s[1..] == t;
    } else {
      assert s[0] in s[..i];
      assert t[..i - 1] == s[1..i];
      RemoveFirstSplits(t, x, i - 1);
      assert RemoveFirst(s, x) == [s[0]] + (t[..i - 1] + t[i..]);
      assert s[..i] == [s[0]] + t[..i - 1];
      assert s[i + 1..] == t[i..];
    }
  }

  // ---------------------------------------------------------------------------
  // Editing the dependents map
  // ---------------------------------------------------------------------------

  /** For each old reference o, in order, that is not among `news`, remove
      the first occurrence of p from the dependents of o. */
  function Unlink(deps: Edges, olds: seq<CP.Addr>, news: seq<CP.Addr>, p: CP.Addr): (r: Edges)
    requires forall j :: 0 <= j < |olds| ==> olds[j] in deps
    ensures r.Keys == deps.Keys
    decreases |olds|
  {
    if olds == [] then deps
    else
      var d := Unlink(deps, olds[..|olds| - 1], news, p);
      var o := olds[|olds| - 1];
      if o in news then d else d[o := RemoveFirst(d[o], p)]
  }

  /** For each new reference n, in order: create its dependents list when
      missing, and add p to it unless p is already there. */
  function Link(deps: Edges, news: seq<CP.Addr>, p: CP.Addr): (r: Edges)
    ensures forall k :: k in r <==> k in deps || k in news
    decreases |news|
  {
    if news == [] then deps
    else
      var d := Link(deps, news[..|news| - 1], p);
      var n := news[|news| - 1];
      if p in Get(d, n) then d else d[n := Get(d, n) + [p]]
  }

  /** For each reference n, in order: create its dependents list when
      missing, and add q to it with no check. */
  function Append(deps: Edges, news: seq<CP.Addr>, q: CP.Addr): (r: Edges)
    ensures forall k :: k in r <==> k in deps || k in news
    decreases |news|
  {
    if news == [] then deps
    else
      var d := Append(deps, news[..|news| - 1], q);
      var n := news[|news| - 1];
      d[n := Get(d, n) + [q]]
  }

  /** c removals from a count of k (removing an absent element does nothing). */
  function Drop(k: nat, c: nat): nat
  {
    if k >= c then k - c else 0
  }

  /** Unlink removes p from r's dependents once per occurrence of r among the
      old references (unless r is among `news`), and touches nothing else. */
  lemma {:induction false} UnlinkCount(deps: Edges, olds: seq<CP.Addr>, news: seq<CP.Addr>, p: CP.Addr, r: CP.Addr, q: CP.Addr)
    requires forall j :: 0 <= j < |olds| ==> olds[j] in deps
    ensures multiset(Get(Unlink(deps, olds, news, p), r))[q] ==
      if q != p || r in news then multiset(Get(deps, r))[q]
      else Drop(multiset(Get(deps, r))[p], multiset(olds)[r])
    decreases |olds|
  {
    if olds != [] {
      var front, o := olds[..|olds| - 1], olds[|olds| - 1];
      assert olds == front + [o];
      assert multiset(olds)[r] == multiset(front)[r] + (if o == r then 1 else 0);
      UnlinkCount(deps, front, news, p, r, q);
      var d := Unlink(deps, front, news, p);
      assert Unlink(deps, olds, news, p) == if o in news then d else d[o := RemoveFirst(d[o], p)];
      UnlinkStepCount(d, o, news, p, r, q);
    }
  }

  /** One step of Unlink, counted. */
  lemma UnlinkStepCount(d: Edges, o: CP.Addr, news: seq<CP.Addr>, p: CP.Addr, r: CP.Addr, q: CP.Addr)
    requires o in d
    ensures multiset(Get(if o in news then d else d[o := RemoveFirst(d[o], p)], r))[q] ==
      if o in news || o != r || q != p then multiset(Get(d, r))[q]
      else Drop(multiset(Get(d, r))[p], 1)
  {
    if o !in news && o == r {
      RemoveFirstCount(d[r], p);
      assert Get(d[o := RemoveFirst(d[o], p)], r) == RemoveFirst(d[r], p);
    }
  }

  /** Link leaves p exactly once in the dependents of each new reference
      that did not hold it, and touches nothing else. */
  lemma {:induction false} LinkCount(deps: Edges, news: seq<CP.Addr>, p: CP.Addr, r: CP.Addr, q: CP.Addr)
    ensures multiset(Get(Link(deps, news, p), r))[q] ==
      if q != p || r !in news then multiset(Get(deps, r))[q]
      else if multiset(Get(deps, r))[p] == 0 then 1
      else multiset(Get(deps, r))[p]
    decreases |news|
  {
    if news != [] {
      var front, n := news[..|news| - 1], news[|news| - 1];
      assert news == front + [n];
      LinkCount(deps, front, p, r, q);
      var d := Link(deps, front, p);
      assert Link(deps, news, p) == if p in Get(d, n) then d else d[n := Get(d, n) + [p]];
    }
  }

  /** Append adds q to r's dependents once per occurrence of r. */
  lemma {:induction false} AppendCount(deps: Edges, news: seq<CP.Addr>, q0: CP.Addr, r: CP.Addr, q: CP.Addr)
    ensures multiset(Get(Append(deps, news, q0), r))[q] ==
      multiset(Get(deps, r))[q] + (if q == q0 then multiset(news)[r] else 0)
    decreases |news|
  {
    if news != [] {
      var front, n := news[..|news| - 1], news[|news| - 1];
      assert news == front + [n];
      assert multiset(news)[r] == multiset(front)[r] + (if n == r then 1 else 0);
      AppendCount(deps, front, q0, r, q);
      var d := Append(deps, front, q0);
      assert Append(deps, news, q0) == d[n := Get(d, n) + [q0]];
    }
  }

  /** One more old reference for Unlink. */
  lemma UnlinkNext(deps: Edges, olds: seq<CP.Addr>, news: seq<CP.Addr>, i: nat, p: CP.Addr)
    requires i < |olds| && forall j :: 0 <= j < |olds| ==> olds[j] in deps
    ensures olds[i] in Unlink(deps, olds[..i], news, p)
    ensures Unlink(deps, olds[..i + 1], news, p) ==
      var d := Unlink(deps, olds[..i], news, p);
      if olds[i] in news then d else d[olds[i] := RemoveFirst(d[olds[i]], p)]
  {
    assert olds[..i + 1][..i] == olds[..i];
  }

  /** One more new reference for Link. */
  lemma LinkNext(deps: Edges, news: seq<CP.Addr>, i: nat, p: CP.Addr)
    requires i < |news|
    ensures Link(deps, news[..i + 1], p) ==
      var d := Link(deps, news[..i], p);
      if p in Get(d, news[i]) then d else d[news[i] := Get(d, news[i]) + [p]]
  {
    assert news[..i + 1][..i] == news[..i];
  }

  /** One more new reference for Append. */
  lemma AppendNext(deps: Edges, news: seq<CP.Addr>, i: nat, q: CP.Addr)
    requires i < |news|
    ensures Append(deps, news[..i + 1], q) ==
      var d := Append(deps, news[..i], q);
      d[news[i] := Get(d, news[i]) + [q]]
  {
    assert news[..i + 1][..i] == news[..i];
  }

  /** Append only adds at the end of each list. */
  lemma {:induction false} AppendGrows(deps: Edges, news: seq<CP.Addr>, q: CP.Addr, r: CP.Addr)
    ensures Get(deps, r) <= Get(Append(deps, news, q), r)
    decreases |news|
  {
    if news != [] {
      AppendGrows(deps, news[..|news| - 1], q, r);
    }
  }

  /** Unlink touches only the old targets. */
  lemma {:induction false} UnlinkElsewhere(deps: Edges, olds: seq<CP.Addr>, news: seq<CP.Addr>, p: CP.Addr, r: CP.Addr)
    requires forall j :: 0 <= j < |olds| ==> olds[j] in deps
    requires r !in olds
    ensures Get(Unlink(deps, olds, news, p), r) == Get(deps, r)
    decreases |olds|
  {
    if olds != [] {
      var front := olds[..|olds| - 1];
      assert r !in front by {
        assert olds == front + [olds[|olds| - 1]];
      }
      UnlinkElsewhere(deps, front, news, p, r);
    }
  }

  /** Link touches only the new targets. */
  lemma {:induction false} LinkElsewhere(deps: Edges, news: seq<CP.Addr>, p: CP.Addr, r: CP.Addr)
    requires r !in news
    ensures Get(Link(deps, news, p), r) == Get(deps, r)
    decreases |news|
  {
    if news != [] {
      var front := news[..|news| - 1];
      assert r !in front by {
        assert news == front + [news[|news| - 1]];
      }
      LinkElsewhere(deps, front, p, r);
    }
  }

  /** Append touches only the new targets. */
  lemma {:induction false} AppendElsewhere(deps: Edges, news: seq<CP.Addr>, q: CP.Addr, r: CP.Addr)
    requires r !in news
    ensures Get(Append(deps, news, q), r) == Get(deps, r)
    decreases |news|
  {
    if news != [] {
      var front := news[..|news| - 1];
      assert r !in front by {
        assert news == front + [news[|news| - 1]];
      }
      AppendElsewhere(deps, front, q, r);
    }
  }

  // ---------------------------------------------------------------------------
  // The loops over reference lists
  // ---------------------------------------------------------------------------

  /** Walks the old references in order and removes p from the dependents
      of each one that is not among `news`. */
  method RemoveFromTargets(deps: Edges, olds: seq<CP.Addr>, news: seq<CP.Addr>, p: CP.Addr) returns (d: Edges)
    requires forall j :: 0 <= j < |olds| ==> olds[j] in deps
    ensures d == Unlink(deps, olds, news, p)
  {
    d := deps;
    for i := 0 to |olds|
      invariant d == Unlink(deps, olds[..i], news, p)
    {
      UnlinkNext(deps, olds, news, i, p);
      var oldReference := olds[i];
      if oldReference !in news {
        d := d[oldReference := RemoveFirst(d[oldReference], p)];
      }
    }
    assert olds[..|olds|] == olds;
  }

  /** Walks the new references in order, creating each dependents list
      that is missing and adding p to it unless it is there already. */
  method AddToTargets(deps: Edges, news: seq<CP.Addr>, p: CP.Addr) returns (d: Edges)
    ensures d == Link(deps, news, p)
  {
    d := deps;
    for i := 0 to |news|
      invariant d == Link(deps, news[..i], p)
    {
      LinkNext(deps, news, i, p);
      var reference := news[i];
      // the list, created empty when missing
      var list := Get(d, reference);
      if p !in list {
        d := d[reference := list + [p]];
      }
    }
    assert news[..|news|] == news;
  }

  /** The load's inner loop: q is appended to the dependents of every
      cell it uses, once per occurrence, without a duplicate check. */
  method AppendToTargets(deps: Edges, news: seq<CP.Addr>, q: CP.Addr) returns (d: Edges)
    ensures d == Append(deps, news, q)
  {
    d := deps;
    for i := 0 to |news|
      invariant d == Append(deps, news[..i], q)
    {
      AppendNext(deps, news, i, q);
      var usedCell := news[i];
      // the list, created empty when missing
      var list := Get(d, usedCell);
      d := d[usedCell := list + [q]];
    }
    assert news[..|news|] == news;
  }

  // ---------------------------------------------------------------------------
  // Invariants of the pair of maps
  // ---------------------------------------------------------------------------

  /** Every referenced cell has a dependents entry, so `_dependents[r]` never
      throws KeyNotFoundException. */
  ghost predicate KeysPresent(refs: Edges, deps: Edges)
  {
    forall q, r :: q in refs && r in refs[q] ==> r in deps
  }

  /** r is among q's references exactly when q is among r's dependents. */
  ghost predicate Mirror(refs: Edges, deps: Edges)
  {
    KeysPresent(refs, deps) &&
    forall q, r :: r in Get(refs, q) <==> q in Get(deps, r)
  }

  /** No cell is listed twice among the dependents of one cell. */
  ghost predicate AtMostOnce(deps: Edges)
  {
    forall r, q :: multiset(Get(deps, r))[q] <= 1
  }

  /** The mirror with multiplicities: q is listed among r's dependents as
      often as r is among q's references. */
  ghost predicate CountMirror(refs: Edges, deps: Edges)
  {
    KeysPresent(refs, deps) &&
    forall q, r :: multiset(Get(deps, r))[q] == multiset(Get(refs, q))[r]
  }

  lemma CountMirrorIsMirror(refs: Edges, deps: Edges)
    requires CountMirror(refs, deps)
    ensures Mirror(refs, deps)
  {
    forall q, r ensures r in Get(refs, q) <==> q in Get(deps, r) {
      assert multiset(Get(deps, r))[q] == multiset(Get(refs, q))[r];
    }
  }

  // ---------------------------------------------------------------------------
  // The replay loop of a load
  // ---------------------------------------------------------------------------

  /** The reference and dependents maps a load builds from empty maps: each
      cell's references are the unfiltered FindPointers of its text, and the
      cell is appended to each target once per occurrence. */
  function LoadEdges(entries: seq<Entry>): (Edges, Edges)
    decreases |entries|
  {
    if entries == [] then (map[], map[])
    else
      var (refs, deps) := LoadEdges(entries[..|entries| - 1]);
      var e := entries[|entries| - 1];
      var news := CP.PointersIn(e.value);
      (refs[Position(e) := news], Append(deps, news, Position(e)))
  }

  /** The text map after a load, starting from `inner`. */
  function LoadSheet(inner: Sheet, entries: seq<Entry>): Sheet
    decreases |entries|
  {
    if entries == [] then inner
    else
      var e := entries[|entries| - 1];
      Stored(LoadSheet(inner, entries[..|entries| - 1]), e.row, e.col, e.value)
  }

  /** No two entries name the same cell, as in a dictionary of dictionaries. */
  ghost predicate DistinctCells(entries: seq<Entry>)
  {
    forall i, j :: 0 <= i < j < |entries| ==> Position(entries[i]) != Position(entries[j])
  }

  /** The cells the entries name. */
  function Positions(entries: seq<Entry>): set<CP.Addr>
    decreases |entries|
  {
    if entries == [] then {}
    else Positions(entries[..|entries| - 1]) + {Position(entries[|entries| - 1])}
  }

  lemma {:induction false} NotListed(entries: seq<Entry>, q: CP.Addr)
    requires forall j :: 0 <= j < |entries| ==> Position(entries[j]) != q
    ensures q !in Positions(entries)
    decreases |entries|
  {
    if entries != [] {
      NotListed(entries[..|entries| - 1], q);
    }
  }

  /** A load leaves references for exactly the listed cells, and every
      referenced cell with a dependents entry. */
  lemma {:induction false} LoadKeysPresent(entries: seq<Entry>)
    ensures LoadEdges(entries).0.Keys == Positions(entries)
    ensures KeysPresent(LoadEdges(entries).0, LoadEdges(entries).1)
    decreases |entries|
  {
    if entries != [] {
      var front, e := entries[..|entries| - 1], entries[|entries| - 1];
      LoadKeysPresent(front);
      var (refs0, deps0) := LoadEdges(front);
      var news := CP.PointersIn(e.value);
      assert LoadEdges(entries) == (refs0[Position(e) := news], Append(deps0, news, Position(e)));
    }
  }

  /** After a load of distinct cells each listed cell holds the FindPointers
      of its own text, duplicates and self-references included. */
  lemma {:induction false} LoadReferences(entries: seq<Entry>)
    requires DistinctCells(entries)
    ensures forall j :: 0 <= j < |entries| ==>
      Position(entries[j]) in LoadEdges(entries).0 &&
      LoadEdges(entries).0[Position(entries[j])] == CP.PointersIn(entries[j].value)
    decreases |entries|
  {
    if entries != [] {
      var front, e := entries[..|entries| - 1], entries[|entries| - 1];
      assert DistinctCells(front) by {
        forall i, j | 0 <= i < j < |front| ensures Position(front[i]) != Position(front[j]) {
          assert front[i] == entries[i] && front[j] == entries[j];
        }
      }
      LoadReferences(front);
      var (refs0, deps0) := LoadEdges(front);
      var news := CP.PointersIn(e.value);
      assert LoadEdges(entries) == (refs0[Position(e) := news], Append(deps0, news, Position(e)));
      forall j | 0 <= j < |front|
        ensures Position(entries[j]) in LoadEdges(entries).0
        ensures LoadEdges(entries).0[Position(entries[j])] == CP.PointersIn(entries[j].value)
      {
        assert entries[j] == front[j];
      }
    }
  }

  /** After a load of distinct cells, each cell appears among a target's
      dependents exactly as often as the target occurs in its text. */
  lemma {:induction false} LoadCountMirror(entries: seq<Entry>)
    requires DistinctCells(entries)
    ensures CountMirror(LoadEdges(entries).0, LoadEdges(entries).1)
    decreases |entries|
  {
    LoadKeysPresent(entries);
    if entries != [] {
      var front, e := entries[..|entries| - 1], entries[|entries| - 1];
      assert DistinctCells(front) by {
        forall i, j | 0 <= i < j < |front| ensures Position(front[i]) != Position(front[j]) {
          assert front[i] == entries[i] && front[j] == entries[j];
        }
      }
      LoadCountMirror(front);
      var (refs0, deps0) := LoadEdges(front);
      var news, q0 := CP.PointersIn(e.value), Position(e);
      assert LoadEdges(entries) == (refs0[q0 := news], Append(deps0, news, q0));
      assert q0 !in refs0 by {
        forall j | 0 <= j < |front| ensures Position(front[j]) != q0 {
          assert front[j] == entries[j];
        }
        NotListed(front, q0);
        LoadKeysPresent(front);
      }
      forall q, r ensures multiset(Get(Append(deps0, news, q0), r))[q] == multiset(Get(refs0[q0 := news], q))[r] {
        AppendCount(deps0, news, q0, r, q);
        assert multiset(Get(deps0, r))[q] == multiset(Get(refs0, q))[r];
        if q == q0 {
          assert Get(refs0, q) == [];
        }
      }
    }
  }

  /** After a load of distinct cells each listed cell reads as its text
      (absent when empty), and every other cell reads as before the load. */
  lemma {:induction false} LoadSheetCells(inner: Sheet, entries: seq<Entry>, row: int, col: int)
    requires DistinctCells(entries)
    ensures forall j :: 0 <= j < |entries| && Position(entries[j]) == CP.Addr(col, row) ==>
      CellOf(LoadSheet(inner, entries), row, col) == (if entries[j].value == "" then None else Some(entries[j].value))
    ensures (forall j :: 0 <= j < |entries| ==> Position(entries[j]) != CP.Addr(col, row)) ==>
      CellOf(LoadSheet(inner, entries), row, col) == CellOf(inner, row, col)
    decreases |entries|
  {
    if entries != [] {
      var front, e := entries[..|entries| - 1], entries[|entries| - 1];
      LoadSheetCells(inner, front, row, col);
      StoredReadsBack(LoadSheet(inner, front), e.row, e.col, e.value, row, col);
    }
  }
}
