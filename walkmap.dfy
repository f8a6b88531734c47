/**
 * The walkability map (src/map.rs): a sparse map from grid cell to a
 * walkable flag, where a cell that was never written is not walkable.
 */
module WalkMap {
  import opened Grid
  import opened Wrappers

  /** `r` is obtained from `s` by deleting some of its elements, keeping the order. */
  ghost predicate SubsequenceOf<T>(r: seq<T>, s: seq<T>)
    decreases |s|
  {
    if r == [] then true
    else if s == [] then false
    else (r[0] == s[0] && SubsequenceOf(r[1..], s[1..])) || SubsequenceOf(r, s[1..])
  }

  ghost predicate Distinct<T>(s: seq<T>) {
    forall i, j :: 0 <= i < j < |s| ==> s[i] != s[j]
  }

  /** The four neighbour candidates of `cell`, in the order of `FourDirections`. */
  function Candidates(cell: GridPosition): (r: seq<GridPosition>)
    ensures |r| == 4
    ensures forall i :: 0 <= i < 4 ==> r[i] == Add(cell, FourDirections()[i])
  {
    var dirs := FourDirections();
    [Add(cell, dirs[0]), Add(cell, dirs[1]), Add(cell, dirs[2]), Add(cell, dirs[3])]
  }

  /** The candidates are exactly the cells adjacent to `cell`, each once. */
  lemma CandidatesAreAdjacent(cell: GridPosition)
    ensures forall n :: n in Candidates(cell) <==> Adjacent(cell, n)
    ensures Distinct(Candidates(cell))
  {
    var cs := Candidates(cell);
    forall n ensures n in cs <==> Adjacent(cell, n) {
      CandidateIffAdjacent(cell, n);
    }
  }

  lemma CandidateIffAdjacent(cell: GridPosition, n: GridPosition)
    ensures n in Candidates(cell) <==> Adjacent(cell, n)
  {
    var cs := Candidates(cell);
    assert cs == [GridPosition(cell.x, cell.y + 1), GridPosition(cell.x, cell.y - 1),
                  GridPosition(cell.x + 1, cell.y), GridPosition(cell.x - 1, cell.y)];
    var dx, dy := n.x - cell.x, n.y - cell.y;
    if dx == 0 && dy == 1 {
      assert n == cs[0];
    } else if dx == 0 && dy == -1 {
      assert n == cs[1];
    } else if dx == 1 && dy == 0 {
      assert n == cs[2];
    } else if dx == -1 && dy == 0 {
      assert n == cs[3];
    } else {
      assert !Adjacent(cell, n);
      assert n != cs[0] && n != cs[1] && n != cs[2] && n != cs[3];
    }
  }

  /** One tagged entity seen by `update_map_with_walkables`: its cell and which of the two tags it carries. */
  datatype Tagged = Tagged(cell: GridPosition, nonWalkable: bool, walkable: bool)

  /** Exactly one of the two tags is present; any other combination makes the source panic. */
  predicate WellTagged(t: Tagged) {
    t.nonWalkable != t.walkable
  }

  /** The map after writing the flag of every entry of `ts`, first to last. */
  function Applied(m: map<GridPosition, bool>, ts: seq<Tagged>): map<GridPosition, bool>
  {
    if ts == [] then m
    else
      var last := ts[|ts| - 1];
      Applied(m, ts[..|ts| - 1])[last.cell := last.walkable]
  }

  /** The flag a map reports for `c`, fail-closed. */
  function Lookup(m: map<GridPosition, bool>, c: GridPosition): (r: bool)
    ensures r ==> c in m
    ensures c in m ==> r == m[c]
  {
    if c in m then m[c] else false
  }

  /** Last write wins: a cell holds the flag of the last entry that names it. */
  lemma {:induction false} AppliedLastWriteWins(m: map<GridPosition, bool>, ts: seq<Tagged>, i: nat)
    requires i < |ts|
    requires forall j :: i < j < |ts| ==> ts[j].cell != ts[i].cell
    ensures ts[i].cell in Applied(m, ts) && Applied(m, ts)[ts[i].cell] == ts[i].walkable
  {
    if i < |ts| - 1 {
      var init := ts[..|ts| - 1];
      assert init[i] == ts[i];
      AppliedLastWriteWins(m, init, i);
    }
  }

  /** A cell that no entry names keeps its old entry, or its absence. */
  lemma {:induction false} AppliedUntouched(m: map<GridPosition, bool>, ts: seq<Tagged>, c: GridPosition)
    requires forall j :: 0 <= j < |ts| ==> ts[j].cell != c
    ensures c in Applied(m, ts) <==> c in m
    ensures c in m ==> Applied(m, ts)[c] == m[c]
  {
    if ts != [] {
      var init := ts[..|ts| - 1];
      assert forall j :: 0 <= j < |init| ==> init[j] == ts[j];
      AppliedUntouched(m, init, c);
    }
  }

  /** Writing `ts` changes no cell outside the cells its entries name. */
  lemma {:induction false} AppliedFrame(m: map<GridPosition, bool>, ts: seq<Tagged>)
    ensures Applied(m, ts).Keys == m.Keys + set t | t in ts :: t.cell
  {
    if ts != [] {
      var init := ts[..|ts| - 1];
      AppliedFrame(m, init);
      assert ts == init + [ts[|ts| - 1]];
      assert (set t | t in ts :: t.cell) == (set t | t in init :: t.cell) + {ts[|ts| - 1].cell};
    }
  }

  /** The sparse walkability map (`Map` in src/map.rs). */
  class Map {
    var walkableCells: map<GridPosition, bool>

    /** `Map::new`: nothing is walkable until explicitly marked so. */
    constructor ()
      ensures walkableCells == map[]
      ensures forall c :: !IsWalkableCell(c)
    {
      walkableCells := map[];
    }

    /** `is_walkable_cell`: the stored flag, or `false` outside the map. */
    function IsWalkableCell(cell: GridPosition): (r: bool)
      reads this
      ensures r ==> cell in walkableCells
      ensures cell in walkableCells ==> r == walkableCells[cell]
    {
      Lookup(walkableCells, cell)
    }

    /** `is_walkable_pos`: whether the cell nearest to `p` is walkable. */
    function IsWalkablePos(p: Position): bool
      reads this
    {
      IsWalkableCell(NearestCell(p))
    }

    /** The walkable members of `cs`, in their order in `cs`. */
    function Walkables(cs: seq<GridPosition>): (r: seq<GridPosition>)
      reads this
      ensures |r| <= |cs|
      ensures forall n :: n in r <==> n in cs && IsWalkableCell(n)
    {
      if cs == [] then []
      else (if IsWalkableCell(cs[0]) then [cs[0]] else []) + Walkables(cs[1..])
    }

    /** `walkable_neighbours`: the walkable cells among the four axis-aligned neighbours. */
    function WalkableNeighbours(cell: GridPosition): (r: seq<GridPosition>)
      reads this
      ensures |r| <= 4
      ensures forall n :: n in r <==> Adjacent(cell, n) && IsWalkableCell(n)
    {
      CandidatesAreAdjacent(cell);
      Walkables(Candidates(cell))
    }

    /**
     * `update_map_with_walkables`: overwrite one cell per tagged entity.
     * An entity with both tags or neither stops the update with an error at
     * its index (the source panics), after the writes of the entries before it.
     */
    method UpdateMapWithWalkables(ts: seq<Tagged>) returns (bad: Option<nat>)
      modifies this
      ensures bad.None? <==> forall i :: 0 <= i < |ts| ==> WellTagged(ts[i])
      ensures bad.None? ==> walkableCells == Applied(old(walkableCells), ts)
      ensures bad.Some? ==> bad.value < |ts| && !WellTagged(ts[bad.value])
      ensures bad.Some? ==> (forall i :: 0 <= i < bad.value ==> WellTagged(ts[i]))
      ensures bad.Some? ==> walkableCells == Applied(old(walkableCells), ts[..bad.value])
    {
      var i := 0;
      while i < |ts|
        invariant 0 <= i <= |ts|
        invariant forall k :: 0 <= k < i ==> WellTagged(ts[k])
        invariant walkableCells == Applied(old(walkableCells), ts[..i])
      {
        var t := ts[i];
        var walkable: bool;
        if !t.nonWalkable && t.walkable {
          walkable := true;
        } else if t.nonWalkable && !t.walkable {
          walkable := false;
        } else {
          return Some(i);
        }
        assert ts[..i + 1][..i] == ts[..i];
        walkableCells := walkableCells[t.cell := walkable];
        i := i + 1;
      }
      assert ts[..i] == ts;
      bad := None;
    }
  }

  /** Walkable neighbours come in the fixed direction order, each at most once. */
  lemma {:induction false} NeighboursInOrder(m: Map, cell: GridPosition)
    ensures SubsequenceOf(m.WalkableNeighbours(cell), Candidates(cell))
    ensures Distinct(m.WalkableNeighbours(cell))
  {
    CandidatesAreAdjacent(cell);
    WalkablesSubsequence(m, Candidates(cell));
  }

  lemma {:induction false} WalkablesSubsequence(m: Map, cs: seq<GridPosition>)
    requires Distinct(cs)
    ensures SubsequenceOf(m.Walkables(cs), cs)
    ensures Distinct(m.Walkables(cs))
    decreases |cs|
  {
    if cs != [] {
      var rest := m.Walkables(cs[1..]);
      WalkablesSubsequence(m, cs[1..]);
      if m.IsWalkableCell(cs[0]) {
        assert m.Walkables(cs) == [cs[0]] + rest;
        assert ([cs[0]] + rest)[1..] == rest;
        assert cs[0] !in rest;
      } else {
        assert m.Walkables(cs) == rest;
        SkipHead(rest, cs);
      }
    }
  }

  lemma {:induction false} SkipHead<T>(r: seq<T>, s: seq<T>)
    requires s != [] && SubsequenceOf(r, s[1..])
    ensures SubsequenceOf(r, s)
  {
  }

  /** Two adjacent walkable cells each list the other as a walkable neighbour. */
  lemma NeighbourSymmetry(m: Map, a: GridPosition, b: GridPosition)
    requires Adjacent(a, b) && m.IsWalkableCell(a) && m.IsWalkableCell(b)
    ensures b in m.WalkableNeighbours(a) && a in m.WalkableNeighbours(b)
  {
    AdjacentSymmetric(a, b);
  }

  /** At the centre of a cell, position and cell queries agree. */
  lemma WalkableAtCentre(m: Map, c: GridPosition)
    requires Representable(c)
    ensures m.IsWalkablePos(CellCentre(c)) == m.IsWalkableCell(c)
  {
    NearestCellOfCentre(c);
  }

  /** Writing `true` then `false` for one cell leaves it not walkable. */
  lemma OverwriteTrueThenFalse(m: map<GridPosition, bool>, c: GridPosition)
    ensures !Lookup(Applied(m, [Tagged(c, false, true), Tagged(c, true, false)]), c)
  {
    var ts := [Tagged(c, false, true), Tagged(c, true, false)];
    assert ts[..1] == [Tagged(c, false, true)];
    assert ts[..1][..0] == [];
  }
}
