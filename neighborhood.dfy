/** Neighbour positions and per-type neighbour counts. The grid module that the
    rules import these from is not part of this model; the definitions below are
    this model's own: Moore selects the 8 surrounding offsets, von Neumann the 4
    orthogonal ones, and positions off the grid are simply absent. */
module Neighborhood {
  import opened Cells
  import opened Scan

  datatype Pos = Pos(x: int, y: int)

  /** Offsets of the Moore (8) or von Neumann (4) neighbourhood, top row first. */
  function Offsets(moore: bool): seq<Pos> {
    if moore then
      [Pos(-1, -1), Pos(0, -1), Pos(1, -1), Pos(-1, 0), Pos(1, 0), Pos(-1, 1), Pos(0, 1), Pos(1, 1)]
    else
      [Pos(0, -1), Pos(-1, 0), Pos(1, 0), Pos(0, 1)]
  }

  /** The positions around (x, y), on the grid or not. */
  function Around(x: int, y: int, moore: bool): (r: seq<Pos>)
    ensures |r| == |Offsets(moore)| == if moore then 8 else 4
  {
    var offs := Offsets(moore);
    seq(|offs|, i requires 0 <= i < |offs| => Pos(x + offs[i].x, y + offs[i].y))
  }

  /** `p` touches (x, y): diagonally or orthogonally for Moore, orthogonally only for von Neumann. */
  predicate Adjacent(x: int, y: int, p: Pos, moore: bool) {
    p != Pos(x, y) && -1 <= p.x - x <= 1 && -1 <= p.y - y <= 1 && (moore || p.x == x || p.y == y)
  }

  lemma AroundIsAdjacent(x: int, y: int, moore: bool, p: Pos)
    ensures p in Around(x, y, moore) <==> Adjacent(x, y, p, moore)
  {
    var a := Around(x, y, moore);
    if Adjacent(x, y, p, moore) {
      var dx, dy := p.x - x, p.y - y;
      var i :=
        if moore then
          (if dy == -1 then dx + 1 else if dy == 0 then (if dx == -1 then 3 else 4) else dx + 6)
        else
          (if dy == -1 then 0 else if dy == 1 then 3 else if dx == -1 then 1 else 2);
      assert a[i] == p;
    }
  }

  /** Keeps the positions that lie on the grid, in order. */
  function OnGrid<T>(g: seq<seq<T>>, ps: seq<Pos>): (r: seq<Pos>)
    ensures |r| <= |ps|
    ensures forall p :: p in r <==> p in ps && InGrid(g, p.x, p.y)
  {
    if ps == [] then []
    else
      var last := ps[|ps| - 1];
      assert ps == ps[..|ps| - 1] + [last];
      OnGrid(g, ps[..|ps| - 1]) + (if InGrid(g, last.x, last.y) then [last] else [])
  }

  /** getNeighbors: the on-grid positions around (x, y). */
  function Neighbors<T>(g: seq<seq<T>>, x: int, y: int, moore: bool): seq<Pos> {
    OnGrid(g, Around(x, y, moore))
  }

  /** The neighbours are exactly the on-grid positions adjacent to (x, y); there are at most 8 (Moore) or 4. */
  lemma NeighborsAre<T>(g: seq<seq<T>>, x: int, y: int, moore: bool, p: Pos)
    ensures p in Neighbors(g, x, y, moore) <==> InGrid(g, p.x, p.y) && Adjacent(x, y, p, moore)
    ensures |Neighbors(g, x, y, moore)| <= if moore then 8 else 4
  {
    AroundIsAdjacent(x, y, moore, p);
  }

  /** Per-type count of the cells at the on-grid positions among `ps`. */
  function TallyOf(g: seq<seq<Cell>>, ps: seq<Pos>): Tally {
    if ps == [] then NoNeighbors
    else
      var last := ps[|ps| - 1];
      var rest := TallyOf(g, ps[..|ps| - 1]);
      if InGrid(g, last.x, last.y) then rest.Add(g[last.y][last.x]) else rest
  }

  /** countNeighbors: per-type count of the neighbours of (x, y). */
  function NeighborTally(g: seq<seq<Cell>>, x: int, y: int, moore: bool): Tally {
    TallyOf(g, Around(x, y, moore))
  }

  lemma TallyAppend(g: seq<seq<Cell>>, ps: seq<Pos>, p: Pos)
    ensures TallyOf(g, ps + [p]) == if InGrid(g, p.x, p.y) then TallyOf(g, ps).Add(g[p.y][p.x]) else TallyOf(g, ps)
  {
    assert (ps + [p])[..|ps|] == ps;
  }

  /** A type is counted exactly when some on-grid position holds it. */
  lemma {:induction false} TallyPresence(g: seq<seq<Cell>>, ps: seq<Pos>, t: Cell)
    ensures TallyOf(g, ps).Of(t) > 0 <==> exists p :: p in ps && InGrid(g, p.x, p.y) && g[p.y][p.x] == t
  {
    if ps != [] {
      var init, last := ps[..|ps| - 1], ps[|ps| - 1];
      assert ps == init + [last];
      TallyPresence(g, init, t);
    }
  }

  /** Every on-grid position is counted once, under its own type. */
  lemma {:induction false} TallyTotal(g: seq<seq<Cell>>, ps: seq<Pos>)
    ensures TallyOf(g, ps).Total() == |OnGrid(g, ps)|
  {
    if ps != [] {
      TallyTotal(g, ps[..|ps| - 1]);
    }
  }

  /** Some neighbour of (x, y) has type `t`. */
  predicate HasNeighbor(g: seq<seq<Cell>>, x: int, y: int, moore: bool, t: Cell) {
    exists p :: p in Neighbors(g, x, y, moore) && g[p.y][p.x] == t
  }

  /** The count of a type is positive exactly when some neighbour has that type. */
  lemma NeighborPresence(g: seq<seq<Cell>>, x: int, y: int, moore: bool, t: Cell)
    ensures NeighborTally(g, x, y, moore).Of(t) > 0 <==> HasNeighbor(g, x, y, moore, t)
  {
    TallyPresence(g, Around(x, y, moore), t);
  }

  /** A cell has at most 8 Moore (4 von Neumann) neighbours, so at most that many openings. */
  lemma NeighborTotal(g: seq<seq<Cell>>, x: int, y: int, moore: bool)
    ensures NeighborTally(g, x, y, moore).Openings() <= NeighborTally(g, x, y, moore).Total() <= if moore then 8 else 4
  {
    TallyTotal(g, Around(x, y, moore));
  }

  /** countNeighbors over the live array: visits the offsets in order and tallies the on-grid ones. */
  method CountNeighbors(grid: array2<Cell>, x: int, y: int, moore: bool) returns (t: Tally)
    ensures t == NeighborTally(Snapshot(grid), x, y, moore)
  {
    ghost var g := Snapshot(grid);
    var around := Around(x, y, moore);
    t := NoNeighbors;
    for i := 0 to |around|
      invariant t == TallyOf(g, around[..i])
    {
      var p := around[i];
      assert around[..i + 1] == around[..i] + [p];
      TallyAppend(g, around[..i], p);
      if 0 <= p.y < grid.Length0 && 0 <= p.x < grid.Length1 {
        t := t.Add(grid[p.y, p.x]);
      }
    }
    assert around[..|around|] == around;
  }
}
