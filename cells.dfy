/** Cell types of the territory game and the per-type neighbour tally. */
module Cells {

  /** The closed set of cell types. */
  datatype Cell = Empty | Ally | Enemy | Barricade | Mountain

  /** A camp is a cell held by one of the two sides. */
  predicate IsCamp(c: Cell) {
    c == Ally || c == Enemy
  }

  /** The side opposing a camp. */
  function Opponent(c: Cell): (r: Cell)
    requires IsCamp(c)
    ensures IsCamp(r) && r != c
  {
    if c == Ally then Enemy else Ally
  }

  /** Ground is every cell that is not a Mountain. */
  predicate IsGround(c: Cell) {
    c != Mountain
  }

  /** Brush modes: draw the current paint, or erase. */
  datatype Mode = Draw | Erase

  /** How many neighbours of each type a cell has; every type starts at zero. */
  datatype Tally = Tally(empty: nat, ally: nat, enemy: nat, barricade: nat, mountain: nat) {

    function Of(t: Cell): nat {
      match t
      case Empty => empty
      case Ally => ally
      case Enemy => enemy
      case Barricade => barricade
      case Mountain => mountain
    }

    /** The tally with one more neighbour of type `t`. */
    function Add(t: Cell): (r: Tally)
      ensures r.Of(t) == Of(t) + 1
      ensures forall u :: u != t ==> r.Of(u) == Of(u)
      ensures r.Total() == Total() + 1
    {
      match t
      case Empty => this.(empty := empty + 1)
      case Ally => this.(ally := ally + 1)
      case Enemy => this.(enemy := enemy + 1)
      case Barricade => this.(barricade := barricade + 1)
      case Mountain => this.(mountain := mountain + 1)
    }

    function Total(): nat {
      empty + ally + enemy + barricade + mountain
    }

    /** Contestable neighbours: Ally, Enemy and Empty; Barricade and Mountain are not counted. */
    function Openings(): nat {
      ally + enemy + empty
    }
  }

  const NoNeighbors := Tally(0, 0, 0, 0, 0)
}
