/** game/Tile.java: what lies on a grid cell of a cavern: its position, its
    gold (which can be picked up once) and its type. */
module Tiles {

  /** Tile.Type. */
  datatype TileType = FLOOR | ORB | ENTRANCE | WALL

  /** Type.isOpen: only walls cannot be walked on. */
  predicate IsOpen(t: TileType)
    ensures IsOpen(t) <==> t in {FLOOR, ORB, ENTRANCE}
  {
    t != WALL
  }

  /** Every type but WALL is open. */
  lemma OpenTypes()
    ensures IsOpen(FLOOR) && IsOpen(ORB) && IsOpen(ENTRANCE) && !IsOpen(WALL)
    ensures forall t: TileType :: IsOpen(t) <==> t in {FLOOR, ORB, ENTRANCE}
  {
  }

  class Tile {
    const row: int
    const col: int
    /** The gold the tile started with. */
    const goldAmount: int
    var ttype: TileType
    var goldPickedUp: bool

    /** Tile(r, c, g, t): gold not yet picked up. */
    constructor (r: int, c: int, g: int, t: TileType)
      ensures row == r && col == c && goldAmount == g && ttype == t && !goldPickedUp
      ensures Gold() == g
    {
      row, col, goldAmount := r, c, g;
      ttype := t;
      goldPickedUp := false;
    }

    /** gold(): the gold still on the tile, the original amount until it is
        picked up and nothing afterwards. */
    function Gold(): (r: int)
      reads this
      ensures !goldPickedUp ==> r == goldAmount
      ensures goldPickedUp ==> r == 0
    {
      if goldPickedUp then 0 else goldAmount
    }

    /** getOriginalGold(): the starting amount, which nothing changes. */
    function GetOriginalGold(): (r: int)
      ensures r == goldAmount
    {
      goldAmount
    }

    /** setType(t): changes the type and nothing else (row, column and gold
        are fixed). */
    method SetType(t: TileType)
      modifies this
      ensures ttype == t && goldPickedUp == old(goldPickedUp)
      ensures Gold() == old(Gold())
    {
      ttype := t;
    }

    /** takeGold(): the gold that was on the tile; afterwards none is left,
        so a second call returns 0. Type and original gold are unchanged. */
    method TakeGold() returns (r: int)
      modifies this
      ensures r == old(Gold()) && Gold() == 0 && goldPickedUp
      ensures old(goldPickedUp) ==> r == 0
      ensures !old(goldPickedUp) ==> r == goldAmount
      ensures ttype == old(ttype) && GetOriginalGold() == goldAmount
    {
      r := Gold();
      goldPickedUp := true;
    }
  }
}
