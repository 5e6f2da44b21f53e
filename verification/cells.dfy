/** One crossing of a woven structure: which edges the yarn passes through
    (the pole mask), whether the heddle is up and whether it was set
    explicitly, and the mask region the cell belongs to. */
module Cells {

  /** The four compass edges of a cell. */
  datatype Direction = North | East | South | West

  /** `poles` is the 4-bit mask N=8, E=4, S=2, W=1; `maskId` is -1 when the
      cell belongs to no mask. */
  datatype Cell = Cell(poles: bv4, isUp: bool, isSet: bool, maskId: int)

  function Bit(d: Direction): bv4
  {
    match d
    case North => 8
    case East => 4
    case South => 2
    case West => 1
  }

  /** Reference reading of the mask: the yarn passes through edge `d`. */
  predicate Has(c: Cell, d: Direction)
  {
    c.poles & Bit(d) != 0
  }

  /** `r` differs from `c` at most in the pole of `d`. */
  predicate OnlyPoleChanged(c: Cell, r: Cell, d: Direction)
  {
    && r.isUp == c.isUp && r.isSet == c.isSet && r.maskId == c.maskId
    && forall e :: e != d ==> Has(r, e) == Has(c, e)
  }

  /** `r` has the same pole mask and mask id as `c`. */
  predicate PolesAndMaskKept(c: Cell, r: Cell)
  {
    && r.maskId == c.maskId
    && forall e :: Has(r, e) == Has(c, e)
  }

  /** The four poles determine the mask. */
  lemma PolesDetermined(a: Cell, b: Cell)
    requires forall e :: Has(a, e) == Has(b, e)
    ensures a.poles == b.poles
  {
    assert Has(a, North) == Has(b, North);
    assert Has(a, East) == Has(b, East);
    assert Has(a, South) == Has(b, South);
    assert Has(a, West) == Has(b, West);
  }

  /** `new Cell()`. */
  function NewCell(): (c: Cell)
    ensures forall e :: !Has(c, e)
    ensures !c.isUp && !c.isSet && c.maskId == -1
  {
    Cell(0, false, false, -1)
  }

  // ---- heddle ------------------------------------------------------------

  function SetHeddleUp(c: Cell): (r: Cell)
    ensures r.isUp && r.isSet
    ensures PolesAndMaskKept(c, r)
  {
    c.(isUp := true, isSet := true)
  }

  function SetHeddleDown(c: Cell): (r: Cell)
    ensures !r.isUp && r.isSet
    ensures PolesAndMaskKept(c, r)
  {
    c.(isUp := false, isSet := true)
  }

  /** Writes the heddle value without marking the cell as set. */
  function SetHeddle(c: Cell, value: bool): (r: Cell)
    ensures r.isUp == value && r.isSet == c.isSet
    ensures PolesAndMaskKept(c, r)
  {
    c.(isUp := value)
  }

  function UnsetHeddle(c: Cell): (r: Cell)
    ensures !r.isUp && !r.isSet
    ensures PolesAndMaskKept(c, r)
  {
    c.(isUp := false, isSet := false)
  }

  /** Whatever the heddle was set to, unsetting it forgets it. */
  lemma UnsetHeddleForgets(c: Cell, value: bool)
    ensures UnsetHeddle(SetHeddleUp(c)) == UnsetHeddle(c)
    ensures UnsetHeddle(SetHeddleDown(c)) == UnsetHeddle(c)
    ensures UnsetHeddle(SetHeddle(c, value)) == UnsetHeddle(c)
  {
  }

  // ---- poles -------------------------------------------------------------

  /** `setNorth`, `setEast`, `setSouth`, `setWest`: OR in the bit of `d`. */
  function SetPole(c: Cell, d: Direction): (r: Cell)
    ensures Has(r, d)
    ensures OnlyPoleChanged(c, r, d)
  {
    c.(poles := c.poles | Bit(d))
  }

  /** `unsetNorth`, ...: XOR with the bit of `d`, so the pole is toggled, not
      cleared: a cell without the pole gains it. */
  function UnsetPole(c: Cell, d: Direction): (r: Cell)
    ensures Has(r, d) == !Has(c, d)
    ensures OnlyPoleChanged(c, r, d)
  {
    c.(poles := c.poles ^ Bit(d))
  }

  function SetNorthSouth(c: Cell): (r: Cell)
    ensures Has(r, North) && Has(r, South)
    ensures Has(r, East) == Has(c, East) && Has(r, West) == Has(c, West)
    ensures r.isUp == c.isUp && r.isSet == c.isSet && r.maskId == c.maskId
  {
    SetPole(SetPole(c, North), South)
  }

  function SetEastWest(c: Cell): (r: Cell)
    ensures Has(r, East) && Has(r, West)
    ensures Has(r, North) == Has(c, North) && Has(r, South) == Has(c, South)
    ensures r.isUp == c.isUp && r.isSet == c.isSet && r.maskId == c.maskId
  {
    SetPole(SetPole(c, East), West)
  }

  function SetPoles(c: Cell, poles: bv4): (r: Cell)
    ensures forall e :: Has(r, e) <==> poles & Bit(e) != 0
    ensures r.isUp == c.isUp && r.isSet == c.isSet && r.maskId == c.maskId
  {
    c.(poles := poles)
  }

  function UnsetPoles(c: Cell): (r: Cell)
    ensures forall e :: !Has(r, e)
    ensures r.isUp == c.isUp && r.isSet == c.isSet && r.maskId == c.maskId
  {
    c.(poles := 0)
  }

  /** Setting a pole twice is setting it once. */
  lemma {:induction false} SetPoleIdempotent(c: Cell, d: Direction)
    ensures SetPole(SetPole(c, d), d) == SetPole(c, d)
  {
    var once := SetPole(c, d);
    var twice := SetPole(once, d);
    forall e ensures Has(twice, e) == Has(once, e) {
    }
    PolesDetermined(twice, once);
  }

  /** Unsetting after setting clears the pole and keeps the others. */
  lemma UnsetAfterSetClears(c: Cell, d: Direction)
    ensures !Has(UnsetPole(SetPole(c, d), d), d)
    ensures OnlyPoleChanged(c, UnsetPole(SetPole(c, d), d), d)
  {
  }

  /** The XOR unset is an involution: applying it twice restores the cell. */
  lemma {:induction false} UnsetPoleTwiceRestores(c: Cell, d: Direction)
    ensures UnsetPole(UnsetPole(c, d), d) == c
  {
    var twice := UnsetPole(UnsetPole(c, d), d);
    forall e ensures Has(twice, e) == Has(c, e) {
    }
    PolesDetermined(twice, c);
  }

  /** On a cell whose pole is present the XOR unset really clears it. */
  lemma UnsetPoleClearsPresentPole(c: Cell, d: Direction)
    requires Has(c, d)
    ensures !Has(UnsetPole(c, d), d)
    ensures SetPole(UnsetPole(c, d), d) == c
  {
    var r := SetPole(UnsetPole(c, d), d);
    forall e ensures Has(r, e) == Has(c, e) {
    }
    PolesDetermined(r, c);
  }

  // ---- pole queries, each written the way the editor computes it ----------

  /** `poles >>> 3 === 1` */
  function HasNorth(c: Cell): (r: bool)
    ensures r <==> Has(c, North)
  {
    c.poles >> 3 == 1
  }

  /** `(poles >>> 2) % 2 === 1` */
  function HasEast(c: Cell): (r: bool)
    ensures r <==> Has(c, East)
  {
    (c.poles >> 2) % 2 == 1
  }

  /** `(poles >>> 1) % 2 === 1` */
  function HasSouth(c: Cell): (r: bool)
    ensures r <==> Has(c, South)
  {
    (c.poles >> 1) % 2 == 1
  }

  /** `poles % 2 === 1` */
  function HasWest(c: Cell): (r: bool)
    ensures r <==> Has(c, West)
  {
    c.poles % 2 == 1
  }

  /** `(poles & m) === m` for the mask of one edge: `isEast`, `isWest`. */
  function IsPole(c: Cell, d: Direction): (r: bool)
    ensures r <==> Has(c, d)
  {
    c.poles & Bit(d) == Bit(d)
  }

  /** `(poles & m) === m` for the mask of two edges: `isNorthSouth`,
      `isEastWest`, `isNorthEast`, `isNorthWest`, `isSouthEast`,
      `isSouthWest`. */
  function IsPair(c: Cell, a: Direction, b: Direction): (r: bool)
    ensures r <==> Has(c, a) && Has(c, b)
  {
    c.poles & (Bit(a) | Bit(b)) == Bit(a) | Bit(b)
  }

  // ---- mask id -----------------------------------------------------------

  function SetMaskId(c: Cell, id: int): (r: Cell)
    ensures r.maskId == id
    ensures r.isUp == c.isUp && r.isSet == c.isSet && r.poles == c.poles
  {
    c.(maskId := id)
  }

  function UnsetMaskId(c: Cell): (r: Cell)
    ensures r.maskId == -1
    ensures r.isUp == c.isUp && r.isSet == c.isSet && r.poles == c.poles
  {
    c.(maskId := -1)
  }

  /** Unsetting the mask id undoes any earlier `SetMaskId`. */
  lemma UnsetMaskIdForgets(c: Cell, id: int)
    ensures UnsetMaskId(SetMaskId(c, id)) == UnsetMaskId(c)
    ensures UnsetMaskId(NewCell()) == NewCell()
  {
  }
}
