/**
 * Decks and ships (app/main.py, classes Deck and Ship).
 *
 * A ship's state is modelled twice: as the value ShipState, on which the
 * specification functions and lemmas work, and as the class Ship, whose
 * methods update the object in place as the source does and are proved
 * against those functions.
 */
module Ships {

  /** A grid coordinate (row, column), as the source's location tuples. */
  type Cell = (int, int)

  /** One deck of a ship: its cell and whether it has not been hit yet. */
  datatype Deck = Deck(location: Cell, isAlive: bool)

  /** The value of a Ship object: its decks in order and its drowned flag. */
  datatype ShipState = ShipState(decks: seq<Deck>, isDrowned: bool)

  /** Python's range(lo, hi): lo, lo + 1, ..., hi - 1 in increasing order. */
  function Range(lo: int, hi: int): seq<int>
    decreases hi - lo
  {
    if lo < hi then [lo] + Range(lo + 1, hi) else []
  }

  /** range(lo, hi) has hi - lo elements (none when hi <= lo), the i-th being lo + i. */
  lemma {:induction false} RangeSpec(lo: int, hi: int)
    ensures |Range(lo, hi)| == if lo < hi then hi - lo else 0
    ensures forall i :: 0 <= i < |Range(lo, hi)| ==> Range(lo, hi)[i] == lo + i
    decreases hi - lo
  {
    if lo < hi {
      RangeSpec(lo + 1, hi);
    }
  }

  /** The number of integers from lo to hi inclusive. */
  function RunLength(lo: int, hi: int): nat {
    if lo <= hi then hi - lo + 1 else 0
  }

  /** The cells of a sequence of decks, in order. */
  function Locations(decks: seq<Deck>): seq<Cell> {
    seq(|decks|, k requires 0 <= k < |decks| => decks[k].location)
  }

  /** No two decks share a cell. */
  predicate DistinctLocations(decks: seq<Deck>) {
    forall j, k :: 0 <= j < k < |decks| ==> decks[j].location != decks[k].location
  }

  /** Every deck has been hit. */
  predicate AllDead(decks: seq<Deck>) {
    forall k :: 0 <= k < |decks| ==> !decks[k].isAlive
  }

  /**
   * The decks Ship.__init__ builds from (start, end): along start's row when
   * the rows agree, otherwise down start's column (whatever end's column is).
   */
  function LaunchDecks(start: Cell, end: Cell): seq<Deck> {
    if start.0 == end.0 then
      var columns := Range(start.1, end.1 + 1);
      seq(|columns|, i requires 0 <= i < |columns| => Deck((start.0, columns[i]), true))
    else
      var rows := Range(start.0, end.0 + 1);
      seq(|rows|, i requires 0 <= i < |rows| => Deck((rows[i], start.1), true))
  }

  /**
   * The decks of (start, end) are the live decks at start, start + 1, ...
   * along the row, or down the column, up to and including end's row or column.
   */
  lemma LaunchDecksShape(start: Cell, end: Cell)
    ensures start.0 == end.0 ==>
              && |LaunchDecks(start, end)| == RunLength(start.1, end.1)
              && forall i :: 0 <= i < |LaunchDecks(start, end)| ==>
                   LaunchDecks(start, end)[i] == Deck((start.0, start.1 + i), true)
    ensures start.0 != end.0 ==>
              && |LaunchDecks(start, end)| == RunLength(start.0, end.0)
              && forall i :: 0 <= i < |LaunchDecks(start, end)| ==>
                   LaunchDecks(start, end)[i] == Deck((start.0 + i, start.1), true)
  {
    RangeSpec(start.1, end.1 + 1);
    RangeSpec(start.0, end.0 + 1);
  }

  /** No two decks of a freshly built ship share a cell. */
  lemma LaunchDistinct(start: Cell, end: Cell)
    ensures DistinctLocations(LaunchDecks(start, end))
  {
    var r := LaunchDecks(start, end);
    LaunchDecksShape(start, end);
    forall j, k | 0 <= j < k < |r| ensures r[j].location != r[k].location {
    }
  }

  /** Two different cells that touch by a side or a corner. */
  predicate Touching(c: Cell, e: Cell) {
    c != e && -1 <= c.0 - e.0 <= 1 && -1 <= c.1 - e.1 <= 1
  }

  /** Consecutive decks of a freshly built ship lie on touching cells. */
  lemma LaunchChained(start: Cell, end: Cell)
    ensures forall j :: 0 <= j < |LaunchDecks(start, end)| - 1 ==>
              Touching(LaunchDecks(start, end)[j].location, LaunchDecks(start, end)[j + 1].location)
  {
    LaunchDecksShape(start, end);
  }

  /** A ship as Ship.__init__ leaves it: every deck alive, not drowned. */
  function Launch(start: Cell, end: Cell): ShipState {
    ShipState(LaunchDecks(start, end), false)
  }

  /**
   * The drowned flag agrees with the decks: a ship is drowned exactly when it
   * has decks and all of them are dead.
   */
  predicate Consistent(s: ShipState) {
    s.isDrowned <==> |s.decks| > 0 && AllDead(s.decks)
  }

  /** The position of the first deck at c: the deck Ship.get_deck returns. */
  function IndexOf(decks: seq<Deck>, c: Cell): (k: nat)
    requires c in Locations(decks)
    ensures k < |decks| && decks[k].location == c
    ensures forall j :: 0 <= j < k ==> decks[j].location != c
  {
    if decks[0].location == c then 0
    else
      assert Locations(decks) == [decks[0].location] + Locations(decks[1..]);
      IndexOf(decks[1..], c) + 1
  }

  /**
   * Ship.fire on the value: the deck get_deck finds is marked dead, and the
   * ship becomes drowned if every deck is now dead; it never becomes afloat
   * again.
   */
  function FireShip(s: ShipState, c: Cell): (r: ShipState)
    requires c in Locations(s.decks)
    ensures |r.decks| == |s.decks| && Locations(r.decks) == Locations(s.decks)
    ensures !r.decks[IndexOf(s.decks, c)].isAlive
    ensures forall j :: 0 <= j < |s.decks| && j != IndexOf(s.decks, c) ==> r.decks[j] == s.decks[j]
    ensures s.isDrowned ==> r.isDrowned
    ensures r.isDrowned <==> s.isDrowned || AllDead(r.decks)
  {
    var k := IndexOf(s.decks, c);
    var decks := s.decks[k := s.decks[k].(isAlive := false)];
    ShipState(decks, s.isDrowned || AllDead(decks))
  }

  /** A freshly built ship is afloat, has only live decks, and is consistent. */
  lemma LaunchAfloat(start: Cell, end: Cell)
    ensures !Launch(start, end).isDrowned
    ensures forall k :: 0 <= k < |Launch(start, end).decks| ==> Launch(start, end).decks[k].isAlive
    ensures Consistent(Launch(start, end))
  {
    var decks := LaunchDecks(start, end);
    LaunchDecksShape(start, end);
    if |decks| > 0 {
      assert decks[0].isAlive;
    }
  }

  /** Firing keeps the drowned flag in agreement with the decks. */
  lemma FireShipConsistent(s: ShipState, c: Cell)
    requires Consistent(s) && c in Locations(s.decks)
    ensures Consistent(FireShip(s, c))
    ensures FireShip(s, c).isDrowned <==> AllDead(FireShip(s, c).decks)
  {
  }

  /** Firing twice at the same cell leaves the ship as firing once does. */
  lemma FireShipIdempotent(s: ShipState, c: Cell)
    requires c in Locations(s.decks)
    ensures FireShip(FireShip(s, c), c) == FireShip(s, c)
  {
    var r := FireShip(s, c);
    assert IndexOf(r.decks, c) == IndexOf(s.decks, c) by {
      var k, k' := IndexOf(s.decks, c), IndexOf(r.decks, c);
      assert r.decks[k].location == Locations(r.decks)[k] == Locations(s.decks)[k] == c;
      assert s.decks[k'].location == Locations(s.decks)[k'] == Locations(r.decks)[k'] == c;
    }
  }

  /** Ship.fire at each cell of cells in turn. */
  function FireAll(s: ShipState, cells: seq<Cell>): ShipState
    requires forall i :: 0 <= i < |cells| ==> cells[i] in Locations(s.decks)
    decreases |cells|
  {
    if cells == [] then s else FireAll(FireShip(s, cells[0]), cells[1..])
  }

  /**
   * After firing at a sequence of the ship's own cells (in any order, with
   * repeats), a consistent ship with distinct cells is drowned exactly when
   * every deck was dead already or its cell was fired at.
   */
  lemma {:induction false} FireAllDrowned(s: ShipState, cells: seq<Cell>)
    requires Consistent(s) && |s.decks| > 0 && DistinctLocations(s.decks)
    requires forall i :: 0 <= i < |cells| ==> cells[i] in Locations(s.decks)
    ensures FireAll(s, cells).isDrowned <==>
              forall k :: 0 <= k < |s.decks| ==> !s.decks[k].isAlive || s.decks[k].location in cells
    decreases |cells|
  {
    if cells == [] {
    } else {
      var c, rest := cells[0], cells[1..];
      assert cells == [c] + rest;
      var t := FireShip(s, c);
      assert FireAll(s, cells) == FireAll(t, rest);
      var k0 := IndexOf(s.decks, c);
      FireShipConsistent(s, c);
      FireShipKeepsCells(s, c);
      FireAllDrowned(t, rest);
      forall k | 0 <= k < |s.decks|
        ensures (!t.decks[k].isAlive || t.decks[k].location in rest) <==>
                (!s.decks[k].isAlive || s.decks[k].location in cells)
      {
        assert s.decks[k].location == c <==> k == k0;
      }
    }
  }

  /** Firing moves no deck, so distinct cells stay distinct. */
  lemma FireShipKeepsCells(s: ShipState, c: Cell)
    requires c in Locations(s.decks)
    ensures forall k :: 0 <= k < |s.decks| ==> FireShip(s, c).decks[k].location == s.decks[k].location
    ensures DistinctLocations(s.decks) ==> DistinctLocations(FireShip(s, c).decks)
  {
    var t := FireShip(s, c);
    forall k | 0 <= k < |s.decks| ensures t.decks[k].location == s.decks[k].location {
      assert t.decks[k].location == Locations(t.decks)[k] == Locations(s.decks)[k] == s.decks[k].location;
    }
  }

  /** A ship object (app/main.py, class Ship). */
  class Ship {
    var decks: seq<Deck>
    var isDrowned: bool

    /** The value this object currently holds. */
    function State(): ShipState
      reads this
    {
      ShipState(decks, isDrowned)
    }

    /** Ship.__init__: the decks of (start, end), all alive, not drowned. */
    constructor (start: Cell, end: Cell)
      ensures State() == Launch(start, end)
    {
      decks := LaunchDecks(start, end);
      isDrowned := false;
    }

    /** Ship.get_deck: the position of the first deck at (row, column). */
    method GetDeck(row: int, column: int) returns (k: nat)
      requires (row, column) in Locations(decks)
      ensures k < |decks| && decks[k].location == (row, column)
      ensures forall j :: 0 <= j < k ==> decks[j].location != (row, column)
      ensures k == IndexOf(decks, (row, column))
    {
      k := 0;
      while decks[k].location != (row, column)
        invariant k < |decks|
        invariant forall j :: 0 <= j < k ==> decks[j].location != (row, column)
        decreases |decks| - k
      {
        assert Locations(decks)[k] != (row, column);
        k := k + 1;
      }
    }

    /** Ship.fire: marks the deck at (row, column) dead, then drowns the ship if all decks are dead. */
    method Fire(row: int, column: int)
      requires (row, column) in Locations(decks)
      modifies this
      ensures State() == FireShip(old(State()), (row, column))
    {
      var k := GetDeck(row, column);
      decks := decks[k := decks[k].(isAlive := false)];
      var allDead := true;
      var j := 0;
      while j < |decks|
        invariant 0 <= j <= |decks|
        invariant allDead <==> AllDead(decks[..j])
      {
        allDead := allDead && !decks[j].isAlive;
        j := j + 1;
      }
      assert decks[..j] == decks;
      if allDead {
        isDrowned := true;
      }
    }
  }
}
