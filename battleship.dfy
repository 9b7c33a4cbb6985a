/**
 * The fleet board object (app/main.py, class Battleship). The object keeps
 * every Ship it built in an arena, in placement order, and its field maps
 * each occupied cell to the index of the owning ship, so many cells share
 * one Ship object as in the source. Its methods are proved against the
 * board value of the Boards module.
 */
module Game {
  import opened Wrappers
  import opened Ships
  import opened Boards

  class Battleship {
    var ships: seq<Ship>
    var field: map<Cell, nat>

    /** The board value this object currently holds. */
    ghost function View(): (b: Board)
      reads this, ships
      ensures |b.ships| == |ships| && b.field == field
      ensures forall i :: 0 <= i < |ships| ==> b.ships[i] == ships[i].State()
    {
      Board(seq(|ships|, i reads this, ships requires 0 <= i < |ships| => ships[i].State()), field)
    }

    /**
     * Distinct arena entries are distinct objects, every occupied cell
     * names a ship that has a deck there, and every ship is drowned exactly
     * when all its decks are dead.
     */
    ghost predicate Valid()
      reads this, ships
      ensures Valid() ==> WellFormed(View())
    {
      && (forall i, j :: 0 <= i < j < |ships| ==> ships[i] != ships[j])
      && (forall c :: c in field ==> field[c] < |ships| && c in Locations(ships[field[c]].decks))
      && ShipsConsistent(View())
    }

    /** Battleship.__init__ up to validation: the ships of placements, in order, and their field. */
    constructor (placements: seq<Placement>)
      ensures Valid()
      ensures forall i :: 0 <= i < |ships| ==> fresh(ships[i])
      ensures View() == Assemble(placements)
    {
      var arena, cells := Build(placements);
      ships := arena;
      field := cells;
      new;
      ghost var b := View();
      assert b.ships == LaunchAll(placements);
      assert b == Assemble(placements) && WellFormed(b);
      AssembleConsistent(placements);
      forall c | c in field
        ensures field[c] < |ships| && c in Locations(ships[field[c]].decks)
      {
        assert ships[field[c]].State() == b.ships[field[c]];
      }
    }

    /**
     * The loop of Battleship.__init__: build each ship in turn and register
     * its decks in the field, a later ship taking over a cell it shares.
     */
    static method Build(placements: seq<Placement>) returns (arena: seq<Ship>, cells: map<Cell, nat>)
      ensures |arena| == |placements|
      ensures forall j :: 0 <= j < |arena| ==> fresh(arena[j])
      ensures forall j :: 0 <= j < |arena| ==> arena[j].State() == LaunchAll(placements)[j]
      ensures forall j, j' :: 0 <= j < j' < |arena| ==> arena[j] != arena[j']
      ensures cells == FieldOf(LaunchAll(placements))
    {
      arena := [];
      cells := map[];
      ghost var launched := LaunchAll(placements);
      var i := 0;
      while i < |placements|
        invariant 0 <= i <= |placements| && |arena| == i
        invariant forall j :: 0 <= j < i ==> fresh(arena[j]) && arena[j].State() == launched[j]
        invariant forall j, j' :: 0 <= j < j' < i ==> arena[j] != arena[j']
        invariant cells == FieldUpTo(launched, i)
      {
        var ship;
        ship, cells := Enlist(placements, i, cells);
        arena := arena + [ship];
        i := i + 1;
      }
    }

    /** One pass of the loop of Battleship.__init__: ship i is built and its decks registered. */
    static method Enlist(placements: seq<Placement>, i: nat, cells: map<Cell, nat>) returns (ship: Ship, r: map<Cell, nat>)
      requires i < |placements| && cells == FieldUpTo(LaunchAll(placements), i)
      ensures fresh(ship) && ship.State() == LaunchAll(placements)[i]
      ensures r == FieldUpTo(LaunchAll(placements), i + 1)
    {
      ship := new Ship(placements[i].0, placements[i].1);
      assert ship.State() == LaunchAll(placements)[i];
      r := RegisterDecks(cells, ship.decks, i);
    }

    /** The inner loop of Battleship.__init__: every deck's cell now names ship i. */
    static method RegisterDecks(cells: map<Cell, nat>, decks: seq<Deck>, i: nat) returns (r: map<Cell, nat>)
      ensures r == Register(cells, decks, i)
    {
      r := cells;
      var k := 0;
      while k < |decks|
        invariant 0 <= k <= |decks|
        invariant r == Register(cells, decks[..k], i)
      {
        assert decks[..k + 1][..k] == decks[..k];
        r := r[decks[k].location := i];
        k := k + 1;
      }
      assert decks[..k] == decks;
    }

    /**
     * Battleship._validate_field: the first broken rule, checked in the
     * source's order (ship count, census, neighbours), or None.
     */
    method ValidateField() returns (err: Option<FieldError>)
      requires Valid()
      ensures err == Validate(View())
    {
      ghost var b := View();
      var ids := field.Values;
      if |ids| != 10 {
        return Some(WrongShipCount);
      }
      var counted, count := CountShipLengths(b);
      if !counted {
        return Some(UnexpectedLength);
      }
      if count != FleetCensus {
        return Some(WrongLengthCensus);
      }
      var clash := FindNeighbour(b);
      if clash {
        return Some(NeighbouringShips);
      }
      return None;
    }

    /**
     * The census loop of _validate_field: the count of distinct ships of
     * each length 1 to 4, or counted false where the source's dictionary
     * lookup fails (KeyError) on a ship of another length.
     */
    method CountShipLengths(ghost b: Board) returns (counted: bool, count: map<int, nat>)
      requires b == View() && forall j :: j in field.Values ==> j < |ships|
      ensures counted <==> LengthsCounted(b)
      ensures counted ==> count == Census(b, ShipIds(b))
    {
      var ids := field.Values;
      count := map[1 := 0, 2 := 0, 3 := 0, 4 := 0];
      var todo := ids;
      ghost var done: set<nat> := {};
      while todo != {}
        invariant forall j :: j in ids <==> j in todo || j in done
        invariant forall j :: j in todo ==> j !in done
        invariant forall j :: j in done ==> 1 <= LengthOf(b, j) <= 4
        invariant forall len :: len in count <==> 1 <= len <= 4
        invariant forall len :: len in count ==> count[len] == CountOfLength(b, done, len)
        decreases |todo|
      {
        var i :| i in todo;
        var len := |ships[i].decks|;
        assert len == LengthOf(b, i);
        if len !in count {
          assert i in ids && !(1 <= LengthOf(b, i) <= 4);
          return false, count;
        }
        CountStep(b, done, i);
        count := count[len := count[len] + 1];
        todo := todo - {i};
        done := done + {i};
      }
      assert ids == ShipIds(b);
      CensusComplete(b, done, count);
      return true, count;
    }

    /**
     * The neighbour scan of _validate_field: whether some deck of some
     * distinct ship has one of its eight neighbour cells owned by another ship.
     */
    method FindNeighbour(ghost b: Board) returns (clash: bool)
      requires b == View() && forall j :: j in field.Values ==> j < |ships|
      ensures clash <==> HasClash(b)
    {
      var ids := field.Values;
      var rest := ids;
      while rest != {}
        invariant forall j :: j in rest ==> j in ids
        invariant forall j :: j in ids && j !in rest ==> ShipClear(b, j)
        decreases |rest|
      {
        var i :| i in rest;
        var found := ShipNeighbour(b, i);
        if found {
          assert i in ShipIds(b);
          return true;
        }
        rest := rest - {i};
      }
      assert ids == ShipIds(b);
      NoClash(b);
      return false;
    }

    /** The scan of one ship: whether a neighbour cell of one of its decks belongs to another ship. */
    method ShipNeighbour(ghost b: Board, i: nat) returns (clash: bool)
      requires b == View() && i < |ships|
      ensures clash <==> !ShipClear(b, i)
    {
      var decks := ships[i].decks;
      assert decks == b.ships[i].decks;
      var k := 0;
      while k < |decks|
        invariant 0 <= k <= |decks|
        invariant forall k' :: 0 <= k' < k ==> DeckClear(b, i, k')
      {
        var row, col := decks[k].location.0, decks[k].location.1;
        var d := 0;
        while d < |Directions|
          invariant 0 <= d <= |Directions|
          invariant forall d' :: 0 <= d' < d ==> !Clash(b, i, k, d')
        {
          var neighbour := (row + Directions[d].0, col + Directions[d].1);
          if neighbour in field && field[neighbour] != i {
            assert Clash(b, i, k, d) && !DeckClear(b, i, k);
            return true;
          }
          d := d + 1;
        }
        k := k + 1;
      }
      assert ShipClear(b, i);
      return false;
    }

    /**
     * Battleship.__init__ as a whole: build the field, then validate it,
     * returning the board only when every rule holds.
     */
    static method New(placements: seq<Placement>) returns (r: Result<Battleship, FieldError>)
      ensures r.Success? ==> fresh(r.value) && r.value.Valid() && r.value.View() == Assemble(placements)
      ensures r.Success? <==> Validate(Assemble(placements)) == None
      ensures r.Failure? ==> Validate(Assemble(placements)) == Some(r.error)
    {
      ghost var a := Assemble(placements);
      var board := new Battleship(placements);
      var err := board.ValidateField();
      assert err == Validate(a);
      if err.Some? {
        return Failure(err.value);
      }
      return Success(board);
    }

    /** Battleship.fire: a miss off the field, else fire the owning ship and report hit or sunk. */
    method Fire(location: Cell) returns (r: string)
      requires Valid()
      modifies ships
      ensures Valid()
      ensures View() == Fired(old(View()), location)
      ensures r == Report(old(View()), location).Message()
    {
      ghost var b := View();
      if location !in field {
        return "Miss!";
      }
      var i := field[location];
      var ship := ships[i];
      assert ship.State() == b.ships[i];
      ship.Fire(location.0, location.1);
      assert View().ships == Fired(b, location).ships;
      ReportSunk(b, location);
      if ship.isDrowned {
        return "Sunk!";
      }
      return "Hit!";
    }

    /** The 10 x 10 symbol grid print_field builds before printing it row by row. */
    method Render() returns (grid: seq<seq<char>>)
      requires Valid()
      requires forall c :: c in field ==> 0 <= c.0 < 10 && 0 <= c.1 < 10
      ensures |grid| == 10 && forall r :: 0 <= r < 10 ==> |grid[r]| == 10
      ensures forall r, c :: 0 <= r < 10 && 0 <= c < 10 ==> grid[r][c] == SymbolAt(View(), (r, c))
    {
      ghost var b := View();
      grid := seq(10, _ => seq(10, _ => Water));
      var todo := field.Keys;
      while todo != {}
        invariant forall c :: c in todo ==> c in b.field
        invariant Painted(grid, b, todo)
        decreases |todo|
      {
        var location :| location in todo;
        var symbol := CellSymbol(b, location);
        PaintStep(grid, b, todo, location);
        grid := grid[location.0 := grid[location.0][location.1 := symbol]];
        todo := todo - {location};
      }
    }

    /** The symbol print_field writes for one occupied cell. */
    method CellSymbol(ghost b: Board, location: Cell) returns (symbol: char)
      requires b == View() && Valid() && location in field
      ensures symbol == SymbolAt(b, location)
    {
      var ship := ships[field[location]];
      assert ship.State() == b.ships[field[location]];
      if ship.isDrowned {
        symbol := SunkDeck;
      } else {
        var k := ship.GetDeck(location.0, location.1);
        symbol := if !ship.decks[k].isAlive then HitDeck else LiveDeck;
      }
    }
  }
}
