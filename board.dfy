/**
 * The fleet board as a value (app/main.py, class Battleship): an arena of
 * ship states, in placement order, and the field that maps each occupied
 * cell to the index of its ship. Indices stand for the identity of the
 * source's Ship objects, so "distinct ships" is the set of indices that
 * occur as values of the field.
 */
module Boards {
  import opened Wrappers
  import opened Ships

  datatype Board = Board(ships: seq<ShipState>, field: map<Cell, nat>)

  /** A placement as the source receives it: the (start, end) cells of one ship. */
  type Placement = (Cell, Cell)

  /** Every occupied cell names a ship of the arena that has a deck there. */
  predicate WellFormed(b: Board) {
    forall c :: c in b.field ==> b.field[c] < |b.ships| && c in Locations(b.ships[b.field[c]].decks)
  }

  // ---------------------------------------------------------------------
  // Construction: filling the field (Battleship.__init__)
  // ---------------------------------------------------------------------

  /** The field after writing, in order, the cell of every deck in decks as owned by ship i. */
  function Register(field: map<Cell, nat>, decks: seq<Deck>, i: nat): map<Cell, nat>
    decreases |decks|
  {
    if decks == [] then field
    else
      var n := |decks| - 1;
      Register(field, decks[..n], i)[decks[n].location := i]
  }

  /**
   * Registering keeps every cell of the field and adds the deck cells, which
   * now name ship i; every other cell keeps its owner.
   */
  lemma {:induction false} RegisterSpec(field: map<Cell, nat>, decks: seq<Deck>, i: nat)
    ensures forall c :: c in Register(field, decks, i) <==> c in field || c in Locations(decks)
    ensures forall c :: c in Register(field, decks, i) ==>
              Register(field, decks, i)[c] == if c in Locations(decks) then i else field[c]
    decreases |decks|
  {
    if decks != [] {
      var n := |decks| - 1;
      RegisterSpec(field, decks[..n], i);
      assert Locations(decks) == Locations(decks[..n]) + [decks[n].location];
    }
  }

  /** Ship i of the arena has a deck at c. */
  predicate Covers(ships: seq<ShipState>, i: nat, c: Cell) {
    i < |ships| && c in Locations(ships[i].decks)
  }

  /** The field the constructor's loop has built once the first k ships are placed. */
  function FieldUpTo(ships: seq<ShipState>, k: nat): map<Cell, nat>
    requires k <= |ships|
  {
    if k == 0 then map[] else Register(FieldUpTo(ships, k - 1), ships[k - 1].decks, k - 1)
  }

  /** The field the constructor's loop builds: each ship's decks registered in turn. */
  function FieldOf(ships: seq<ShipState>): map<Cell, nat> {
    FieldUpTo(ships, |ships|)
  }

  /** The keys of the field built so far are exactly the cells of the first k ships. */
  lemma {:induction false} FieldOfKeys(ships: seq<ShipState>, k: nat)
    requires k <= |ships|
    ensures forall c :: c in FieldUpTo(ships, k) <==> exists i :: 0 <= i < k && Covers(ships, i, c)
  {
    if k > 0 {
      var n := k - 1;
      FieldOfKeys(ships, n);
      RegisterSpec(FieldUpTo(ships, n), ships[n].decks, n);
      forall c ensures c in FieldUpTo(ships, k) <==> exists i :: 0 <= i < k && Covers(ships, i, c) {
        if c in Locations(ships[n].decks) {
          assert Covers(ships, n, c);
        }
      }
    }
  }

  /** Each cell of the field built so far belongs to the last of the first k ships placed on it. */
  lemma {:induction false} FieldOfOwners(ships: seq<ShipState>, k: nat)
    requires k <= |ships|
    ensures forall c :: c in FieldUpTo(ships, k) ==> FieldUpTo(ships, k)[c] < k && Covers(ships, FieldUpTo(ships, k)[c], c)
    ensures forall c, j :: c in FieldUpTo(ships, k) && FieldUpTo(ships, k)[c] < j < k ==> !Covers(ships, j, c)
  {
    if k > 0 {
      var n := k - 1;
      FieldOfOwners(ships, n);
      RegisterSpec(FieldUpTo(ships, n), ships[n].decks, n);
    }
  }

  /** The ships Battleship.__init__ builds, one freshly launched ship per placement. */
  function LaunchAll(placements: seq<Placement>): (ships: seq<ShipState>)
    ensures |ships| == |placements|
    ensures forall i :: 0 <= i < |placements| ==> ships[i] == Launch(placements[i].0, placements[i].1)
  {
    seq(|placements|, i requires 0 <= i < |placements| => Launch(placements[i].0, placements[i].1))
  }

  /** The board the constructor builds, before validation. */
  function Assemble(placements: seq<Placement>): (b: Board)
    ensures WellFormed(b)
    ensures b.ships == LaunchAll(placements) && b.field == FieldOf(b.ships)
  {
    var ships := LaunchAll(placements);
    FieldOfKeys(ships, |ships|);
    FieldOfOwners(ships, |ships|);
    Board(ships, FieldOf(ships))
  }

  // ---------------------------------------------------------------------
  // Validation (Battleship._validate_field)
  // ---------------------------------------------------------------------

  /** Why the source refuses a field. UnexpectedLength stands for its KeyError. */
  datatype FieldError = WrongShipCount | UnexpectedLength | WrongLengthCensus | NeighbouringShips
  {
    function Message(): string {
      match this
      case WrongShipCount => "The total number of ships should be 10"
      case UnexpectedLength => "KeyError"
      case WrongLengthCensus => "Invalid number of ships by length"
      case NeighbouringShips => "Ships should not be located in neighboring cells"
    }
  }

  /** The distinct ships of the board: the indices the field refers to. */
  function ShipIds(b: Board): set<nat> {
    b.field.Values
  }

  /** The number of decks of ship i (0 for an index outside the arena). */
  function LengthOf(b: Board, i: nat): nat {
    if i < |b.ships| then |b.ships[i].decks| else 0
  }

  /** How many of the ships ids have length len. */
  function CountOfLength(b: Board, ids: set<nat>, len: int): nat {
    |set i | i in ids && LengthOf(b, i) == len|
  }

  /** The length census of the source's count_ship_len dictionary. */
  function Census(b: Board, ids: set<nat>): map<int, nat> {
    map[1 := CountOfLength(b, ids, 1), 2 := CountOfLength(b, ids, 2),
        3 := CountOfLength(b, ids, 3), 4 := CountOfLength(b, ids, 4)]
  }

  /** Counting one more ship adds one to the count of its length and to no other. */
  lemma CountStep(b: Board, done: set<nat>, i: nat)
    requires i !in done
    ensures forall len :: CountOfLength(b, done + {i}, len) ==
                            CountOfLength(b, done, len) + (if len == LengthOf(b, i) then 1 else 0)
  {
    forall len: int ensures CountOfLength(b, done + {i}, len) ==
                            CountOfLength(b, done, len) + (if len == LengthOf(b, i) then 1 else 0)
    {
      var before := set j | j in done && LengthOf(b, j) == len;
      var after := set j | j in done + {i} && LengthOf(b, j) == len;
      if len == LengthOf(b, i) {
        assert after == before + {i};
      } else {
        assert after == before;
      }
    }
  }

  /**
   * A per-length count taken over exactly the board's distinct ships, each
   * of length 1 to 4, is the census, and every ship length is counted.
   */
  lemma CensusComplete(b: Board, done: set<nat>, count: map<int, nat>)
    requires forall j :: j in ShipIds(b) <==> j in done
    requires forall j :: j in done ==> 1 <= LengthOf(b, j) <= 4
    requires forall len :: len in count <==> 1 <= len <= 4
    requires forall len :: len in count ==> count[len] == CountOfLength(b, done, len)
    ensures LengthsCounted(b)
    ensures count == Census(b, ShipIds(b))
  {
    assert done == ShipIds(b);
    var census := Census(b, done);
    assert forall len :: len in count <==> len in census;
    assert forall len :: len in count ==> count[len] == census[len];
  }

  /** The census a valid fleet has: four of length 1, three of 2, two of 3, one of 4. */
  const FleetCensus: map<int, nat> := map[1 := 4, 2 := 3, 3 := 2, 4 := 1]

  /** The eight directions the source scans around each deck. */
  const Directions: seq<(int, int)> :=
    [(-1, -1), (-1, 0), (-1, 1), (0, -1), (0, 1), (1, -1), (1, 0), (1, 1)]

  function Neighbour(c: Cell, d: (int, int)): Cell {
    (c.0 + d.0, c.1 + d.1)
  }

  /** Deck k of ship i has, in direction d, a neighbour cell owned by another ship. */
  predicate Clash(b: Board, i: nat, k: nat, d: nat) {
    && i < |b.ships| && k < |b.ships[i].decks| && d < |Directions|
    && var n := Neighbour(b.ships[i].decks[k].location, Directions[d]);
       n in b.field && b.field[n] != i
  }

  /** Every distinct ship has a length the census counts (else the source raises KeyError). */
  predicate LengthsCounted(b: Board) {
    forall i :: i in ShipIds(b) ==> 1 <= LengthOf(b, i) <= 4
  }

  /** No deck of ship i has a neighbour cell owned by another ship. */
  predicate ShipClear(b: Board, i: nat) {
    forall k :: 0 <= k < LengthOf(b, i) ==> DeckClear(b, i, k)
  }

  /** No neighbour cell of deck k of ship i is owned by another ship. */
  predicate DeckClear(b: Board, i: nat, k: nat) {
    forall d :: 0 <= d < |Directions| ==> !Clash(b, i, k, d)
  }

  /** Some deck of some distinct ship has a neighbour cell owned by another ship. */
  predicate HasClash(b: Board) {
    exists i, k, d :: i in ShipIds(b) && 0 <= k < LengthOf(b, i) && 0 <= d < |Directions| && Clash(b, i, k, d)
  }

  /** When every distinct ship is clear, no ship clashes. */
  lemma NoClash(b: Board)
    requires forall j :: j in ShipIds(b) ==> ShipClear(b, j)
    ensures !HasClash(b)
  {
    forall i, k, d | i in ShipIds(b) && 0 <= k < LengthOf(b, i) && 0 <= d < |Directions|
      ensures !Clash(b, i, k, d)
    {
      assert ShipClear(b, i);
      assert DeckClear(b, i, k);
    }
  }

  /** The first rule the source finds broken, in the order it checks them. */
  function Validate(b: Board): Option<FieldError> {
    if |ShipIds(b)| != 10 then Some(WrongShipCount)
    else if !LengthsCounted(b) then Some(UnexpectedLength)
    else if Census(b, ShipIds(b)) != FleetCensus then Some(WrongLengthCensus)
    else if HasClash(b) then Some(NeighbouringShips)
    else None
  }

  /**
   * Every ship still in the field keeps all its cells. A ship whose every
   * cell a later placement took over is not in ShipIds and is not constrained.
   */
  predicate Exclusive(b: Board) {
    forall i, k :: i in ShipIds(b) && i < |b.ships| && 0 <= k < |b.ships[i].decks| ==>
      b.ships[i].decks[k].location in b.field && b.field[b.ships[i].decks[k].location] == i
  }

  /** The fleet rules stated directly on the board. */
  predicate FleetRules(b: Board) {
    && |ShipIds(b)| == 10
    && (forall i :: i in ShipIds(b) ==> 1 <= LengthOf(b, i) <= 4)
    && (forall len :: 1 <= len <= 4 ==> CountOfLength(b, ShipIds(b), len) == 5 - len)
    && (forall c, e :: c in b.field && e in b.field && Touching(c, e) ==> b.field[c] == b.field[e])
  }

  /** The eight directions reach exactly the touching cells. */
  lemma DirectionsTouch(c: Cell, e: Cell)
    ensures Touching(c, e) <==> exists d :: 0 <= d < |Directions| && e == Neighbour(c, Directions[d])
  {
    if Touching(c, e) {
      var dr, dc := e.0 - c.0, e.1 - c.1;
      var d := if dr == -1 then (if dc == -1 then 0 else if dc == 0 then 1 else 2)
               else if dr == 0 then (if dc == -1 then 3 else 4)
               else (if dc == -1 then 5 else if dc == 0 then 6 else 7);
      assert e == Neighbour(c, Directions[d]);
    }
  }

  /** A field the source accepts obeys the fleet rules. */
  lemma ValidateSound(b: Board)
    requires WellFormed(b) && Validate(b) == None
    ensures FleetRules(b)
  {
    var ids := ShipIds(b);
    var census := Census(b, ids);
    assert census == FleetCensus;
    forall len | 1 <= len <= 4 ensures CountOfLength(b, ids, len) == 5 - len {
      assert census[len] == FleetCensus[len];
    }
    NoClashApart(b);
  }

  /** Without a clash, touching occupied cells belong to the same ship. */
  lemma NoClashApart(b: Board)
    requires WellFormed(b) && !HasClash(b)
    ensures forall c, e :: c in b.field && e in b.field && Touching(c, e) ==> b.field[c] == b.field[e]
  {
    forall c, e | c in b.field && e in b.field && Touching(c, e) ensures b.field[c] == b.field[e] {
      var i := b.field[c];
      var k := IndexOf(b.ships[i].decks, c);
      DirectionsTouch(c, e);
      var d :| 0 <= d < |Directions| && e == Neighbour(c, Directions[d]);
      assert i in ShipIds(b);
      assert !Clash(b, i, k, d);
    }
  }

  /** A field that obeys the fleet rules, and whose ships still in the field keep all their cells, is accepted. */
  lemma ValidateComplete(b: Board)
    requires WellFormed(b) && Exclusive(b) && FleetRules(b)
    ensures Validate(b) == None
  {
    var ids := ShipIds(b);
    assert Census(b, ids) == FleetCensus;
    forall i: nat, k: nat, d: nat | i in ids && i < |b.ships| && k < |b.ships[i].decks| && d < |Directions|
      ensures !Clash(b, i, k, d)
    {
      var c := b.ships[i].decks[k].location;
      var n := Neighbour(c, Directions[d]);
      DirectionsTouch(c, n);
      assert c in b.field && b.field[c] == i;
    }
    assert !HasClash(b);
  }

  /**
   * On a field whose ships still in the field keep all their cells, the neighbour refusal names
   * two touching cells owned by different ships.
   */
  lemma ValidateNeighbours(b: Board)
    requires WellFormed(b) && Exclusive(b)
    ensures Validate(b) == Some(NeighbouringShips) ==>
              exists c, e :: c in b.field && e in b.field && Touching(c, e) && b.field[c] != b.field[e]
  {
    if Validate(b) == Some(NeighbouringShips) {
      assert HasClash(b);
      var i, k, d :| i in ShipIds(b) && 0 <= k < LengthOf(b, i) && 0 <= d < |Directions| && Clash(b, i, k, d);
      var c := b.ships[i].decks[k].location;
      var e := Neighbour(c, Directions[d]);
      DirectionsTouch(c, e);
      assert e in b.field && Touching(c, e) && b.field[e] != i;
    }
  }

  /** When no two placements share a cell, every deck of every built ship maps to that ship. */
  lemma AssembleExclusive(placements: seq<Placement>)
    requires forall i, j, c :: 0 <= i < j < |placements| ==>
               !(Covers(LaunchAll(placements), i, c) && Covers(LaunchAll(placements), j, c))
    ensures forall i, k :: 0 <= i < |placements| && 0 <= k < |Assemble(placements).ships[i].decks| ==>
              var c := Assemble(placements).ships[i].decks[k].location;
              c in Assemble(placements).field && Assemble(placements).field[c] == i
    ensures Exclusive(Assemble(placements))
  {
    var b := Assemble(placements);
    FieldOfKeys(b.ships, |b.ships|);
    FieldOfOwners(b.ships, |b.ships|);
    forall i: nat, k: nat | i < |b.ships| && k < |b.ships[i].decks|
      ensures b.ships[i].decks[k].location in b.field && b.field[b.ships[i].decks[k].location] == i
    {
      var c := b.ships[i].decks[k].location;
      assert Locations(b.ships[i].decks)[k] == c;
      assert Covers(b.ships, i, c);
      var o := b.field[c];
      assert Covers(b.ships, o, c);
    }
  }

  /**
   * The same one-deck placement twice: the second ship takes the only cell of
   * the first, which leaves the field. Exclusive still holds, since it speaks
   * only of the ships still in the field.
   */
  lemma RepeatedPlacementDropsShip()
    ensures var b := Assemble([((0, 0), (0, 0)), ((0, 0), (0, 0))]);
            && |b.ships| == 2 && b.ships[0].decks == [Deck((0, 0), true)]
            && b.field == map[(0, 0) := 1]
            && ShipIds(b) == {1}
            && Exclusive(b)
  {
    var b := Assemble([((0, 0), (0, 0)), ((0, 0), (0, 0))]);
    LaunchDecksShape((0, 0), (0, 0));
    assert b.ships[0].decks == [Deck((0, 0), true)] && b.ships[1].decks == [Deck((0, 0), true)];
    assert FieldUpTo(b.ships, 1) == map[(0, 0) := 0];
    assert b.field == map[(0, 0) := 1];
    assert b.field.Values == {1} by {
      assert b.field[(0, 0)] == 1;
    }
  }

  // ---------------------------------------------------------------------
  // Boards the constructor builds
  // ---------------------------------------------------------------------

  /** Some two touching occupied cells have different owners. */
  predicate TouchingApart(b: Board) {
    exists c, e :: c in b.field && e in b.field && Touching(c, e) && b.field[c] != b.field[e]
  }

  /**
   * Along a chain of touching occupied cells from a cell owned by another
   * ship to a cell owned by ship i, some two touching cells have different owners.
   */
  lemma {:induction false} ChainSplits(field: map<Cell, nat>, decks: seq<Deck>, a: nat, z: nat, i: nat)
    requires a < |decks| && z < |decks|
    requires forall j :: 0 <= j < |decks| ==> decks[j].location in field
    requires forall j :: 0 <= j < |decks| - 1 ==> Touching(decks[j].location, decks[j + 1].location)
    requires field[decks[a].location] != i && field[decks[z].location] == i
    ensures exists c, e :: c in field && e in field && Touching(c, e) && field[c] != field[e]
    decreases if a < z then z - a else a - z
  {
    var m := if a < z then a + 1 else a - 1;
    if field[decks[m].location] == i {
      var c, e := decks[a].location, decks[m].location;
      if a < z {
        assert Touching(c, e);
      } else {
        assert Touching(e, c);
      }
      assert c in field && e in field && Touching(c, e) && field[c] != field[e];
    } else {
      ChainSplits(field, decks, m, z, i);
    }
  }

  /**
   * On a built board every deck of a distinct ship is occupied, and when a
   * later ship took over one of its cells, two touching cells have
   * different owners: the ship's remaining cells touch the lost one along
   * its row or column.
   */
  lemma OverwrittenShipTouches(placements: seq<Placement>, i: nat, k: nat)
    requires i in ShipIds(Assemble(placements)) && k < LengthOf(Assemble(placements), i)
    ensures Assemble(placements).ships[i].decks[k].location in Assemble(placements).field
    ensures Assemble(placements).field[Assemble(placements).ships[i].decks[k].location] != i ==> TouchingApart(Assemble(placements))
  {
    var b := Assemble(placements);
    var decks := b.ships[i].decks;
    FieldOfKeys(b.ships, |b.ships|);
    forall j | 0 <= j < |decks| ensures decks[j].location in b.field {
      assert Locations(decks)[j] == decks[j].location;
      assert Covers(b.ships, i, decks[j].location);
    }
    if b.field[decks[k].location] != i {
      var c0 :| c0 in b.field && b.field[c0] == i;
      var z := IndexOf(decks, c0);
      LaunchChained(placements[i].0, placements[i].1);
      ChainSplits(b.field, decks, k, z, i);
    }
  }

  /** On a built board the neighbour scan finds a clash exactly when two touching cells have different owners. */
  lemma AssembledClashApart(placements: seq<Placement>)
    ensures HasClash(Assemble(placements)) <==> TouchingApart(Assemble(placements))
  {
    var b := Assemble(placements);
    if HasClash(b) {
      var i, k, d :| i in ShipIds(b) && 0 <= k < LengthOf(b, i) && 0 <= d < |Directions| && Clash(b, i, k, d);
      var c := b.ships[i].decks[k].location;
      var n := Neighbour(c, Directions[d]);
      DirectionsTouch(c, n);
      OverwrittenShipTouches(placements, i, k);
      if b.field[c] != b.field[n] {
        assert c in b.field && n in b.field && Touching(c, n);
      }
    } else {
      NoClashApart(b);
    }
  }

  /** On a built board that obeys the fleet rules, every ship still in the field keeps all its cells. */
  lemma AssembledRulesExclusive(placements: seq<Placement>)
    requires FleetRules(Assemble(placements))
    ensures Exclusive(Assemble(placements))
  {
    var b := Assemble(placements);
    forall i, k | i in ShipIds(b) && i < |b.ships| && 0 <= k < |b.ships[i].decks|
      ensures b.ships[i].decks[k].location in b.field && b.field[b.ships[i].decks[k].location] == i
    {
      OverwrittenShipTouches(placements, i, k);
    }
  }

  /** The source accepts a built board exactly when it obeys the fleet rules. */
  lemma AssembledVerdict(placements: seq<Placement>)
    ensures Validate(Assemble(placements)) == None <==> FleetRules(Assemble(placements))
  {
    var b := Assemble(placements);
    if Validate(b) == None {
      ValidateSound(b);
    }
    if FleetRules(b) {
      AssembledRulesExclusive(placements);
      ValidateComplete(b);
    }
  }

  /** Every ship the constructor builds starts with its drowned flag in agreement with its decks. */
  lemma AssembleConsistent(placements: seq<Placement>)
    ensures ShipsConsistent(Assemble(placements))
  {
    forall j | 0 <= j < |placements| ensures Consistent(Assemble(placements).ships[j]) {
      LaunchAfloat(placements[j].0, placements[j].1);
    }
  }

  // ---------------------------------------------------------------------
  // The size of a valid fleet
  // ---------------------------------------------------------------------

  /** The occupied cells whose owner is one of ids. */
  function CellsOwnedBy(b: Board, ids: set<nat>): set<Cell> {
    set c | c in b.field && b.field[c] in ids
  }

  /** The total length of the ships ids, by the census: one cell per deck. */
  function Weight(b: Board, ids: set<nat>): int {
    CountOfLength(b, ids, 1) + 2 * CountOfLength(b, ids, 2) + 3 * CountOfLength(b, ids, 3) + 4 * CountOfLength(b, ids, 4)
  }

  /** A sequence of pairwise different cells has as many distinct cells as elements. */
  lemma {:induction false} DistinctCount(cells: seq<Cell>)
    requires forall j, k :: 0 <= j < k < |cells| ==> cells[j] != cells[k]
    ensures |set c | c in cells| == |cells|
  {
    if cells != [] {
      var n := |cells| - 1;
      DistinctCount(cells[..n]);
      assert (set c | c in cells) == (set c | c in cells[..n]) + {cells[n]};
      assert cells[n] !in cells[..n];
    }
  }

  /** When ships still in the field keep all their cells, such a ship with distinct cells owns one cell per deck. */
  lemma ShipCells(b: Board, i: nat)
    requires WellFormed(b) && Exclusive(b) && i in ShipIds(b) && i < |b.ships|
    requires DistinctLocations(b.ships[i].decks)
    ensures |CellsOwnedBy(b, {i})| == LengthOf(b, i)
  {
    var decks := b.ships[i].decks;
    var cells := Locations(decks);
    forall c | c in cells ensures c in CellsOwnedBy(b, {i}) {
      var k :| 0 <= k < |cells| && cells[k] == c;
      assert decks[k].location == c;
    }
    assert CellsOwnedBy(b, {i}) == set c | c in cells;
    DistinctCount(cells);
  }

  /** When ships still in the field keep all their cells, the ships ids own as many cells as their census weight. */
  lemma {:induction false} CellsOwnedCount(b: Board, ids: set<nat>)
    requires WellFormed(b) && Exclusive(b)
    requires forall i :: i in ids ==> i in ShipIds(b) && 1 <= LengthOf(b, i) <= 4
    requires forall i :: i in ids && i < |b.ships| ==> DistinctLocations(b.ships[i].decks)
    ensures |CellsOwnedBy(b, ids)| == Weight(b, ids)
    decreases |ids|
  {
    if ids == {} {
      WeightEmpty(b);
    } else {
      var i :| i in ids;
      var rest := ids - {i};
      CellsOwnedCount(b, rest);
      WeightStep(b, ids, i);
      ShipCells(b, i);
      CellsOwnedSplit(b, ids, i);
    }
  }

  /** No ships own no cells and weigh nothing. */
  lemma WeightEmpty(b: Board)
    ensures |CellsOwnedBy(b, {})| == Weight(b, {}) == 0
  {
    assert CellsOwnedBy(b, {}) == {};
    forall len ensures CountOfLength(b, {}, len) == 0 {
      assert (set i | i in {} && LengthOf(b, i) == len) == {};
    }
  }

  /** One more ship adds its length to the census weight. */
  lemma WeightStep(b: Board, ids: set<nat>, i: nat)
    requires i in ids && 1 <= LengthOf(b, i) <= 4
    ensures Weight(b, ids) == Weight(b, ids - {i}) + LengthOf(b, i)
  {
    CountStep(b, ids - {i}, i);
    assert ids - {i} + {i} == ids;
  }

  /** The cells of one ship are disjoint from those of the others. */
  lemma CellsOwnedSplit(b: Board, ids: set<nat>, i: nat)
    requires i in ids
    ensures |CellsOwnedBy(b, ids)| == |CellsOwnedBy(b, ids - {i})| + |CellsOwnedBy(b, {i})|
  {
    assert CellsOwnedBy(b, ids) == CellsOwnedBy(b, ids - {i}) + CellsOwnedBy(b, {i});
    assert CellsOwnedBy(b, ids - {i}) * CellsOwnedBy(b, {i}) == {};
  }

  /**
   * A field that obeys the fleet rules, whose ships still in the field keep all
   * their cells and cover no cell twice, has 4 * 1 + 3 * 2 + 2 * 3 + 1 * 4 = 20 cells.
   */
  lemma FleetCellCount(b: Board)
    requires WellFormed(b) && Exclusive(b) && FleetRules(b)
    requires forall i :: i in ShipIds(b) && i < |b.ships| ==> DistinctLocations(b.ships[i].decks)
    ensures |b.field.Keys| == 20
  {
    CellsOwnedCount(b, ShipIds(b));
    assert CellsOwnedBy(b, ShipIds(b)) == b.field.Keys;
  }

  /** A field the source accepts has exactly 20 occupied cells. */
  lemma AcceptedFieldSize(placements: seq<Placement>)
    requires Validate(Assemble(placements)) == None
    ensures |Assemble(placements).field.Keys| == 20
  {
    var b := Assemble(placements);
    ValidateSound(b);
    AssembledRulesExclusive(placements);
    forall i | i in ShipIds(b) && i < |b.ships| ensures DistinctLocations(b.ships[i].decks) {
      LaunchDistinct(placements[i].0, placements[i].1);
    }
    FleetCellCount(b);
  }

  // ---------------------------------------------------------------------
  // Firing (Battleship.fire)
  // ---------------------------------------------------------------------

  /** What Battleship.fire reports. */
  datatype Outcome = Miss | Hit | Sunk
  {
    function Message(): string {
      match this
      case Miss => "Miss!"
      case Hit => "Hit!"
      case Sunk => "Sunk!"
    }
  }

  /** The board after Battleship.fire at loc: only the owning ship is fired at. */
  function Fired(b: Board, loc: Cell): (r: Board)
    requires WellFormed(b)
    ensures WellFormed(r) && r.field == b.field && |r.ships| == |b.ships|
    ensures loc !in b.field ==> r == b
    ensures loc in b.field ==>
              && r.ships[b.field[loc]] == FireShip(b.ships[b.field[loc]], loc)
              && forall j :: 0 <= j < |b.ships| && j != b.field[loc] ==> r.ships[j] == b.ships[j]
  {
    if loc !in b.field then b
    else
      var i := b.field[loc];
      Board(b.ships[i := FireShip(b.ships[i], loc)], b.field)
  }

  /** The outcome Battleship.fire returns: a miss off the field, else sunk exactly when the owner is now drowned. */
  function Report(b: Board, loc: Cell): (o: Outcome)
    requires WellFormed(b)
    ensures o == Miss <==> loc !in b.field
  {
    if loc !in b.field then Miss
    else if Fired(b, loc).ships[b.field[loc]].isDrowned then Sunk
    else Hit
  }

  /** Every ship of the arena keeps its drowned flag in agreement with its decks. */
  predicate ShipsConsistent(b: Board) {
    forall j :: 0 <= j < |b.ships| ==> Consistent(b.ships[j])
  }

  /**
   * Firing at an occupied cell of a consistent board reports Sunk exactly
   * when the owning ship has no live deck left, and keeps the board
   * consistent.
   */
  lemma ReportSunk(b: Board, loc: Cell)
    requires WellFormed(b) && ShipsConsistent(b) && loc in b.field
    ensures ShipsConsistent(Fired(b, loc))
    ensures Report(b, loc) == Sunk <==> AllDead(Fired(b, loc).ships[b.field[loc]].decks)
    ensures Report(b, loc) == Hit <==> !AllDead(Fired(b, loc).ships[b.field[loc]].decks)
  {
    var i := b.field[loc];
    FireShipConsistent(b.ships[i], loc);
  }

  /** The only deck of a one-deck ship sinks it on the first shot. */
  lemma SingleDeckSinks(b: Board, loc: Cell)
    requires WellFormed(b) && loc in b.field && |b.ships[b.field[loc]].decks| == 1
    ensures Report(b, loc) == Sunk
  {
    var s := Fired(b, loc).ships[b.field[loc]];
    assert IndexOf(b.ships[b.field[loc]].decks, loc) == 0;
    assert AllDead(s.decks);
  }

  /** A drowned ship stays drowned whatever is fired at. */
  lemma FireKeepsDrowned(b: Board, loc: Cell, j: nat)
    requires WellFormed(b) && 0 <= j < |b.ships| && b.ships[j].isDrowned
    ensures Fired(b, loc).ships[j].isDrowned
  {
  }

  /** Firing twice at the same cell leaves the board as firing once does, and reports the same. */
  lemma FireIdempotent(b: Board, loc: Cell)
    requires WellFormed(b)
    ensures Fired(Fired(b, loc), loc) == Fired(b, loc)
    ensures Report(Fired(b, loc), loc) == Report(b, loc)
  {
    if loc in b.field {
      var i := b.field[loc];
      var once := Fired(b, loc);
      FireShipIdempotent(b.ships[i], loc);
      assert Fired(once, loc).ships == once.ships;
    }
  }

  /** Two boards with the same field and the same cells for every ship. */
  predicate SameLayout(a: Board, b: Board) {
    && a.field == b.field && |a.ships| == |b.ships|
    && forall j :: 0 <= j < |a.ships| ==> Locations(a.ships[j].decks) == Locations(b.ships[j].decks)
  }

  /** Firing moves no deck. */
  lemma FiredSameLayout(b: Board, loc: Cell)
    requires WellFormed(b)
    ensures SameLayout(Fired(b, loc), b)
  {
  }

  /** Boards with the same layout have the same census and the same clashes. */
  lemma SameLayoutCounts(a: Board, b: Board)
    requires SameLayout(a, b)
    ensures forall i :: LengthOf(a, i) == LengthOf(b, i)
    ensures forall ids, len :: CountOfLength(a, ids, len) == CountOfLength(b, ids, len)
    ensures forall i, k, d :: Clash(a, i, k, d) == Clash(b, i, k, d)
  {
    forall i: nat ensures LengthOf(a, i) == LengthOf(b, i) {
      if i < |a.ships| {
        assert |Locations(a.ships[i].decks)| == |Locations(b.ships[i].decks)|;
      }
    }
    forall ids: set<nat>, len: int ensures CountOfLength(a, ids, len) == CountOfLength(b, ids, len) {
      assert (set i | i in ids && LengthOf(a, i) == len) == (set i | i in ids && LengthOf(b, i) == len);
    }
    forall i: nat, k: nat, d: nat ensures Clash(a, i, k, d) == Clash(b, i, k, d) {
      if i < |a.ships| && 0 <= k < |a.ships[i].decks| {
        assert a.ships[i].decks[k].location == Locations(a.ships[i].decks)[k];
        assert b.ships[i].decks[k].location == Locations(b.ships[i].decks)[k];
      }
    }
  }

  /** Boards with the same layout get the same validation verdict. */
  lemma SameLayoutVerdict(a: Board, b: Board)
    requires SameLayout(a, b)
    ensures Validate(a) == Validate(b)
  {
    SameLayoutCounts(a, b);
    assert LengthsCounted(a) == LengthsCounted(b);
    assert HasClash(a) == HasClash(b);
    assert Census(a, ShipIds(a)) == Census(b, ShipIds(b));
  }

  /** Boards with the same layout obey the fleet rules alike. */
  lemma SameLayoutRules(a: Board, b: Board)
    requires SameLayout(a, b)
    ensures FleetRules(a) <==> FleetRules(b)
  {
    SameLayoutCounts(a, b);
  }

  /** Firing changes no placement, so the validation verdict and the fleet rules stay as they were. */
  lemma FireKeepsVerdict(b: Board, loc: Cell)
    requires WellFormed(b)
    ensures Validate(Fired(b, loc)) == Validate(b)
    ensures FleetRules(Fired(b, loc)) <==> FleetRules(b)
  {
    FiredSameLayout(b, loc);
    SameLayoutVerdict(Fired(b, loc), b);
    SameLayoutRules(Fired(b, loc), b);
  }

  /** Firing keeps every ship still in the field holding all its cells. */
  lemma FireKeepsExclusive(b: Board, loc: Cell)
    requires WellFormed(b) && Exclusive(b)
    ensures Exclusive(Fired(b, loc))
  {
    var r := Fired(b, loc);
    FiredSameLayout(b, loc);
    forall i, k | i in ShipIds(r) && i < |r.ships| && 0 <= k < |r.ships[i].decks|
      ensures r.ships[i].decks[k].location in r.field && r.field[r.ships[i].decks[k].location] == i
    {
      assert r.ships[i].decks[k].location == Locations(r.ships[i].decks)[k] == Locations(b.ships[i].decks)[k];
    }
  }

  // ---------------------------------------------------------------------
  // The symbol grid (Battleship.print_field)
  // ---------------------------------------------------------------------

  const Water: char := '~'
  const SunkDeck: char := 'x'
  const HitDeck: char := '*'
  const LiveDeck: char := '\U{25A1}'

  /** The symbol print_field shows at c. */
  function SymbolAt(b: Board, c: Cell): char
    requires WellFormed(b)
  {
    if c !in b.field then Water
    else
      var s := b.ships[b.field[c]];
      if s.isDrowned then SunkDeck
      else if !s.decks[IndexOf(s.decks, c)].isAlive then HitDeck
      else LiveDeck
  }

  /** The fired cell shows damage afterwards: x if its ship sank, * otherwise. */
  lemma FiredCellShowsDamage(b: Board, loc: Cell)
    requires WellFormed(b) && loc in b.field
    ensures SymbolAt(Fired(b, loc), loc) == (if Report(b, loc) == Sunk then SunkDeck else HitDeck)
  {
    var i := b.field[loc];
    assert IndexOf(Fired(b, loc).ships[i].decks, loc) == IndexOf(b.ships[i].decks, loc) by {
      FireShipIdempotent(b.ships[i], loc);
      var s, t := b.ships[i], Fired(b, loc).ships[i];
      var k, k' := IndexOf(s.decks, loc), IndexOf(t.decks, loc);
      assert t.decks[k].location == Locations(t.decks)[k] == Locations(s.decks)[k] == loc;
      assert s.decks[k'].location == Locations(s.decks)[k'] == Locations(t.decks)[k'] == loc;
    }
  }

  /** After a shot that sinks a ship, every cell of that ship shows x. */
  lemma SunkShipShowsX(b: Board, loc: Cell, c: Cell)
    requires WellFormed(b) && loc in b.field && Report(b, loc) == Sunk
    requires c in b.field && b.field[c] == b.field[loc]
    ensures SymbolAt(Fired(b, loc), c) == SunkDeck
  {
  }

  /**
   * A miss changes no symbol; a hit that does not sink changes only the
   * symbol of the cell fired at, when the ship's cells are distinct.
   */
  lemma ShotChangesOnlyTarget(b: Board, loc: Cell, c: Cell)
    requires WellFormed(b) && c != loc
    requires loc in b.field ==> Report(b, loc) == Hit && DistinctLocations(b.ships[b.field[loc]].decks)
    ensures SymbolAt(Fired(b, loc), c) == SymbolAt(b, c)
  {
    if loc in b.field && c in b.field && b.field[c] == b.field[loc] {
      var i := b.field[loc];
      var s, t := b.ships[i], Fired(b, loc).ships[i];
      var k, kc := IndexOf(s.decks, loc), IndexOf(s.decks, c);
      assert kc != k;
      assert IndexOf(t.decks, c) == kc by {
        var kc' := IndexOf(t.decks, c);
        assert t.decks[kc].location == Locations(t.decks)[kc] == Locations(s.decks)[kc] == c;
        assert s.decks[kc'].location == Locations(s.decks)[kc'] == Locations(t.decks)[kc'] == c;
      }
    }
  }

  /**
   * The grid print_field is filling: cells still to do show water, the
   * others the symbol of the board.
   */
  predicate Painted(grid: seq<seq<char>>, b: Board, todo: set<Cell>) {
    && WellFormed(b)
    && |grid| == 10 && (forall r :: 0 <= r < 10 ==> |grid[r]| == 10)
    && forall r, c {:trigger grid[r][c]} :: 0 <= r < 10 && 0 <= c < 10 ==>
         grid[r][c] == if (r, c) in todo then Water else SymbolAt(b, (r, c))
  }

  /** Writing the symbol of one cell still to do. */
  lemma PaintStep(grid: seq<seq<char>>, b: Board, todo: set<Cell>, loc: Cell)
    requires Painted(grid, b, todo) && loc in todo && 0 <= loc.0 < 10 && 0 <= loc.1 < 10
    ensures Painted(grid[loc.0 := grid[loc.0][loc.1 := SymbolAt(b, loc)]], b, todo - {loc})
  {
  }
}
