# Battleship fleet engine

A model of the fleet engine in `app/main.py`, written in Dafny, with proofs about it.

- A `Ship` is built from a `(start, end)` placement. It holds an ordered list of decks, each with a cell and an alive flag, plus a drowned flag. Firing at one of its cells kills that deck. Once every deck is dead, the ship is drowned and stays drowned.
- A `Battleship` board builds one ship per placement. Its field maps every deck cell to the owning ship object, and a later placement takes over a cell an earlier one shared. The board then checks three rules and refuses the field when one is broken:
  - exactly ten distinct ships;
  - four ships of length 1, three of length 2, two of length 3 and one of length 4;
  - no deck with a neighbour cell, in any of the eight directions, that belongs to a different ship.
- `fire` answers `Miss!`, `Hit!` or `Sunk!`.
- `print_field` draws a 10 × 10 grid of symbols:
  - `~` for water;
  - `x` for a sunk ship;
  - `*` for a dead deck of a ship that is still afloat;
  - `□` for a live deck.

The project has four files:

- `wrappers.dfy` (module `Wrappers`): `Option` and `Result`.
- `ship.dfy` (module `Ships`): decks and ships.
  - The value `ShipState` is what the module's specification functions work on: `LaunchDecks` for `Ship.__init__`, `IndexOf` for `get_deck` and `FireShip` for `fire`. `FireAll`, which fires at a sequence of cells, exists only for the lemma `FireAllDrowned`.
  - The class `Ship` has methods that update the object in place, proved against those functions.
- `board.dfy` (module `Boards`): the board as a value, `Board(ships, field)`.
  - `ships` is the arena of ship states in placement order.
  - `field` maps each occupied cell to the index of its ship. Indices stand for the identity of the source's `Ship` objects, so the distinct ships of the field are `field.Values`.
  - The module also holds the validation verdict `Validate`, the fleet rules stated directly (`FleetRules`), firing (`Fired`, `Report`), the symbol of a cell (`SymbolAt`), and the lemmas relating them.
- `battleship.dfy` (module `Game`): the class `Battleship`.
  - Its fields are the arena `ships: seq<Ship>` and `field: map<Cell, nat>`, so many cells share one `Ship` object, as in the source.
  - Every instance method states its result, or its new state, in terms of the `Boards` value `View()`. The static helpers `Build`, `Enlist` and `RegisterDecks` are stated with `LaunchAll`, `FieldUpTo` and `Register`.

The constructor of the source both builds and validates. It raises `ValueError` when a rule is broken, or `KeyError` (line 64) for a ship whose length the census does not count. Dafny constructors cannot fail, so the work is split three ways:

- the `Battleship` constructor builds the field;
- `ValidateField` is `_validate_field`;
- the static `New` is `__init__` as a whole and returns a `Result` that carries the error.

The neighbour scan (app/main.py:79-86) looks at every deck of every distinct ship, including decks whose cell a later placement took over. `Clash` and `ShipNeighbour` do the same. On every board the constructor builds, this scan finds a clash exactly when two touching occupied cells have different owners (`AssembledClashApart`): a launched ship's decks form a chain of touching cells. So on built boards the source accepts exactly the fields that obey the fleet rules (`AssembledVerdict`), and such a field has 20 cells (`AcceptedFieldSize`).

## Model

| member | source | states |
|---|---|---|
| Ships.LaunchDecks | app/main.py:19-28 | the decks `Ship.__init__` builds: one live deck per cell of `range(start.1, end.1 + 1)` along `start`'s row when the rows agree, otherwise one per cell of `range(start.0, end.0 + 1)` down `start`'s column; its contract is `LaunchDecksShape` |
| Ships.Launch | app/main.py:13-29 | the state `Ship.__init__` leaves: those decks and not drowned; its contract is `LaunchAfloat` |
| Ships.LaunchChained | app/main.py:19-28 | consecutive decks of a freshly built ship lie on touching cells |
| Ships.RangeSpec | app/main.py:19-28 | `range(lo, hi)` has `hi - lo` elements, none when `hi <= lo`, and element `i` is `lo + i` |
| Ships.LaunchDecksShape | app/main.py:19-28 | equal rows give the live decks `(start.0, start.1 + i)` for `start.1 <= start.1 + i <= end.1`; otherwise the live decks `(start.0 + i, start.1)` down `start`'s column, up to `end`'s row |
| Ships.LaunchDistinct | app/main.py:19-28 | no two decks of a freshly built ship share a cell |
| Ships.LaunchAfloat | app/main.py:19-29 | a new ship is not drowned, all its decks are alive, and its drowned flag agrees with its decks |
| Ships.IndexOf | app/main.py:31-34 | the deck `get_deck` returns is at the cell asked for, and no earlier deck is |
| Ships.FireShip | app/main.py:36-40 | the found deck is dead and every other deck is unchanged; no deck moves; drowned afterwards exactly when it was drowned before or every deck is now dead, so the flag is never reset |
| Ships.FireShipConsistent | app/main.py:36-40 | firing keeps "drowned exactly when every deck is dead" true |
| Ships.FireShipIdempotent | app/main.py:36-40 | firing twice at the same cell leaves the state that firing once leaves |
| Ships.FireAllDrowned | app/main.py:36-40 | after firing at any sequence of its own cells, a consistent ship with distinct cells is drowned exactly when every deck was dead already or was fired at |
| Ships.Ship.constructor | app/main.py:13-29 | the new object holds `Launch(start, end)` |
| Ships.Ship.GetDeck | app/main.py:31-34 | the loop returns the position of the first deck at `(row, column)` |
| Ships.Ship.Fire | app/main.py:36-40 | the object's new state is `FireShip` of its old state |
| Boards.Register | app/main.py:51-52 | the field after the inner loop writes, in order, each deck's cell as owned by ship `i`; its contract is `RegisterSpec` |
| Boards.FieldOf | app/main.py:48-52 | the field after the outer loop has registered every ship's decks in placement order; its contract is `FieldOfKeys` and `FieldOfOwners` |
| Boards.RegisterSpec | app/main.py:51-52 | writing a ship's decks adds exactly their cells to the field; they map to that ship, and every other cell keeps its owner |
| Boards.FieldOfKeys | app/main.py:48-52 | the field's keys are exactly the cells some ship covers |
| Boards.FieldOfOwners | app/main.py:48-52 | each cell maps to a ship that covers it, and no later ship covers it: the last write wins |
| Boards.Assemble | app/main.py:48-52 | the built board is well formed: every occupied cell names a ship with a deck there |
| Boards.AssembleExclusive | app/main.py:48-52 | when no two placements share a cell, every deck of every ship maps to that ship, so `Exclusive` holds |
| Boards.RepeatedPlacementDropsShip | app/main.py:48-52 | placing the same one-deck ship twice leaves the first ship with no cell in the field: the field holds only ship 1, and `Exclusive` still holds because it speaks only of ships still in the field |
| Boards.ChainSplits | app/main.py:79-86 | proof step of `AssembledClashApart`: along a chain of touching occupied cells that runs from a cell owned elsewhere to a cell owned by ship i, two touching cells have different owners |
| Boards.OverwrittenShipTouches | app/main.py:48-52 | on a built board, every deck of a distinct ship is occupied; if a later ship took one of its cells, two touching cells have different owners |
| Boards.AssembledClashApart | app/main.py:79-86 | on a built board, the scan finds a clash exactly when two touching occupied cells have different owners |
| Boards.AssembledRulesExclusive | app/main.py:48-52 | on a built board that obeys the fleet rules, every ship still in the field keeps all its cells (`Exclusive`) |
| Boards.AssembledVerdict | app/main.py:56-86 | the source accepts a built board exactly when that board obeys the fleet rules |
| Boards.AssembleConsistent | app/main.py:19-29 | every ship the constructor builds is drowned exactly when all its decks are dead |
| Boards.DistinctCount | app/main.py:48-52 | proof step of `FleetCellCount`: a sequence of pairwise different cells has as many distinct cells as elements |
| Boards.ShipCells | app/main.py:48-52 | when every ship still in the field keeps all its cells, such a ship with distinct cells owns one cell per deck |
| Boards.WeightEmpty | app/main.py:62-64 | proof step of `FleetCellCount`: no ships own no cells and have census weight 0 |
| Boards.WeightStep | app/main.py:62-64 | one more ship adds its length to the census weight |
| Boards.CellsOwnedSplit | app/main.py:48-52 | proof step of `FleetCellCount`: the cells owned by a set of ships split into those of one ship and those of the rest |
| Boards.CellsOwnedCount | app/main.py:48-64 | when every ship still in the field keeps all its cells, a set of ships owns exactly as many cells as its census weight |
| Boards.FleetCellCount | app/main.py:62-67 | a field that obeys the fleet rules, where every ship still in the field keeps all its cells and no ship covering a cell twice, has 4·1 + 3·2 + 2·3 + 1·4 = 20 cells |
| Boards.AcceptedFieldSize | app/main.py:44-86 | every field the source accepts has exactly 20 occupied cells |
| Boards.CountStep | app/main.py:63-64 | counting one more ship adds one to its length's count and nothing to any other |
| Boards.CensusComplete | app/main.py:62-65 | once every distinct ship is counted and every length is 1 to 4, the counts are the census of the field |
| Boards.NoClash | app/main.py:79-86 | when every distinct ship's scan is clear, no deck of any ship clashes |
| Boards.DirectionsTouch | app/main.py:69-78 | the eight directions reach exactly the cells that touch a cell by a side or a corner |
| Boards.NoClashApart | app/main.py:79-86 | without a clash, touching occupied cells belong to the same ship |
| Boards.ValidateSound | app/main.py:56-86 | a field the source accepts has 10 distinct ships, all of length 1 to 4, with 5 − len ships of each length len, and no two touching cells owned by different ships |
| Boards.ValidateComplete | app/main.py:56-86 | a field that obeys those rules, where every ship still in the field keeps all its cells, is accepted |
| Boards.ValidateNeighbours | app/main.py:79-86 | on a field where every ship still in the field keeps all its cells, the neighbour refusal names two touching cells owned by different ships |
| Boards.Validate | app/main.py:56-86 | the first rule the source finds broken, in its order: the number of distinct ships, a length the census does not count (the `KeyError`), the census, then the neighbour scan; its contracts are `ValidateSound`, `ValidateComplete` and `AssembledVerdict` |
| Boards.Fired | app/main.py:88-93 | a miss changes nothing; otherwise only the owning ship is fired at, every other ship is unchanged, and the field stays as it was |
| Boards.Report | app/main.py:88-97 | the answer is `Miss!` exactly when the cell is unoccupied |
| Boards.ReportSunk | app/main.py:92-97 | on a consistent board, the answer is Sunk exactly when the owner has no live deck left, and Hit exactly when it has one; the board stays consistent |
| Boards.SingleDeckSinks | app/main.py:92-97 | the only deck of a one-deck ship sinks it on the first shot |
| Boards.FireKeepsDrowned | app/main.py:39-40 | a drowned ship stays drowned whatever is fired at |
| Boards.FireIdempotent | app/main.py:88-97 | firing twice at a cell leaves the board that firing once leaves, and gives the same answer |
| Boards.FiredSameLayout | app/main.py:88-93 | firing moves no deck and changes no field entry |
| Boards.SameLayoutCounts | app/main.py:56-86 | boards with the same layout have the same lengths, the same counts and the same clashes |
| Boards.SameLayoutVerdict | app/main.py:56-86 | boards with the same layout get the same validation verdict |
| Boards.SameLayoutRules | app/main.py:56-86 | boards with the same layout obey the fleet rules alike |
| Boards.FireKeepsVerdict | app/main.py:88-93 | firing changes neither the validation verdict nor the fleet rules |
| Boards.FireKeepsExclusive | app/main.py:88-93 | firing keeps every ship still in the field holding all its cells |
| Boards.SymbolAt | app/main.py:102-109 | the symbol `print_field` writes at a cell: `~` for water, `x` for a drowned owner, `*` for a dead deck, `□` for a live one, tested in that order; its contracts are `FiredCellShowsDamage`, `SunkShipShowsX` and `ShotChangesOnlyTarget` |
| Boards.FiredCellShowsDamage | app/main.py:102-109 | after a shot, the cell fired at shows `x` if its ship sank and `*` otherwise |
| Boards.SunkShipShowsX | app/main.py:102-105 | after a shot that sinks a ship, every cell of that ship shows `x` |
| Boards.ShotChangesOnlyTarget | app/main.py:102-109 | a miss changes no symbol; a hit that does not sink changes only the symbol of the cell fired at |
| Boards.PaintStep | app/main.py:102-109 | writing the symbol of one cell still to do keeps the grid painted up to the cells left |
| Game.Battleship.constructor | app/main.py:48-52 | the new object is valid (distinct ship objects, every cell owned by a ship with a deck there, every ship drowned exactly when all its decks are dead), its ships are fresh, and it holds `Assemble(placements)` |
| Game.Battleship.Build | app/main.py:48-52 | the loop builds fresh, pairwise distinct ships in placement order, and their field |
| Game.Battleship.Enlist | app/main.py:50-52 | one pass of the loop: a fresh ship for placement `i`, with its decks registered |
| Game.Battleship.RegisterDecks | app/main.py:51-52 | the inner loop writes each deck's cell as owned by ship `i` |
| Game.Battleship.ValidateField | app/main.py:56-86 | the method's verdict is `Validate` of the board it holds |
| Game.Battleship.CountShipLengths | app/main.py:57-65 | the counting loop succeeds exactly when every distinct ship has length 1 to 4, and then returns the census |
| Game.Battleship.FindNeighbour | app/main.py:79-86 | the scan finds a clash exactly when some deck of some distinct ship has a neighbour owned by another ship |
| Game.Battleship.ShipNeighbour | app/main.py:80-86 | the scan of one ship finds a clash exactly when that ship is not clear |
| Game.Battleship.New | app/main.py:44-54 | a board is returned exactly when `Validate` accepts the built field, and otherwise the error `Validate` names; by `ValidateSound`, an accepted board obeys the fleet rules |
| Game.Battleship.Fire | app/main.py:88-97 | the board stays valid, including every ship's drowned flag agreeing with its decks, its new value is `Fired` of the old one, and the answer is `Report` of the old one |
| Game.Battleship.Render | app/main.py:99-109 | the grid is 10 × 10, and each cell holds `SymbolAt` of the board |
| Game.Battleship.CellSymbol | app/main.py:102-109 | the symbol written for an occupied cell is `SymbolAt` of the board |

## Left out

- Printing the grid, at app/main.py:111-112, is standard-output I/O. `Render` returns the grid instead.
- `Ships.Ship.GetDeck`, `Ships.Ship.Fire` and `Ships.FireShip` require the cell to belong to the ship. `get_deck` returns `None` otherwise, and `fire` then fails with `AttributeError`. `Battleship.fire` only ever calls them on a cell of the ship.
- Boards.Validate: the `KeyError` that `count_ship_len[len(ship.decks)] += 1` raises for a ship whose length is not 1 to 4 is modelled as the error `UnexpectedLength`, returned in place of the exception. A ship with no decks, built when `end` comes before `start`, gets no field entry and is not counted. Nor is a ship whose every cell a later placement takes over: it leaves the field (`Boards.RepeatedPlacementDropsShip`). So the source accepts more than ten placements, for instance a valid fleet with one of its one-deck placements repeated in front of it. The model reproduces this and does not add a check for it.
- Game.Battleship.Render requires every occupied cell to lie in rows and columns 0 to 9. The source raises `IndexError` for indices above 9 or below -10, and wraps around for -10 to -1. The model does not reproduce either behaviour.
- A placement whose start and end differ in both row and column is modelled as written: the ship runs down `start`'s column, up to `end`'s row. No check is invented for it.
- Python object identity is represented by indices into the arena of ships. `Validate`, `Clash` and `ShipIds` speak about indices, and `Valid()` states that distinct indices hold distinct objects.
- Exceptions are modelled as values: `Option<FieldError>` and `Result`. `FieldError.Message()` keeps the three `ValueError` messages. For `UnexpectedLength` it gives the exception's class name, `KeyError`, and not the missing key. `Outcome.Message()` gives the strings that `fire` returns.
- The order in which Python iterates over a set or a dictionary is not modelled. The loops use `:|` to pick any element still to do, and their results do not depend on the order.
- Game.Battleship.New does not state the fleet rules in its own `ensures`. It states that success means `Validate(Assemble(placements)) == None`, and the lemma `Boards.ValidateSound` turns that into the fleet rules.
- Some loop bodies are split into helper methods:
  - `__init__`: `Build`, `Enlist` and `RegisterDecks`;
  - `_validate_field`: `CountShipLengths`, `FindNeighbour` and `ShipNeighbour`;
  - `print_field`: `CellSymbol`.

  `Build` and `RegisterDecks` keep the source's order. The loops over the set of ships and over the field's items pick an arbitrary element with `:|`, as said above.
- Boards.ShotChangesOnlyTarget and Ships.FireAllDrowned require a ship's cells to be distinct. Every ship the source builds has distinct cells (`Ships.LaunchDistinct`), and firing moves no deck.
- The optional arguments `is_alive` of `Deck.__init__` (app/main.py:6) and `is_drowned` of `Ship.__init__` (app/main.py:17) are not modelled. No caller passes them, so decks always start alive and ships always start afloat.
- `Deck` (app/main.py:1-9) is a plain value holder and is modelled as the datatype `Ships.Deck`. It has no operations of its own.
