# gg-game-api engine core, modelled in Dafny

This project models the engine state of the gg-game-api grid game and proves
properties of that model. The modelled classes live in the Java package
`edu.missouriwestern.csmp.gg.base`. There is one module per modelled
component:

- `Dispatch` describes the game's re-entrant event dispatcher as a state
  machine on values: `sendEvent`, `registerEventListener`, the in-delivery
  flag, the event history, the FIFO event queue and the deferred
  registrations. What a listener's `processGameEvent` does is a parameter,
  `react`: the calls it makes back into the game for each event it is handed.
- `Games` holds the `Game` class. Its methods run the dispatcher in place and
  are proved equal to the `Dispatch` functions. It also covers entity
  registration and removal, the time-ordered action queue, and the static
  game-type and configuration-parameter tables (class `GameTypes`).
- `Layouts` and `Boards` cover the `Board` constructor, a loop that reads a
  multi-line character map into tiles, and `getTileMap`, which writes the map
  back. The two are related by a round trip. `Boards` also has the grid
  queries.
- `Tiles` and `Players` are the two container classes, with their entity
  maps and sets and their property maps.
- `Locations`, `Directions` and `Colours` are the value types. `Locations`
  writes Java's 32-bit `int` wrap-around out explicitly.
- `Properties` and `Events` cover `HasProperties` (lookup and
  `serializeProperties`), the `Event`, whose properties cannot be set through it, and the property builder of
  `EntityMovedEvent`.
- `Commands` is the command-factory registry. `parseCommand` is built from
  `Text`, which models Java's `toUpperCase`, `trim` and `split(" ")`.
- `Decimal` models Java's decimal rendering of an `int`. `Seqs` holds
  sequence helpers.

The files come from different revisions of the repository, so the model
follows each file's own code. Collaborators that the shown revision lacks
become parameters:

- `getNextEventId` and `getGameTime` become the `GameView` argument of
  `Events.NewEvent`.
- `getEntityLocation` becomes the tile handed to `Tile.AddEntity` and
  `Game.RemoveEntity`.

Behaviour kept as the code has it:

- `containsEntity` asks an `Integer`-keyed map for an `Entity`, so it is
  always false. `Tiles.Tile.Valid` proves this, so `removeEntity`'s tile
  branch never runs.
- The `"container"` entry of an entity-moved event carries the moved
  entity's own id, not the container's.
- The dispatcher has these quirks:
  - Listeners are a `HashSet`, so each pass takes its iteration order as a
    parameter. Listeners are not called in registration order.
  - A registration deferred during a pass receives the event of that pass
    through the history replay.
  - Events sent during the replay of a top-level `registerEventListener`
    stay queued until the next top-level `sendEvent`, and are delivered after
    that newer event. Delivery is first-in-first-out apart from this case.
  - There is no unsubscribe: `Game` has no way to remove a listener.
- `registerEntity` and `removeEntity` never fail: neither throws or
  reports an error, whatever the entity.

## Model

| member | source | states |
|---|---|---|
| Dispatch.ReenterAllEffect | src/main/java/edu/missouriwestern/csmp/gg/base/Game.java:414-439 | a call made during a delivery does not deliver anything. It appends its event to the queue, or its listener to the deferred list, in call order, and leaves history and listeners unchanged |
| Dispatch.InvokeEffect | src/main/java/edu/missouriwestern/csmp/gg/base/Game.java:444-450 | one `processGameEvent` call logs that delivery. It queues the events the listener sends and defers the registrations it makes, and does nothing else |
| Dispatch.DeliveriesTo | src/main/java/edu/missouriwestern/csmp/gg/base/Game.java:420-421 | the replay to one listener is one delivery of each history event, in history order |
| Dispatch.ReplayEffect | src/main/java/edu/missouriwestern/csmp/gg/base/Game.java:420-421 | the replay loop delivers the history to the listener in its original order |
| Dispatch.RegisterTopEffect | src/main/java/edu/missouriwestern/csmp/gg/base/Game.java:414-424 | outside a delivery, registration replays the whole history to the new listener and then adds it to the set. Anything the listener sends during the replay stays queued |
| Dispatch.DeliverEffect | src/main/java/edu/missouriwestern/csmp/gg/base/Game.java:444-450 | the pass's loop makes exactly the deliveries of `PassLog`: each listener of the order that is eligible, with the event |
| Dispatch.PassEffect | src/main/java/edu/missouriwestern/csmp/gg/base/Game.java:440-451 | a top-level pass appends the event to the history once and makes the `PassLog` deliveries. Whatever the listeners send or register meanwhile is queued or deferred |
| Dispatch.PassLogMembers | src/main/java/edu/missouriwestern/csmp/gg/base/Game.java:444-450 | a delivery of the pass goes to a listener of the order exactly when the white list is null or contains it |
| Dispatch.PassLogNoDuplicates | src/main/java/edu/missouriwestern/csmp/gg/base/Game.java:443-450 | a pass over a duplicate-free snapshot calls no listener twice |
| Dispatch.PassDeliversToSnapshot | src/main/java/edu/missouriwestern/csmp/gg/base/Game.java:440-450 | a pass over an enumeration of the snapshot calls every eligible snapshot listener exactly once and no one else. Listeners registered during the pass are not in the snapshot |
| Dispatch.FlushEffect | src/main/java/edu/missouriwestern/csmp/gg/base/Game.java:451-457 | after the pass, each deferred registration is taken off the deferred list and registered, so each replays the history to its listener |
| Dispatch.FlushStep | src/main/java/edu/missouriwestern/csmp/gg/base/Game.java:454-456 | one more entry of the copied list: it is removed from the front of the deferred list, its replay follows the earlier ones, and the listener joins the set |
| Dispatch.CycleEffect | src/main/java/edu/missouriwestern/csmp/gg/base/Game.java:440-457 | a full cycle (pass, then flush). The event enters the history and reaches the snapshot listeners live. Listeners whose registration was deferred during the pass receive it through their history replay |
| Dispatch.CycleFifo | src/main/java/edu/missouriwestern/csmp/gg/base/Game.java:440-457 | one cycle appends the event to the history. Everything sent during the cycle joins the end of the queue, in the order sent |
| Dispatch.DrainFifo | src/main/java/edu/missouriwestern/csmp/gg/base/Game.java:435-460 | over a whole `sendEvent` run, the history followed by the queue is: the old history, the event, the old queue, then every event sent during the run, in order. The event enters the history right after the old history |
| Games.Game.constructor | src/main/java/edu/missouriwestern/csmp/gg/base/Game.java:30-50 | the field initialisers: no history, listeners, queue or deferred registrations, and the flag down. No entities or players, ids start at 0, time 0 and no timed actions |
| Games.Game.ProcessGameEvent | src/main/java/edu/missouriwestern/csmp/gg/base/Game.java:444-450 | a listener callback equals `Dispatch.Invoke`: each call it makes goes through `sendEvent` or `registerEventListener` while the flag is up. The registry is untouched |
| Games.Game.RegisterEventListener | src/main/java/edu/missouriwestern/csmp/gg/base/Game.java:414-424 | equals `Dispatch.RegisterListener`. During a delivery the listener is only appended to the deferred list. Otherwise the history is replayed to it in order and it joins the set |
| Games.Game.PassEvent | src/main/java/edu/missouriwestern/csmp/gg/base/Game.java:440-451 | the live pass equals `Dispatch.Pass` for the order it used. That order lists exactly the listeners present when the pass began |
| Games.Game.FlushDeferred | src/main/java/edu/missouriwestern/csmp/gg/base/Game.java:451-457 | the loop over the copied deferred list equals `Dispatch.Flush` of that copy |
| Games.Game.SendOnce | src/main/java/edu/missouriwestern/csmp/gg/base/Game.java:440-457 | a top-level send without its tail call equals `Dispatch.Cycle`, over an order that enumerates the listeners |
| Games.Game.SendEvent | src/main/java/edu/missouriwestern/csmp/gg/base/Game.java:435-460 | during a delivery it only appends the event to the queue and changes nothing else. Otherwise it equals `Dispatch.DrainSteps`, each pass enumerating the current listeners, and the queue is empty when it stops before the fuel runs out |
| Games.Game.RegisterEntity | src/main/java/edu/missouriwestern/csmp/gg/base/Game.java:328-335 | returns the counter, which moves on by one in 32-bit arithmetic. `getEntity(id)` is then the entity and no other entry changes. A valid counter below the int maximum hands out an unused id and stays valid |
| Games.Game.GetEntity | src/main/java/edu/missouriwestern/csmp/gg/base/Game.java:216 | the entity registered under the id, or null when the id is not registered |
| Games.Game.GetEntities | src/main/java/edu/missouriwestern/csmp/gg/base/Game.java:210 | exactly the registered entities |
| Games.Handover | src/main/java/edu/missouriwestern/csmp/gg/base/Game.java:342-358 | what a holder of the removed entity is left with: its other entities, plus what the removed entity held when it is a container, and never the removed entity. A collection that does not hold it is unchanged |
| Games.HandOverAll | src/main/java/edu/missouriwestern/csmp/gg/base/Game.java:350-360 | the visited container entities have handed over; every other entry of the contents table is unchanged |
| Games.HandOverAllRemoves | src/main/java/edu/missouriwestern/csmp/gg/base/Game.java:350-360 | after the loop, no container holds the removed entity. Each keeps its other entities, and one that held it also holds the removed entity's contents |
| Games.Game.HandOverFromPlayers | src/main/java/edu/missouriwestern/csmp/gg/base/Game.java:342-349 | every player ends with `Handover` of what it held, and every player's properties are unchanged |
| Games.Game.HandOverFromContainers | src/main/java/edu/missouriwestern/csmp/gg/base/Game.java:350-360 | the contents table ends as `HandOverAll` over every registered entity. A second visit to the same entity changes nothing |
| Games.Game.RemoveEntity | src/main/java/edu/missouriwestern/csmp/gg/base/Game.java:340-370 | players and container entities hand over as above. The tile branch does nothing, and the entry under the entity's id is removed. The dispatcher, the id counter, the set of players, each player's properties, the time and the action queue are unchanged; the counter does not move back to the removed id |
| Games.InsertionPoint | src/main/java/edu/missouriwestern/csmp/gg/base/Game.java:384-391 | the position before the first entry due strictly later, or the end. Every earlier entry is due no later |
| Games.InsertKeepsSorted | src/main/java/edu/missouriwestern/csmp/gg/base/Game.java:381-393 | inserting at the insertion point keeps a time-sorted queue sorted |
| Games.InsertAddsOne | src/main/java/edu/missouriwestern/csmp/gg/base/Game.java:381-393 | the queue grows by exactly the new entry. The other entries keep their order, so multisets are equal up to the new entry |
| Games.InsertIsStable | src/main/java/edu/missouriwestern/csmp/gg/base/Game.java:384-386 | in a sorted queue, every entry due no later than the new one stays ahead of it. So equal-time actions run in registration order |
| Games.Game.RegisterTimedAction | src/main/java/edu/missouriwestern/csmp/gg/base/Game.java:381-393 | the index loop leaves the queue equal to `Insert` of the action, due `t` after the current game time |
| Games.ParameterNames | src/main/java/edu/missouriwestern/csmp/gg/base/Game.java:101-107 | no names for an unknown game type. Otherwise exactly the names of the type's parameters |
| Games.GameTypes.constructor | src/main/java/edu/missouriwestern/csmp/gg/base/Game.java:21-22 | both static tables start empty |
| Games.GameTypes.RegisterGameType | src/main/java/edu/missouriwestern/csmp/gg/base/Game.java:62-64 | the game type now maps to this factory. Every other type's factory is unchanged |
| Games.GameTypes.GetGameFactory | src/main/java/edu/missouriwestern/csmp/gg/base/Game.java:75 | the registered factory, or null for an unknown type |
| Games.GameTypes.AddConfigurationParameter | src/main/java/edu/missouriwestern/csmp/gg/base/Game.java:95-99 | the (name, type) pair joins the game type's set, which is created empty on first use. No other type's names change |
| Games.GameTypes.GetParameterNames | src/main/java/edu/missouriwestern/csmp/gg/base/Game.java:101-107 | the loop collects exactly `ParameterNames` of the type |
| Games.GameTypes.GetParameterType | src/main/java/edu/missouriwestern/csmp/gg/base/Game.java:109-115 | the type of a parameter with that name. If the game type has no parameter of that name, the model returns the `IllegalArgumentException` case |
| Layouts.Run | src/main/java/edu/missouriwestern/csmp/gg/base/Board.java:40-59 | the loop records only key characters other than a line break |
| Layouts.Layout | src/main/java/edu/missouriwestern/csmp/gg/base/Board.java:39-59 | every cell of the constructor's tile map comes from a key character other than a line break |
| Layouts.LayoutKinds | src/main/java/edu/missouriwestern/csmp/gg/base/Board.java:46-55 | a tile's type is `tileTypeChars.get(c)` of its character; exactly the cells of the layout have one |
| Layouts.RunAt | src/main/java/edu/missouriwestern/csmp/gg/base/Board.java:40-58 | the loop's column and row counters are the cursor of the text read so far |
| Layouts.CursorMeaning | src/main/java/edu/missouriwestern/csmp/gg/base/Board.java:40-58 | the row counts the line breaks read. The column counts the characters since the last line break, or since the start; unknown characters count too |
| Layouts.CursorMovesForward | src/main/java/edu/missouriwestern/csmp/gg/base/Board.java:40-58 | reading on moves the cursor to a later row, or along the same row by exactly the number of characters read |
| Layouts.CursorInjective | src/main/java/edu/missouriwestern/csmp/gg/base/Board.java:40-58 | two positions of the text never share a cursor, so no tile is made twice at one place |
| Layouts.LayoutSnoc | src/main/java/edu/missouriwestern/csmp/gg/base/Board.java:41-58 | one more character adds a tile under the cursor when it is a key and no line break, and nothing otherwise |
| Layouts.LayoutMeaning | src/main/java/edu/missouriwestern/csmp/gg/base/Board.java:39-59 | a tile is made at the cursor of a character exactly when that character is a key other than a line break, and with that character. There are no other tiles |
| Layouts.RenderLength | src/main/java/edu/missouriwestern/csmp/gg/base/Board.java:192-205 | the rendered text has `height` lines of `width + 1` characters |
| Layouts.RenderAt | src/main/java/edu/missouriwestern/csmp/gg/base/Board.java:192-205 | at row r, column c the text holds that cell's character or a blank, and a line break after the last column |
| Layouts.RenderRoundTrip | src/main/java/edu/missouriwestern/csmp/gg/base/Board.java:36-205 | reading a rendered map back, when the blank is not a key, gives the same cells with the same characters |
| Boards.InverseMeansInjective | src/main/java/edu/missouriwestern/csmp/gg/base/Board.java:62 | a map that has an inverse names no tile type twice |
| Boards.CreateBiMap | src/main/java/edu/missouriwestern/csmp/gg/base/Board.java:62 | `HashBiMap.create` succeeds exactly when no two characters share a type, and then returns the inverse map |
| Boards.TileProperties | src/main/java/edu/missouriwestern/csmp/gg/base/Board.java:47-53 | a tile's properties are the type's properties, overridden key by key by the location's |
| Boards.NewTile | src/main/java/edu/missouriwestern/csmp/gg/base/Board.java:47-55 | a fresh, empty tile of this board at the cursor, of the type the character names, with the merged properties |
| Boards.ReadChar | src/main/java/edu/missouriwestern/csmp/gg/base/Board.java:41-58 | one turn of the loop advances the scan by `Step`. It keeps every tile made so far and adds only fresh ones |
| Boards.MakeTiles | src/main/java/edu/missouriwestern/csmp/gg/base/Board.java:39-59 | the loop makes a fresh tile at exactly the cells of `Layout`. Each is empty, at its own coordinate, of the type its character names, with the merged properties |
| Boards.Board.Build | src/main/java/edu/missouriwestern/csmp/gg/base/Board.java:36-64 | the constructor fails exactly when two characters share a type. Otherwise the board is valid, its types by coordinate are `LayoutKinds` of the map, and its tiles are fresh and empty with the merged properties |
| Boards.Board.Glyphs | src/main/java/edu/missouriwestern/csmp/gg/base/Board.java:199 | the character written for each tile maps back to the tile's type |
| Boards.Board.GetTile | src/main/java/edu/missouriwestern/csmp/gg/base/Board.java:152-156 | the tile at that coordinate exactly when `locationExists`, and null otherwise |
| Boards.TileAtItsLocation | src/main/java/edu/missouriwestern/csmp/gg/base/Board.java:152-156 | `getTile` finds every tile at its own column and row |
| Boards.AdjacentTileIsOneStep | src/main/java/edu/missouriwestern/csmp/gg/base/Board.java:101-113 | a found neighbour is one step away (NORTH row - 1, SOUTH row + 1, WEST column - 1, EAST column + 1). Both the board and the location name the direction stepped |
| Boards.Board.GetAdjacentTileDirection | src/main/java/edu/missouriwestern/csmp/gg/base/Board.java:126-134 | columns decide first (WEST when `from` is further east, EAST otherwise), then rows. SOUTH when both tiles share a place |
| Boards.DirectionConventionsDiffer | src/main/java/edu/missouriwestern/csmp/gg/base/Board.java:126-134 | for any two tiles that differ in both column and row, the board names EAST or WEST where the location names NORTH or SOUTH. For a tile compared with itself the board says SOUTH where the location says null |
| Boards.Board.Width | src/main/java/edu/missouriwestern/csmp/gg/base/Board.java:175-179 | one more than the largest column of any tile. Undefined on a board without tiles |
| Boards.Board.Height | src/main/java/edu/missouriwestern/csmp/gg/base/Board.java:181-185 | one more than the largest row of any tile. Undefined on a board without tiles |
| Seqs.Max | src/main/java/edu/missouriwestern/csmp/gg/base/Board.java:176-178 | `IntStream.max` of a non-empty set is an element that no element exceeds |
| Boards.Board.TileMap | src/main/java/edu/missouriwestern/csmp/gg/base/Board.java:192-205 | the nested loops produce `Render` of the glyphs over width and height. An empty board has no height, so it fails |
| Boards.TileMapShape | src/main/java/edu/missouriwestern/csmp/gg/base/Board.java:192-205 | getHeight() lines of getWidth() characters, each line ending in a line break, with each tile's character in its place and blanks elsewhere |
| Boards.TileMapRoundTrip | src/main/java/edu/missouriwestern/csmp/gg/base/Board.java:36-205 | building a board from `getTileMap()` with the same character map gives tiles at the same coordinates with the same types, when the blank is not a key |
| Tiles.Tile.constructor | src/main/java/edu/missouriwestern/csmp/gg/base/Tile.java:27-32 | keeps its own copy of the given properties; no entities and no board updates |
| Tiles.Tile.GetEntity | src/main/java/edu/missouriwestern/csmp/gg/base/Tile.java:87-89 | the held entity with this id, or null when none has it |
| Tiles.Tile.ContainsEntity | src/main/java/edu/missouriwestern/csmp/gg/base/Tile.java:96-98 | as written, false for every entity |
| Tiles.Tile.ContainsEntityType | src/main/java/edu/missouriwestern/csmp/gg/base/Tile.java:104-107 | true exactly when some held entity has that type |
| Tiles.Tile.IsEmpty | src/main/java/edu/missouriwestern/csmp/gg/base/Tile.java:122 | true exactly when `getEntity` is null for every id |
| Tiles.Tile.RemoveEntity | src/main/java/edu/missouriwestern/csmp/gg/base/Tile.java:113-116 | afterwards `getEntity(ent.getID())` is null, and the entries under other ids are unchanged |
| Tiles.Tile.AddEntity | src/main/java/edu/missouriwestern/csmp/gg/base/Tile.java:72-79 | the entity is first taken off the tile that held it, then stored under its id. `getEntity` finds it, `isEmpty` is false, the type is contained, and the entries under other ids are unchanged |
| Tiles.AddKeepsOneHolder | src/main/java/edu/missouriwestern/csmp/gg/base/Tile.java:72-79 | at most one tile holds an entity: if only `previous` among the tiles held it, then after `addEntity` on `target` the target holds it and no other tile does |
| Tiles.Tile.SetProperty | src/main/java/edu/missouriwestern/csmp/gg/base/Tile.java:129-133 | maps the key to the value, leaves the other keys unchanged, and hands the board exactly one update for this location |
| Tiles.Tile.GetProperty | src/main/java/edu/missouriwestern/csmp/gg/base/Tile.java:124-127 | a property of this tile's own map, or the missing-property error |
| Players.Player.constructor | src/main/java/edu/missouriwestern/csmp/gg/base/Player.java:24-27 | stores the id, which `getID` returns, keeps its own copy of the properties, and holds nothing |
| Players.Player.Named | src/main/java/edu/missouriwestern/csmp/gg/base/Player.java:30-32 | empty properties; the name is not stored |
| Players.Player.SetProperty | src/main/java/edu/missouriwestern/csmp/gg/base/Player.java:34-37 | changes only this player's map, at that key |
| Players.Player.AddEntity | src/main/java/edu/missouriwestern/csmp/gg/base/Player.java:47-50 | set insertion, so adding the same entity twice leaves one copy |
| Players.Player.RemoveEntity | src/main/java/edu/missouriwestern/csmp/gg/base/Player.java:66-70 | the entity is gone and the others stay |
| Players.Player.GetEntity | src/main/java/edu/missouriwestern/csmp/gg/base/Player.java:55-61 | the search returns a held entity with that id, and null exactly when no held entity has it |
| Locations.Wrap32 | src/main/java/edu/missouriwestern/csmp/gg/base/Location.java:31-36 | Java `int` arithmetic: the value congruent modulo 2^32 in the int range, and the value itself when it is in range |
| Locations.Equals | src/main/java/edu/missouriwestern/csmp/gg/base/Location.java:38-45 | true exactly for another location with the same column and the same row |
| Locations.EqualsImpliesSameHash | src/main/java/edu/missouriwestern/csmp/gg/base/Location.java:30-36 | equal locations have equal `hashCode` |
| Locations.HashCodeClosedForm | src/main/java/edu/missouriwestern/csmp/gg/base/Location.java:30-36 | the hash is 28227 + 97 * column + row, reduced to 32 bits |
| Locations.AdjacentLocation | src/main/java/edu/missouriwestern/csmp/gg/base/Location.java:51-59 | NORTH row - 1, SOUTH row + 1, WEST column - 1, EAST column + 1, in 32-bit arithmetic |
| Locations.AdjacentChangesOneCoordinate | src/main/java/edu/missouriwestern/csmp/gg/base/Location.java:51-59 | away from the int range's ends, a step changes exactly one coordinate by exactly one |
| Locations.DirectionTo | src/main/java/edu/missouriwestern/csmp/gg/base/Location.java:66-76 | null exactly when the two locations are equal |
| Locations.RowTakesPriority | src/main/java/edu/missouriwestern/csmp/gg/base/Location.java:66-70 | a row difference decides the direction (SOUTH or NORTH) whatever the columns |
| Locations.DirectionToAdjacent | src/main/java/edu/missouriwestern/csmp/gg/base/Location.java:51-76 | the direction to `getAdjacentLocation(d)` is `d` |
| Locations.DirectionToAdjacentWrapsAtEdge | src/main/java/edu/missouriwestern/csmp/gg/base/Location.java:51-76 | a step that leaves the int range wraps to its other end, so the neighbour is reported in the opposing direction |
| Locations.AdjacentThenOpposing | src/main/java/edu/missouriwestern/csmp/gg/base/Location.java:51-59 | a step and then a step in the opposing direction return to an equal location, across the wrap-around too |
| Locations.IndexOf | src/main/java/edu/missouriwestern/csmp/gg/base/Location.java:87 | the first position of a character, used to read "(column,row)" back |
| Locations.ToStringRoundTrip | src/main/java/edu/missouriwestern/csmp/gg/base/Location.java:85-88 | `toString` is "(column,row)", and reading it back gives the location |
| Directions.ToString | src/main/java/edu/missouriwestern/csmp/gg/base/Direction.java:22-40 | each constant prints as one upper-case letter |
| Directions.OpposingIsInvolution | src/main/java/edu/missouriwestern/csmp/gg/base/Direction.java:55-63 | NORTH and SOUTH are paired, as are EAST and WEST. The result is never the receiver, and taking the opposing direction twice gives the receiver back |
| Directions.ValueOfSingle | src/main/java/edu/missouriwestern/csmp/gg/base/Direction.java:70-77 | accepts exactly "n", "e", "s" and "w" in either case, and returns null for anything else |
| Directions.ValueOfToString | src/main/java/edu/missouriwestern/csmp/gg/base/Direction.java:22-77 | `valueOfSingle(d.toString())` is `d` |
| Colours.Ordinal | src/main/java/edu/missouriwestern/csmp/gg/base/Colour.java:4 | the position of the constant in `values()` |
| Colours.GetNext | src/main/java/edu/missouriwestern/csmp/gg/base/Colour.java:6-8 | the constant whose ordinal is one greater, never the receiver. Null exactly for CRAN |
| Colours.OrbitIsSuffix | src/main/java/edu/missouriwestern/csmp/gg/base/Colour.java:4-8 | repeated `getNext` from the i-th constant visits the remaining constants in declaration order |
| Colours.OrbitFromBlack | src/main/java/edu/missouriwestern/csmp/gg/base/Colour.java:4-8 | from BLACK, repeated `getNext` visits all eleven constants in declaration order, then yields null |
| Properties.GetProperty | src/main/java/edu/missouriwestern/csmp/gg/base/HasProperties.java:10-20 | the mapped value exactly when `hasProperty`, and otherwise the `IllegalArgumentException` case naming the key. The map is unchanged |
| Properties.EntryText | src/main/java/edu/missouriwestern/csmp/gg/base/HasProperties.java:26 | an entry is the quoted key, a colon, a blank and the raw value |
| Properties.Entries | src/main/java/edu/missouriwestern/csmp/gg/base/HasProperties.java:25-26 | one rendered entry per key of the iteration order, in that order |
| Properties.ReduceSplit | src/main/java/edu/missouriwestern/csmp/gg/base/HasProperties.java:27 | the comma reduce is associative: one comma between neighbouring parts, wherever the sequence is cut |
| Properties.SerializeEmpty | src/main/java/edu/missouriwestern/csmp/gg/base/HasProperties.java:24-28 | the result is "{}" exactly for the empty map |
| Properties.SerializeSingle | src/main/java/edu/missouriwestern/csmp/gg/base/HasProperties.java:24-28 | a one-entry map renders as {"key": value} |
| Properties.SerializeConcatenates | src/main/java/edu/missouriwestern/csmp/gg/base/HasProperties.java:24-28 | the entries are joined by single commas inside braces, in iteration order |
| Properties.JoinedConcatenates | src/main/java/edu/missouriwestern/csmp/gg/base/HasProperties.java:25-27 | joining two runs of entries puts exactly one comma between them |
| Events.NewEvent | src/main/java/edu/missouriwestern/csmp/gg/base/Event.java:16-33 | the id is the explicit argument or else the game's next event id. The time is the game clock at construction. The properties are those given, or none |
| Events.SetProperty | src/main/java/edu/missouriwestern/csmp/gg/base/Event.java:40-43 | always fails with the unsupported-operation case |
| Events.EventPropertiesFixed | src/main/java/edu/missouriwestern/csmp/gg/base/Event.java:28-47 | `getProperty` sees exactly the construction-time map. The time is fixed at construction, and `setProperty` changes nothing |
| Events.MovedProperties | src/main/java/edu/missouriwestern/csmp/gg/base/events/EntityMovedEvent.java:24-36 | "entity" holds the decimal id. A tile adds exactly "board", "row" and "column". An entity adds "container", holding the moved entity's own id. Anything else adds nothing |
| Events.NewEntityMovedEvent | src/main/java/edu/missouriwestern/csmp/gg/base/events/EntityMovedEvent.java:14-22 | an event with the next event id and those properties; the getters return the constructor arguments |
| Events.MovedEntityIdReadable | src/main/java/edu/missouriwestern/csmp/gg/base/events/EntityMovedEvent.java:24-26 | the "entity" entry parses back to the moved entity's id |
| Events.MovedFromTileReadable | src/main/java/edu/missouriwestern/csmp/gg/base/events/EntityMovedEvent.java:27-30 | the "board", "column" and "row" entries give back the tile an entity left |
| Events.ContainerEntryNamesMovedEntity | src/main/java/edu/missouriwestern/csmp/gg/base/events/EntityMovedEvent.java:31-32 | as written, the "container" entry never names a different holding entity |
| Decimal.IntToString | src/main/java/edu/missouriwestern/csmp/gg/base/events/EntityMovedEvent.java:26 | `"" + n`: digits, with a minus sign before a negative number |
| Decimal.IntRoundTrip | src/main/java/edu/missouriwestern/csmp/gg/base/events/EntityMovedEvent.java:26 | the decimal text of an int parses back to the int |
| Decimal.IntToStringInjective | src/main/java/edu/missouriwestern/csmp/gg/base/events/EntityMovedEvent.java:31-32 | different ints render differently |
| Decimal.NatToString | src/main/java/edu/missouriwestern/csmp/gg/base/Location.java:87 | `%d` of a non-negative int: digits without leading zeros |
| Commands.CommandRegistry.constructor | src/main/java/edu/missouriwestern/csmp/gg/base/Command.java:13-14 | no factories registered |
| Commands.CommandRegistry.RegisterCommandFactory | src/main/java/edu/missouriwestern/csmp/gg/base/Command.java:20-26 | one entry under (game class, upper-cased and trimmed name); a second registration under the same key replaces the first |
| Commands.NotFoundMessage | src/main/java/edu/missouriwestern/csmp/gg/base/Command.java:85 | the exception text quotes the normalised command name |
| Commands.ParseTokens | src/main/java/edu/missouriwestern/csmp/gg/base/Command.java:80-85 | no tokens is the `remove(0)` failure. Otherwise the call succeeds exactly when a factory is registered for the game class and the normalised first token; that factory gets the remaining tokens. If none is registered, the failure names the command |
| Commands.CommandRegistry.ParseCommand | src/main/java/edu/missouriwestern/csmp/gg/base/Command.java:73-86 | the copy loop and `remove(0)` compute `Parse` of the registry's table |
| Commands.RegisteredIsFound | src/main/java/edu/missouriwestern/csmp/gg/base/Command.java:20-83 | after registering, a line whose first word names the factory, in any letter case and with any outer blanks, reaches that factory with the remaining words in order |
| Commands.LookupIgnoresCase | src/main/java/edu/missouriwestern/csmp/gg/base/Command.java:80-82 | lookup is case-insensitive |
| Commands.OtherGameClassUnaffected | src/main/java/edu/missouriwestern/csmp/gg/base/Command.java:20-82 | a registration for one game class is not found when parsing for another |
| Commands.ReRegisterReplaces | src/main/java/edu/missouriwestern/csmp/gg/base/Command.java:20-26 | registering twice under the same normalised key keeps only the second factory |
| Commands.NameIsFirstWord | src/main/java/edu/missouriwestern/csmp/gg/base/Command.java:75-85 | the name is the first word, before the first space; when that word has no factory, the failure names it |
| Commands.BlankLineHasNoName | src/main/java/edu/missouriwestern/csmp/gg/base/Command.java:75-80 | a line of only spaces splits into no tokens, so `remove(0)` fails |
| Commands.EmptyLineNamesEmptyCommand | src/main/java/edu/missouriwestern/csmp/gg/base/Command.java:75-82 | the empty line is one empty token and names the command "" |
| Text.ToLower | src/main/java/edu/missouriwestern/csmp/gg/base/Direction.java:71 | `toLowerCase`: same length, each ASCII capital lowered |
| Text.ToUpper | src/main/java/edu/missouriwestern/csmp/gg/base/Command.java:23 | `toUpperCase`: same length, each ASCII small letter raised |
| Text.UpperIdempotent | src/main/java/edu/missouriwestern/csmp/gg/base/Command.java:23 | no small ASCII letter is left, and a second upper-casing changes nothing |
| Text.UpperIgnoresCase | src/main/java/edu/missouriwestern/csmp/gg/base/Command.java:80 | lower-casing first does not change the upper-cased name |
| Text.Trim | src/main/java/edu/missouriwestern/csmp/gg/base/Command.java:23 | `trim()`: the slice left after dropping characters up to U+0020 at both ends. It neither starts nor ends with one, and a string without any is unchanged |
| Text.SplitSpaces | src/main/java/edu/missouriwestern/csmp/gg/base/Command.java:75 | `split(" ")`: a string without a space comes back whole. Otherwise the result is the pieces between single spaces, with trailing empty pieces dropped |
| Text.JoinFields | src/main/java/edu/missouriwestern/csmp/gg/base/Command.java:75 | the pieces between spaces, joined back with single spaces, give the string |
| Text.SplitFirstWord | src/main/java/edu/missouriwestern/csmp/gg/base/Command.java:75-80 | a word followed by a space is the first token |
| Text.SpacesSplitToNothing | src/main/java/edu/missouriwestern/csmp/gg/base/Command.java:75 | a string of spaces splits into no tokens |

## Left out

- The game loop is left out (`run`, which uses `wait`/`notify`, and `stopGame`). It is thread coordination and server shutdown. For the same reason, the `synchronized` modifiers and `notify` calls are not modelled. The model is single-threaded, and Java's monitors are re-entrant for the calling thread, so it is the in-delivery flag that queues events.
- `launchServer`, `getNewPort`, `loadExtension`, `getConfig` and the `Game` constructor's configuration-file reading are left out. They are network code, random ports, reflective class loading and file I/O. The constructor's loop that registers the global listeners is left out with them.
- `addGlobalGameEventListener` and `removeGlobalGameEventListener` are left out. The set they edit is only read by that constructor.
- `removePlayer` and `getPlayer` are left out. The first disconnects a network connection; the second compares a `String` id with an `int`. `addPlayer` and the other plain getters of `Game` are not modelled as operations: `allPlayers` is a field of the model.
- `GameEvent.java` is not part of this model. A game event is modelled as an identity and the optional white list that `sendEvent` reads.
- Games.Game.SendEvent: `sendEvent` sends the queue's head by a tail call until the queue is empty, and a cascade of listener sends need not end. The model makes this tail call a loop of at most `fuel` further sends. When the fuel runs out first, the queue may still hold events.
- Games.Game.ProcessGameEvent: a listener's `processGameEvent` is code outside this model. The model takes it as the fixed function `react`, from (listener, event) to the calls the listener makes back into the game. A listener that keeps state of its own, throws, or calls other game methods is not modelled. Listeners are opaque identities.
- Games.Game.PassEvent: Java does not fix the iteration order of a `HashSet`. The model picks each listener nondeterministically and returns the order it used. The same holds for the loops of `removeEntity`, `getParameterNames`, `getParameterType` and `Player.getEntity`, which iterate sets in no fixed order, and for `HashBiMap.create`.
- Properties.Serialize: `getProperties().entrySet()` has no fixed order. The rendering takes the iteration order as an argument, which must list every key once.
- Games.Game.RegisterTimedAction: `double` game time and action times are real numbers. The addition `gameTime + t` is exact; floating-point rounding is not modelled. `Actionable` actions are opaque handles.
- Games.Game.RemoveEntity: the tile `board.getTile(ent)` finds (through `getEntityLocation`, which this revision of `Game.java` lacks) is a parameter. What a container entity holds (`Container.getEntities`) is a table keyed by the entity's value. Entities are records (id, type, heading, owner, whether the class is a container), not objects with identity, so two equal records are one entity.
- Games.Game.RegisterEntity: the `getImageURL` test after storing the entity has an empty body and is not modelled.
- Tiles.Tile.AddEntity: the tile that held the entity before (`getBoard().getTile(ent)`) is a parameter. The `TileStateUpdateEvent` that `setProperty` hands to `board.accept` is recorded as the location it carries, in `boardUpdates`.
- The `Container.super.removeEntity` calls in `Tile.removeEntity` and `Player.removeEntity` are not modelled. The included `Container.java` is from another revision and declares no default method for them.
- `Tile` is modelled with one constructor. Its three-argument form passes an empty property map to it.
- `Tile.getEntities` and `Player.getEntities` return streams. The model has the fields themselves.
- `Board.getTile(Entity)` is left out. It depends on `getEntityLocation`, which this revision of `Game.java` lacks.
- `Board.getTiles`, `getTileStream`, `getName` and `getGame` are plain getters of fields of the model and are not modelled as operations.
- The Board listener registry (`registerListener`, `deregisterListener`, `getListeners`) is left out as deprecated relay plumbing. As written, `deregisterListener` adds the listener rather than removing it.
- Boards.Board.Build: a Java string is never longer than the `int` range, so the character map is assumed to be that short.
- Layouts.Run: reads the character map one Unicode character at a time, not one UTF-16 code unit at a time as `toCharArray` does. The next line explains the consequence.
- Boards.Board.Build: the character map is read as a sequence of Unicode characters. Java's `toCharArray` gives UTF-16 code units, so a character outside the Basic Multilingual Plane counts as two columns in Java and one in the model. Every later tile on that line then gets a different column. A surrogate `Character` key of `tileTypeChars` cannot be written in the model at all.
- Boards.Board.TileMap: on a board without tiles, `getWidth` throws `NoSuchElementException`. The model returns no text.
- The Gson-based `toString` methods of `Board`, `Tile`, `Player` and `Event` are left out. They rely on an external library.
- The events that only build constant maps (creation, deletion, tile update, command and game start events) are left out. So are the interfaces with no logic: `Container`, `DataStore`, `EventListener`, `Actionable`, `Permanent` and `EventProducer`.
- `Entity` is used only as a record type. Its constructors call `Game` methods that this revision lacks.
- Commands.CommandRegistry.ParseCommand: `CommandFactory.buildCommand` is foreign code. The model returns the factory handle, the game class and the argument tokens the factory would be handed. A game class is identified by its name.
- Text.ToUpper: Java's case mapping covers all of Unicode and depends on the default locale. The model maps only the ASCII letters.
- Text.ToLower: as for Text.ToUpper, only the ASCII letters are mapped.
- Events.NewEvent: `getNextEventId` and `getGameTime` are missing from this revision of `Game.java`. The model passes the values they answer in as a `GameView`. The event's `long` time is an unbounded integer.
- Events.NewEvent: `Event` stores `Collections.unmodifiableMap` of the map it is given. That is a read-only view, not a copy: when the creator later changes its map, the event's `getProperty` sees the change. The model stores the map's value at construction and does not model these later changes. `EntityMovedEvent` builds a fresh map, and the other events use `Map.of`, so no caller here changes its map afterwards.
- The unreachable fallbacks are not modelled: the enum-level `Direction.toString` (every constant overrides it) and the final `return null` of `getOpposingDirection`.
- Locations.ToStringRoundTrip: `String.format("%d")` is modelled as plain decimal digits, as in the root locale.
