/** Game objects (Entity.java) as records, and the things that can hold them. */
module Entities {
  import opened Wrappers
  import opened Directions

  /** An entity: its game-wide id, its type name, its heading, the id of its
      owning player, and whether its class also implements Container. */
  datatype Entity = Entity(id: int, kind: string, heading: Option<Direction>, owner: Option<string>, isContainer: bool)

  /** The runtime class of a `Container` reference: a board tile, another
      entity, a player, the game itself, or null. */
  datatype Container =
    | TileHolder(boardName: string, column: int, row: int)
    | EntityHolder(holder: Entity)
    | PlayerHolder(playerId: string)
    | GameHolder
    | NoHolder
}
