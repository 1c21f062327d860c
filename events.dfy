/** Events (Event.java) and the entity-moved event
    (events/EntityMovedEvent.java): records whose properties cannot be set
    through the event. The model keeps the map the event was built with;
    Java keeps a read-only view of the creator's map. */
module Events {
  import opened Wrappers
  import opened Properties
  import opened Entities
  import Decimal

  /** What the event's game answers at construction time: the id
      `getNextEventId()` hands out and the clock `getGameTime()` reads. */
  datatype GameView = GameView(nextEventId: int, gameTime: int)

  datatype Event = Event(id: int, eventTime: int, properties: PropertyMap)

  /** The exception `setProperty` throws. */
  datatype EventError = ImmutableProperties

  /** The four constructors: an explicit id or the game's next event id, the
      given properties or none; the time is the game's clock at construction. */
  function NewEvent(game: GameView, id: Option<int>, properties: Option<PropertyMap>): (e: Event)
    ensures id.Some? ==> e.id == id.value
    ensures id.None? ==> e.id == game.nextEventId
    ensures e.eventTime == game.gameTime
    ensures properties.Some? ==> e.properties == properties.value
    ensures properties.None? ==> e.properties == map[]
  {
    var props := match properties case Some(p) => p case None => map[];
    var ident := match id case Some(i) => i case None => game.nextEventId;
    Event(ident, game.gameTime, props)
  }

  /** `setProperty` always throws, so it never yields a changed event. */
  function SetProperty(e: Event, key: string, value: string): (r: Result<Event, EventError>)
    ensures r.Failure?
  {
    Failure(ImmutableProperties)
  }

  /** `getProperty` on an event sees exactly the properties it was built with:
      later clocks, ids and attempted updates change nothing. */
  lemma EventPropertiesFixed(game: GameView, later: GameView, id: Option<int>, props: PropertyMap, key: string, value: string)
    ensures var e := NewEvent(game, id, Some(props));
      && GetProperty(e.properties, key) == (if key in props then Success(props[key]) else Failure(NoSuchProperty(key)))
      && SetProperty(e, key, value).Failure?
      && e.eventTime == game.gameTime
  {
  }

  datatype EntityMovedEvent = EntityMovedEvent(base: Event, entity: Entity, previous: Container)

  /** `createProperies`: the moved entity's id; for a tile, the tile's board,
      row and column; for an entity, a "container" entry that (as written)
      repeats the moved entity's own id. */
  function MovedProperties(ent: Entity, previous: Container): (m: PropertyMap)
    ensures "entity" in m && m["entity"] == Decimal.IntToString(ent.id)
    ensures previous.TileHolder? ==>
              && m.Keys == {"entity", "board", "row", "column"}
              && m["board"] == previous.boardName
              && m["row"] == Decimal.IntToString(previous.row)
              && m["column"] == Decimal.IntToString(previous.column)
    ensures previous.EntityHolder? ==> m.Keys == {"entity", "container"} && m["container"] == Decimal.IntToString(ent.id)
    ensures !previous.TileHolder? && !previous.EntityHolder? ==> m.Keys == {"entity"}
  {
    var m := map["entity" := Decimal.IntToString(ent.id)];
    match previous
    case TileHolder(board, column, row) =>
      m["board" := board]["row" := Decimal.IntToString(row)]["column" := Decimal.IntToString(column)]
    case EntityHolder(_) => m["container" := Decimal.IntToString(ent.id)]
    case _ => m
  }

  /** The constructor: an event with the next event id of the entity's game
      and the properties above; the getters return the arguments. */
  function NewEntityMovedEvent(game: GameView, ent: Entity, previous: Container): (e: EntityMovedEvent)
    ensures e.entity == ent && e.previous == previous
    ensures e.base == NewEvent(game, None, Some(MovedProperties(ent, previous)))
  {
    EntityMovedEvent(NewEvent(game, None, Some(MovedProperties(ent, previous))), ent, previous)
  }

  /** A listener can recover the moved entity's id from the "entity" entry. */
  lemma MovedEntityIdReadable(game: GameView, ent: Entity, previous: Container)
    ensures var p := NewEntityMovedEvent(game, ent, previous).base.properties;
      "entity" in p && Decimal.ParseInt(p["entity"]) == Some(ent.id)
  {
    Decimal.IntRoundTrip(ent.id);
  }

  /** A listener can recover the tile an entity left from the event. */
  lemma MovedFromTileReadable(game: GameView, ent: Entity, board: string, column: int, row: int)
    ensures var p := NewEntityMovedEvent(game, ent, TileHolder(board, column, row)).base.properties;
      && p["board"] == board
      && Decimal.ParseInt(p["column"]) == Some(column)
      && Decimal.ParseInt(p["row"]) == Some(row)
  {
    Decimal.IntRoundTrip(column);
    Decimal.IntRoundTrip(row);
  }

  /** As written, the "container" entry never names the holding entity when
      that entity is a different one: it carries the moved entity's id. */
  lemma ContainerEntryNamesMovedEntity(ent: Entity, holder: Entity)
    requires holder.id != ent.id
    ensures MovedProperties(ent, EntityHolder(holder))["container"] != Decimal.IntToString(holder.id)
  {
    Decimal.IntToStringInjective(ent.id, holder.id);
  }
}
