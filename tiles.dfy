/** A board cell (Tile.java): its fixed place, type and board, the entities on
    it (an id-keyed map) and its mutable properties. */
module Tiles {
  import opened Wrappers
  import opened Entities
  import opened Locations
  import Properties

  /** A key of the `HashMap<Integer, Entity>`, as Java sees it: an
      `Object`. The map is filled with boxed ids, but `containsKey` accepts
      any object, an entity included. */
  datatype MapKey = IdKey(id: int) | EntityKey(entity: Entity)

  class Tile {
    const boardName: string
    const location: Location
    const kind: string
    var entities: map<MapKey, Entity>
    var properties: Properties.PropertyMap
    /** The locations of the state-update events handed to the board by
        `setProperty`, oldest first. */
    var boardUpdates: seq<Location>

    /** Every key is the boxed id of the entity stored under it. */
    ghost predicate Valid()
      reads this
    {
      forall k :: k in entities ==> k.IdKey? && entities[k].id == k.id
    }

    /** The constructor keeps its own copy of the properties and starts empty. */
    constructor (boardName: string, location: Location, kind: string, properties: Properties.PropertyMap)
      ensures Valid()
      ensures this.boardName == boardName && this.location == location && this.kind == kind
      ensures this.properties == properties && entities == map[] && boardUpdates == []
    {
      this.boardName := boardName;
      this.location := location;
      this.kind := kind;
      this.properties := properties;
      this.entities := map[];
      this.boardUpdates := [];
    }

    /** `getEntity`: the entity with this id on the tile, or null. */
    function GetEntity(id: int): (r: Option<Entity>)
      reads this
      requires Valid()
      ensures r.Some? <==> exists k :: k in entities && entities[k].id == id
      ensures r.Some? ==> r.value in entities.Values && r.value.id == id
    {
      if IdKey(id) in entities then Some(entities[IdKey(id)]) else None
    }

    /** `containsEntity`, as written: it asks the id-keyed map for the entity
        object itself, which is never a key, so the answer is always false. */
    function ContainsEntity(ent: Entity): (r: bool)
      reads this
      requires Valid()
      ensures !r
    {
      EntityKey(ent) in entities
    }

    /** `containsEntityType`: some entity of that type is on the tile. */
    function ContainsEntityType(t: string): (r: bool)
      reads this
      ensures r <==> exists k :: k in entities && entities[k].kind == t
    {
      exists k :: k in entities && entities[k].kind == t
    }

    /** `isEmpty`. */
    function IsEmpty(): (r: bool)
      reads this
      requires Valid()
      ensures r <==> forall id :: GetEntity(id).None?
    {
      assert forall k :: k in entities ==> GetEntity(k.id).Some?;
      entities == map[]
    }

    /** `removeEntity`: forgets the entity stored under its id. */
    method RemoveEntity(ent: Entity)
      requires Valid()
      modifies this`entities
      ensures Valid()
      ensures entities == old(entities) - {IdKey(ent.id)}
      ensures GetEntity(ent.id).None?
      ensures forall id :: id != ent.id ==> GetEntity(id) == old(GetEntity(id))
    {
      entities := entities - {IdKey(ent.id)};
    }

    /** `addEntity`: first takes the entity off the tile that currently holds
        it (`previous`, what the board reports for it, or null), then stores
        it under its id here. */
    method AddEntity(ent: Entity, previous: Tile?)
      requires Valid() && (previous != null ==> previous.Valid())
      modifies this`entities, if previous == null then {} else {previous}
      ensures Valid() && (previous != null ==> previous.Valid())
      ensures entities == old(entities)[IdKey(ent.id) := ent]
      ensures GetEntity(ent.id) == Some(ent) && !IsEmpty() && ContainsEntityType(ent.kind)
      ensures forall id :: id != ent.id ==> GetEntity(id) == old(GetEntity(id))
      ensures previous != null && previous != this ==>
        previous.entities == old(previous.entities) - {IdKey(ent.id)} && previous.GetEntity(ent.id).None?
      ensures previous != null ==> previous.properties == old(previous.properties) && previous.boardUpdates == old(previous.boardUpdates)
    {
      if previous != null {
        previous.RemoveEntity(ent);
      }
      entities := entities[IdKey(ent.id) := ent];
    }

    /** `setProperty`: sets one property and hands the board one
        state-update event for this tile's location. */
    method SetProperty(key: string, value: string)
      modifies this`properties, this`boardUpdates
      ensures properties == old(properties)[key := value]
      ensures boardUpdates == old(boardUpdates) + [location]
    {
      properties := properties[key := value];
      boardUpdates := boardUpdates + [location];
    }

    /** `getProperty` through the HasProperties default method. */
    function GetProperty(key: string): (r: Result<string, Properties.PropertyError>)
      reads this
      ensures r.Success? <==> key in properties
      ensures r.Success? ==> r.value == properties[key]
    {
      Properties.GetProperty(properties, key)
    }
  }

  /** At most one tile holds an entity, across `addEntity`: if no tile of
      `tiles` other than `previous` held it before the call, then afterwards
      `target` holds it and no other tile of `tiles` does. */
  method AddKeepsOneHolder(tiles: set<Tile>, target: Tile, previous: Tile?, ent: Entity)
    requires target in tiles && target.Valid() && (previous != null ==> previous.Valid())
    requires forall t :: t in tiles && t != previous ==> IdKey(ent.id) !in t.entities
    modifies target`entities, if previous == null then {} else {previous}
    ensures IdKey(ent.id) in target.entities
    ensures forall t :: t in tiles && IdKey(ent.id) in t.entities ==> t == target
  {
    target.AddEntity(ent, previous);
  }
}
