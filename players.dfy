/** A player (Player.java): an id, a set of held entities and a property map. */
module Players {
  import opened Wrappers
  import opened Entities
  import Properties

  class Player {
    const id: string
    var entities: set<Entity>
    var properties: Properties.PropertyMap

    /** The (id, properties) constructor keeps its own copy of the map. */
    constructor (id: string, properties: Properties.PropertyMap)
      ensures this.id == id && this.properties == properties && entities == {}
    {
      this.id := id;
      this.properties := properties;
      this.entities := {};
    }

    /** The (id, name) constructor: empty properties; the name is not stored. */
    constructor Named(id: string, name: string)
      ensures this.id == id && properties == map[] && entities == {}
    {
      this.id := id;
      this.properties := map[];
      this.entities := {};
    }

    /** `getID`. */
    function GetId(): string
    {
      id
    }

    /** `setProperty`: changes this player's map only. */
    method SetProperty(key: string, value: string)
      modifies this`properties
      ensures properties == old(properties)[key := value]
    {
      properties := properties[key := value];
    }

    /** `addEntity`: set insertion, so a second add changes nothing. */
    method AddEntity(e: Entity)
      modifies this`entities
      ensures entities == old(entities) + {e}
    {
      entities := entities + {e};
    }

    /** `removeEntity`: the entity is gone, the rest stay. */
    method RemoveEntity(e: Entity)
      modifies this`entities
      ensures entities == old(entities) - {e}
    {
      entities := entities - {e};
    }

    /** `getEntities`. */
    function GetEntities(): set<Entity>
      reads this
    {
      entities
    }

    /** `getEntity`: a held entity with this id, found by scanning the set in
        its iteration order, or null when none has it. */
    method GetEntity(ident: int) returns (r: Option<Entity>)
      ensures r.Some? ==> r.value in entities && r.value.id == ident
      ensures r.None? <==> forall e :: e in entities ==> e.id != ident
    {
      var todo := entities;
      while todo != {}
        invariant todo <= entities
        invariant forall e :: e in entities - todo ==> e.id != ident
        decreases todo
      {
        var e :| e in todo;
        if e.id == ident {
          return Some(e);
        }
        todo := todo - {e};
      }
      return None;
    }
  }
}
