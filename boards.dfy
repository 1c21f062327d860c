/** The playing board (Board.java): the tiles it made from a character map,
    the two-way map between tile characters and tile types, grid queries and
    the text rendering of the layout. */
module Boards {
  import opened Wrappers
  import opened Directions
  import opened Locations
  import opened Layouts
  import opened Tiles
  import Properties
  import Seqs

  /** `HashBiMap.create` refuses a map in which two characters name the same type. */
  datatype BoardError = DuplicateTileType

  /** No two characters name the same tile type. */
  predicate Injective(m: map<char, string>)
  {
    forall a, b :: a in m && b in m && m[a] == m[b] ==> a == b
  }

  /** `inv` undoes `m` and `m` undoes `inv`: a bidirectional map. */
  predicate IsInverse(m: map<char, string>, inv: map<string, char>)
  {
    (forall c :: c in m ==> m[c] in inv && inv[m[c]] == c)
    && (forall t :: t in inv ==> inv[t] in m && m[inv[t]] == t)
  }

  lemma InverseMeansInjective(m: map<char, string>, inv: map<string, char>)
    requires IsInverse(m, inv)
    ensures Injective(m)
  {
  }

  /** `HashBiMap.create(tileTypeChars)`: puts the entries one at a time, in
      the map's own order, and fails on the first type that is already taken. */
  method CreateBiMap(m: map<char, string>) returns (r: Option<map<string, char>>)
    ensures r.Some? <==> Injective(m)
    ensures r.Some? ==> IsInverse(m, r.value)
  {
    var inv: map<string, char> := map[];
    var todo := m.Keys;
    while todo != {}
      invariant todo <= m.Keys
      invariant forall c :: c in m.Keys - todo ==> m[c] in inv && inv[m[c]] == c
      invariant forall t :: t in inv ==> inv[t] in m.Keys - todo && m[inv[t]] == t
      decreases todo
    {
      var c :| c in todo;
      if m[c] in inv {
        assert inv[m[c]] != c && m[inv[m[c]]] == m[c];
        return None;
      }
      inv := inv[m[c] := c];
      todo := todo - {c};
    }
    return Some(inv);
  }

  /** The columns and the rows of a non-empty set of coordinates are not empty. */
  lemma CoordinatesNonEmpty<T>(m: map<Coord, T>)
    requires m != map[]
    ensures (set q | q in m :: q.column) != {} && (set q | q in m :: q.row) != {}
  {
    var p :| p in m;
    var columns := set q | q in m :: q.column;
    var rows := set q | q in m :: q.row;
    assert p.column in columns && p.row in rows;
  }

  /** A tile's properties: its type's properties, overridden key by key by
      those given for its location (two `putAll`s in that order). */
  function TileProperties(typeProps: map<char, Properties.PropertyMap>, locProps: map<Coord, Properties.PropertyMap>,
                          c: char, p: Coord): (r: Properties.PropertyMap)
    ensures forall k :: k in r <==> (c in typeProps && k in typeProps[c]) || (p in locProps && k in locProps[p])
    ensures forall k :: k in r ==> r[k] == if p in locProps && k in locProps[p] then locProps[p][k] else typeProps[c][k]
  {
    (if c in typeProps then typeProps[c] else map[]) + (if p in locProps then locProps[p] else map[])
  }

  /** What the constructor's loop makes of the character `c` at `p`: an
      empty tile of this board at that place, of the type `c` names, with the
      merged properties. */
  ghost predicate MadeFrom(t: Tile, p: Coord, c: char, name: string, tileTypeChars: map<char, string>,
                           typeProps: map<char, Properties.PropertyMap>, locProps: map<Coord, Properties.PropertyMap>)
    reads t
  {
    && t.Valid() && t.boardName == name && t.entities == map[]
    && t.location.column == p.column && t.location.row == p.row
    && c in tileTypeChars && c != '\n' && t.kind == tileTypeChars[c]
    && t.properties == TileProperties(typeProps, locProps, c, p)
  }

  /** The tile the constructor's loop makes of the key character `c` at `at`. */
  method NewTile(at: Coord, c: char, name: string, tileTypeChars: map<char, string>,
                 typeProps: map<char, Properties.PropertyMap>,
                 locProps: map<Coord, Properties.PropertyMap>) returns (tile: Tile)
    requires 0 <= at.column < MaxInt32 && 0 <= at.row < MaxInt32
    requires c in tileTypeChars && c != '\n'
    ensures fresh(tile)
    ensures MadeFrom(tile, at, c, name, tileTypeChars, typeProps, locProps)
  {
    tile := new Tile(name, Location(at.column, at.row), tileTypeChars[c], TileProperties(typeProps, locProps, c, at));
  }

  /** The constructor's loop: walks the character map once with a column and
      a row counter, making a fresh tile for every key character under the
      cursor. */
  method MakeTiles(tileTypeChars: map<char, string>, name: string, charMap: string,
                   typeProps: map<char, Properties.PropertyMap>,
                   locProps: map<Coord, Properties.PropertyMap>) returns (made: map<Coord, Tile>)
    requires |charMap| <= MaxInt32
    ensures made.Keys == Layout(tileTypeChars.Keys, charMap).Keys
    ensures forall p :: p in made ==> 0 <= p.column < MaxInt32 && 0 <= p.row < MaxInt32
    ensures forall p :: p in made ==> fresh(made[p])
    ensures forall p :: p in made ==>
      MadeFrom(made[p], p, Layout(tileTypeChars.Keys, charMap)[p], name, tileTypeChars, typeProps, locProps)
  {
    var keys := tileTypeChars.Keys;
    made := map[];
    var column, row := 0, 0;
    ghost var cells: map<Coord, char> := map[];
    for i := 0 to |charMap|
      invariant Run(Start, charMap[..i], keys) == Scan(Coord(column, row), cells)
      invariant 0 <= column <= i && 0 <= row <= i
      invariant made.Keys == cells.Keys
      invariant forall p :: p in cells ==> 0 <= p.column < i && 0 <= p.row < i
      invariant forall p :: p in made ==> fresh(made[p])
      invariant forall p :: p in made ==> MadeFrom(made[p], p, cells[p], name, tileTypeChars, typeProps, locProps)
    {
      RunNext(charMap, i, keys);
      made, cells, column, row := ReadChar(made, cells, column, row, i, charMap[i], name, tileTypeChars, typeProps, locProps);
    }
    assert charMap[..|charMap|] == charMap;
  }

  /** One turn of the constructor's loop on the `i`-th character `c`: a line
      break moves to the next row; any other character moves one column on,
      after making a tile if it is a key character. */
  method ReadChar(made: map<Coord, Tile>, ghost cells: map<Coord, char>, column: int, row: int, i: nat, c: char,
                  name: string, tileTypeChars: map<char, string>,
                  typeProps: map<char, Properties.PropertyMap>, locProps: map<Coord, Properties.PropertyMap>)
    returns (made': map<Coord, Tile>, ghost cells': map<Coord, char>, column': int, row': int)
    requires i < MaxInt32 && 0 <= column <= i && 0 <= row <= i
    requires made.Keys == cells.Keys
    requires forall p :: p in cells ==> 0 <= p.column < i && 0 <= p.row < i
    requires forall p :: p in made ==> MadeFrom(made[p], p, cells[p], name, tileTypeChars, typeProps, locProps)
    ensures Scan(Coord(column', row'), cells') == Step(Scan(Coord(column, row), cells), c, tileTypeChars.Keys)
    ensures 0 <= column' <= i + 1 && 0 <= row' <= i + 1
    ensures made'.Keys == cells'.Keys
    ensures forall p :: p in cells' ==> 0 <= p.column < i + 1 && 0 <= p.row < i + 1
    ensures forall p :: p in made' ==> (p in made && made'[p] == made[p]) || fresh(made'[p])
    ensures forall p :: p in made' ==> MadeFrom(made'[p], p, cells'[p], name, tileTypeChars, typeProps, locProps)
  {
    made', cells' := made, cells;
    if c == '\n' {
      column', row' := 0, row + 1;
    } else {
      if c in tileTypeChars {
        var at := Coord(column, row);
        var tile := NewTile(at, c, name, tileTypeChars, typeProps, locProps);
        made' := made[at := tile];
        cells' := cells[at := c];
      }
      column', row' := column + 1, row;
    }
  }

  class Board {
    const name: string
    const tileTypeChars: map<char, string>
    /** `tileTypeChars.inverse()`. */
    const inverse: map<string, char>
    const tiles: map<Coord, Tile>

    /** Tiles sit at their own key, inside the Java int range, with a type
        the bidirectional map can turn back into a character other than a
        line break. */
    ghost predicate Valid()
    {
      IsInverse(tileTypeChars, inverse)
      && (forall p :: p in tiles ==> tiles[p].location.column == p.column && tiles[p].location.row == p.row)
      && (forall p :: p in tiles ==> 0 <= p.column < MaxInt32 && 0 <= p.row < MaxInt32)
      && (forall p :: p in tiles ==> tiles[p].kind in inverse && inverse[tiles[p].kind] != '\n')
    }

    constructor Init(name: string, tileTypeChars: map<char, string>, inverse: map<string, char>, tiles: map<Coord, Tile>)
      ensures this.name == name && this.tileTypeChars == tileTypeChars
      ensures this.inverse == inverse && this.tiles == tiles
    {
      this.name := name;
      this.tileTypeChars := tileTypeChars;
      this.inverse := inverse;
      this.tiles := tiles;
    }

    /** The constructor: makes the tiles of the character map, then builds
        the bidirectional map, which fails when two characters share a type.
        A Java string is never longer than the int range. */
    static method Build(tileTypeChars: map<char, string>, name: string, charMap: string,
                        typeProps: map<char, Properties.PropertyMap>,
                        locProps: map<Coord, Properties.PropertyMap>) returns (r: Result<Board, BoardError>)
      requires |charMap| <= MaxInt32
      ensures r.Success? <==> Injective(tileTypeChars)
      ensures r.Success? ==> r.value.Valid() && r.value.name == name && r.value.tileTypeChars == tileTypeChars
      ensures r.Success? ==> r.value.Kinds() == LayoutKinds(tileTypeChars, charMap)
      ensures r.Success? ==> forall p :: p in r.value.tiles ==>
        fresh(r.value.tiles[p]) && r.value.tiles[p].entities == map[]
        && r.value.tiles[p].properties == TileProperties(typeProps, locProps, Layout(tileTypeChars.Keys, charMap)[p], p)
    {
      var made := MakeTiles(tileTypeChars, name, charMap, typeProps, locProps);
      var inv := CreateBiMap(tileTypeChars);
      if inv.None? {
        return Failure(DuplicateTileType);
      }
      var b := new Board.Init(name, tileTypeChars, inv.value, made);
      assert b.Kinds() == LayoutKinds(tileTypeChars, charMap) by {
        assert b.Kinds().Keys == LayoutKinds(tileTypeChars, charMap).Keys;
      }
      return Success(b);
    }

    /** The type of every tile, by coordinate. */
    function Kinds(): map<Coord, string>
    {
      map p | p in tiles :: tiles[p].kind
    }

    /** The character `getTileMap` writes for every tile. */
    function Glyphs(): (g: map<Coord, char>)
      requires Valid()
      ensures g.Keys == tiles.Keys
      ensures forall p :: p in g ==> g[p] in tileTypeChars && tileTypeChars[g[p]] == tiles[p].kind
    {
      map p | p in tiles :: inverse[tiles[p].kind]
    }

    /** `locationExists`. */
    predicate LocationExists(column: int, row: int)
    {
      Coord(column, row) in tiles
    }

    /** `getTile(column, row)`: the tile there, or null. */
    function GetTile(column: int, row: int): (r: Option<Tile>)
      ensures r.Some? <==> LocationExists(column, row)
      ensures r.Some? ==> r.value == tiles[Coord(column, row)]
    {
      if !LocationExists(column, row) then None else Some(tiles[Coord(column, row)])
    }

    /** `getAdjacentTile`: the tile one step away in Java int arithmetic,
        or null. */
    function GetAdjacentTile(tile: Tile, d: Direction): (r: Option<Tile>)
    {
      var next := AdjacentLocation(tile.location, d);
      GetTile(next.column, next.row)
    }

    /** `getAdjacentTileDirection`: columns decide before rows; SOUTH when
        both tiles share a place. */
    function GetAdjacentTileDirection(from: Tile, to: Tile): (r: Direction)
      ensures from.location.column != to.location.column ==> (r == West <==> from.location.column > to.location.column)
      ensures from.location.column != to.location.column ==> (r == East || r == West)
      ensures from.location.column == to.location.column ==> (r == North <==> from.location.row > to.location.row)
      ensures from.location.column == to.location.column ==> (r == North || r == South)
    {
      if from.location.column > to.location.column then West
      else if from.location.column < to.location.column then East
      else if from.location.row > to.location.row then North
      else South
    }

    /** `getWidth`: one past the largest column; undefined without tiles. */
    function Width(): (r: Option<int>)
      ensures r.None? <==> tiles == map[]
      ensures r.Some? ==> forall p :: p in tiles ==> p.column < r.value
      ensures r.Some? ==> exists p :: p in tiles && p.column == r.value - 1
    {
      if tiles == map[] then None
      else
        CoordinatesNonEmpty(tiles);
        var all := set q | q in tiles :: q.column;
        var m := Seqs.Max(all);
        assert forall p :: p in tiles ==> p.column in all;
        Some(m + 1)
    }

    /** `getHeight`: one past the largest row; undefined without tiles. */
    function Height(): (r: Option<int>)
      ensures r.None? <==> tiles == map[]
      ensures r.Some? ==> forall p :: p in tiles ==> p.row < r.value
      ensures r.Some? ==> exists p :: p in tiles && p.row == r.value - 1
    {
      if tiles == map[] then None
      else
        CoordinatesNonEmpty(tiles);
        var all := set q | q in tiles :: q.row;
        var m := Seqs.Max(all);
        assert forall p :: p in tiles ==> p.row in all;
        Some(m + 1)
    }

    /** `getTileMap`: row after row, the character of each tile's type or a
        blank, and a line break after each row. An empty board has no height,
        so the method fails there. */
    method TileMap() returns (r: Option<string>)
      requires Valid()
      ensures r.None? <==> tiles == map[]
      ensures r.Some? ==> r.value == Render(Glyphs(), Width().value, Height().value)
    {
      if tiles == map[] {
        return None;
      }
      var height := Height().value;
      var width := Width().value;
      var sb: string := [];
      for row := 0 to height
        invariant sb == Render(Glyphs(), width, row)
      {
        for column := 0 to width
          invariant sb == Render(Glyphs(), width, row) + Line(Glyphs(), row, column)
        {
          var location := Coord(column, row);
          if location in tiles {
            sb := sb + [inverse[tiles[location].kind]];
          } else {
            sb := sb + [' '];
          }
        }
        sb := sb + "\n";
      }
      return Some(sb);
    }
  }

  /** `getTile` finds every tile at its own location. */
  lemma TileAtItsLocation(b: Board, p: Coord)
    requires b.Valid() && p in b.tiles
    ensures b.GetTile(b.tiles[p].location.column, b.tiles[p].location.row) == Some(b.tiles[p])
  {
  }

  /** A neighbour found on the board is exactly one step away, and the
      board, like the location, names the direction that was stepped. */
  lemma AdjacentTileIsOneStep(b: Board, p: Coord, d: Direction)
    requires b.Valid() && p in b.tiles && b.GetAdjacentTile(b.tiles[p], d).Some?
    ensures var t, u := b.tiles[p], b.GetAdjacentTile(b.tiles[p], d).value;
      && u.location == AdjacentLocation(t.location, d)
      && (d == North ==> u.location.column == t.location.column && u.location.row == t.location.row - 1)
      && (d == South ==> u.location.column == t.location.column && u.location.row == t.location.row + 1)
      && (d == West ==> u.location.column == t.location.column - 1 && u.location.row == t.location.row)
      && (d == East ==> u.location.column == t.location.column + 1 && u.location.row == t.location.row)
      && b.GetAdjacentTileDirection(t, u) == d
      && DirectionTo(t.location, u.location) == Some(d)
  {
    var t := b.tiles[p];
    var next := AdjacentLocation(t.location, d);
    var q := Coord(next.column, next.row);
    assert b.tiles[q].location == next;
    assert StepInRange(t.location, d);
    DirectionToAdjacent(t.location, d);
  }

  /** The board and the location disagree wherever both coordinates differ
      (the board names the column's direction, the location the row's) and
      on a tile compared with itself (SOUTH against no direction). */
  lemma DirectionConventionsDiffer(b: Board, from: Tile, to: Tile)
    requires from.location.column != to.location.column && from.location.row != to.location.row
    ensures b.GetAdjacentTileDirection(from, to) in {East, West}
    ensures DirectionTo(from.location, to.location).value in {North, South}
    ensures Some(b.GetAdjacentTileDirection(from, to)) != DirectionTo(from.location, to.location)
    ensures b.GetAdjacentTileDirection(from, from) == South
    ensures DirectionTo(from.location, from.location) == None
  {
  }

  /** The rendered map has `getHeight()` lines of `getWidth()` characters,
      each followed by a line break, with each tile's character in its place
      and blanks elsewhere. */
  lemma TileMapShape(b: Board, width: nat, height: nat, row: nat, column: nat)
    requires b.Valid() && b.Width() == Some(width) && b.Height() == Some(height)
    requires row < height && column <= width
    ensures |Render(b.Glyphs(), width, height)| == Offset(width, height, 0)
    ensures Offset(width, row, column) < Offset(width, height, 0)
    ensures Render(b.Glyphs(), width, height)[Offset(width, row, column)] ==
              if column == width then '\n'
              else if Coord(column, row) in b.tiles then b.inverse[b.tiles[Coord(column, row)].kind]
              else ' '
  {
    var g := b.Glyphs();
    RenderAt(g, width, height, row, column);
  }

  /** Reading the rendered map back with the same character map makes tiles at
      the same coordinates with the same types, when no tile character is a
      blank. */
  lemma TileMapRoundTrip(b: Board)
    requires b.Valid() && b.tiles != map[] && ' ' !in b.tileTypeChars
    ensures LayoutKinds(b.tileTypeChars, Render(b.Glyphs(), b.Width().value, b.Height().value)) == b.Kinds()
  {
    var g := b.Glyphs();
    var w, h := b.Width().value, b.Height().value;
    assert Readable(g, b.tileTypeChars.Keys);
    RenderRoundTrip(g, b.tileTypeChars.Keys, w, h);
    assert LayoutKinds(b.tileTypeChars, Render(g, w, h)).Keys == b.Kinds().Keys;
  }
}
