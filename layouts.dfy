/** The character maps boards are read from and written back to
    (Board.java's constructor loop and `getTileMap`), on values: a scan of the
    text that moves a (column, row) cursor and records one cell per tile
    character, and the renderer that lays cells out again, row by row. */
module Layouts {

  /** A `Pair<Integer>` key of the tile map: (column, row). */
  datatype Coord = Coord(column: int, row: int)

  /** The constructor's loop state: the cursor and the character of every
      tile made so far. */
  datatype Scan = Scan(at: Coord, cells: map<Coord, char>)

  const Start: Scan := Scan(Coord(0, 0), map[])

  /** How one character moves the cursor: a line break starts the next row,
      anything else (tile or not) moves one column on. */
  function Advance(at: Coord, c: char): Coord
  {
    if c == '\n' then Coord(0, at.row + 1) else Coord(at.column + 1, at.row)
  }

  /** One pass of the loop: a character that is a key makes a tile under the
      cursor, then the cursor moves. */
  function Step(st: Scan, c: char, keys: set<char>): Scan
  {
    Scan(Advance(st.at, c), if c != '\n' && c in keys then st.cells[st.at := c] else st.cells)
  }

  /** The loop over a prefix of the text. Only key characters other than a
      line break are ever recorded. */
  function Run(st: Scan, s: string, keys: set<char>): (r: Scan)
    ensures (forall p :: p in st.cells ==> st.cells[p] in keys && st.cells[p] != '\n') ==>
      forall p :: p in r.cells ==> r.cells[p] in keys && r.cells[p] != '\n'
    decreases |s|
  {
    if s == [] then st else Step(Run(st, s[..|s| - 1], keys), s[|s| - 1], keys)
  }

  /** The cells the constructor makes tiles for, each with its character. */
  function Layout(keys: set<char>, s: string): (r: map<Coord, char>)
    ensures forall p :: p in r ==> r[p] in keys && r[p] != '\n'
  {
    Run(Start, s, keys).cells
  }

  /** The tile type of every cell, through the character-to-type map. */
  function LayoutKinds(tileTypeChars: map<char, string>, s: string): (r: map<Coord, string>)
    ensures r.Keys == Layout(tileTypeChars.Keys, s).Keys
    ensures forall p :: p in r ==> r[p] == tileTypeChars[Layout(tileTypeChars.Keys, s)[p]]
  {
    var l := Layout(tileTypeChars.Keys, s);
    map p | p in l :: tileTypeChars[l[p]]
  }

  /** The cursor after reading `t` from the top-left corner. */
  function Cursor(t: string): Coord
    decreases |t|
  {
    if t == [] then Coord(0, 0) else Advance(Cursor(t[..|t| - 1]), t[|t| - 1])
  }

  /** Scanning `a` then `b` is scanning `a + b`. */
  lemma {:induction false} RunAppend(st: Scan, a: string, b: string, keys: set<char>)
    ensures Run(st, a + b, keys) == Run(Run(st, a, keys), b, keys)
    decreases |b|
  {
    if b == [] {
      assert a + b == a;
    } else {
      var b' := b[..|b| - 1];
      assert (a + b)[..|a + b| - 1] == a + b';
      assert (a + b)[|a + b| - 1] == b[|b| - 1];
      RunAppend(st, a, b', keys);
    }
  }

  /** Scanning one more character of the text. */
  lemma RunNext(s: string, i: nat, keys: set<char>)
    requires i < |s|
    ensures Run(Start, s[..i + 1], keys) == Step(Run(Start, s[..i], keys), s[i], keys)
  {
    assert s[..i + 1][..i] == s[..i];
  }

  /** The loop's cursor is `Cursor` of what it has read. */
  lemma {:induction false} RunAt(s: string, keys: set<char>)
    ensures Run(Start, s, keys).at == Cursor(s)
    decreases |s|
  {
    if s != [] {
      RunAt(s[..|s| - 1], keys);
    }
  }

  /** The cursor's row is the number of line breaks read. */
  lemma {:induction false} CursorRow(t: string)
    ensures Cursor(t).row == multiset(t)['\n']
    decreases |t|
  {
    if t != [] {
      var t' := t[..|t| - 1];
      CursorRow(t');
      assert t == t' + [t[|t| - 1]];
      assert multiset(t) == multiset(t') + multiset{t[|t| - 1]};
    }
  }

  /** The cursor's column is the number of characters since the last line
      break, or since the start. */
  lemma {:induction false} CursorColumn(t: string)
    ensures 0 <= Cursor(t).column <= |t|
    ensures '\n' !in t[|t| - Cursor(t).column..]
    ensures Cursor(t).column == |t| || t[|t| - Cursor(t).column - 1] == '\n'
    decreases |t|
  {
    if t != [] {
      var t' := t[..|t| - 1];
      var c := t[|t| - 1];
      assert t == t' + [c];
      var k := Cursor(t').column;
      assert k <= |t'| && '\n' !in t'[|t'| - k..] && (k == |t'| || t'[|t'| - k - 1] == '\n') by {
        CursorColumn(t');
      }
      if c != '\n' {
        assert Cursor(t).column == k + 1;
        ColumnStep(t', c, k);
      }
    }
  }

  /** One more character that is not a line break extends the last line. */
  lemma ColumnStep(t: string, c: char, k: nat)
    requires k <= |t| && '\n' !in t[|t| - k..] && (k == |t| || t[|t| - k - 1] == '\n')
    requires c != '\n'
    ensures '\n' !in (t + [c])[|t| - k..]
    ensures k == |t| || (t + [c])[|t| - k - 1] == '\n'
  {
    assert (t + [c])[|t| - k..] == t[|t| - k..] + [c];
  }

  /** What the cursor counts: its row is the number of line breaks read, and
      its column the number of characters since the last line break (or since
      the start). */
  lemma CursorMeaning(t: string)
    ensures Cursor(t).row == multiset(t)['\n']
    ensures 0 <= Cursor(t).column <= |t|
    ensures '\n' !in t[|t| - Cursor(t).column..]
    ensures Cursor(t).column == |t| || t[|t| - Cursor(t).column - 1] == '\n'
  {
    CursorRow(t);
    CursorColumn(t);
  }

  /** The cursor only moves forward: to a later row, or along the same row by
      exactly the number of characters read. */
  lemma {:induction false} CursorMovesForward(s: string, i: nat, j: nat)
    requires i <= j <= |s|
    ensures Cursor(s[..j]).row > Cursor(s[..i]).row
         || (Cursor(s[..j]).row == Cursor(s[..i]).row
             && Cursor(s[..j]).column == Cursor(s[..i]).column + (j - i))
    decreases j
  {
    if i < j {
      CursorMovesForward(s, i, j - 1);
      assert s[..j][..j - 1] == s[..j - 1];
    }
  }

  /** Different positions of the text put the cursor on different cells. */
  lemma CursorInjective(s: string, i: nat, j: nat)
    requires i < j <= |s|
    ensures Cursor(s[..i]) != Cursor(s[..j])
  {
    CursorMovesForward(s, i, j);
  }

  /** Reading one more character adds at most the cell under the cursor. */
  lemma LayoutSnoc(keys: set<char>, s: string)
    requires s != []
    ensures var s', c := s[..|s| - 1], s[|s| - 1];
      Layout(keys, s) == if c != '\n' && c in keys then Layout(keys, s')[Cursor(s') := c] else Layout(keys, s')
  {
    RunAt(s[..|s| - 1], keys);
  }

  /** Every key character other than a line break makes a tile under its
      cursor, with that character. */
  lemma {:induction false} LayoutHasEveryKey(keys: set<char>, s: string)
    ensures forall i :: 0 <= i < |s| && s[i] != '\n' && s[i] in keys ==>
      Cursor(s[..i]) in Layout(keys, s) && Layout(keys, s)[Cursor(s[..i])] == s[i]
    decreases |s|
  {
    if s != [] {
      var n := |s|;
      var s' := s[..n - 1];
      LayoutHasEveryKey(keys, s');
      LayoutSnoc(keys, s);
      var l := Layout(keys, s);
      forall i | 0 <= i < n && s[i] != '\n' && s[i] in keys
        ensures Cursor(s[..i]) in l && l[Cursor(s[..i])] == s[i]
      {
        if i < n - 1 {
          assert s[..i] == s'[..i] && s[i] == s'[i];
          CursorInjective(s, i, n - 1);
        }
      }
    }
  }

  /** Every tile comes from a key character under whose cursor it lies. */
  lemma {:induction false} LayoutHasOnlyKeys(keys: set<char>, s: string)
    ensures forall p :: p in Layout(keys, s) ==>
      exists i :: 0 <= i < |s| && s[i] != '\n' && s[i] in keys && Cursor(s[..i]) == p
    decreases |s|
  {
    if s != [] {
      var n := |s|;
      var s' := s[..n - 1];
      LayoutHasOnlyKeys(keys, s');
      LayoutSnoc(keys, s);
      var l' := Layout(keys, s');
      forall p | p in Layout(keys, s)
        ensures exists i :: 0 <= i < n && s[i] != '\n' && s[i] in keys && Cursor(s[..i]) == p
      {
        if p in l' {
          var i :| 0 <= i < |s'| && s'[i] != '\n' && s'[i] in keys && Cursor(s'[..i]) == p;
          assert s[..i] == s'[..i] && s[i] == s'[i];
        } else {
          assert Cursor(s[..n - 1]) == p;
        }
      }
    }
  }

  /** The constructor makes a tile exactly under the cursor of every key
      character other than a line break, with that character, and nowhere
      else. */
  lemma LayoutMeaning(keys: set<char>, s: string)
    ensures forall i :: 0 <= i < |s| && s[i] != '\n' && s[i] in keys ==>
      Cursor(s[..i]) in Layout(keys, s) && Layout(keys, s)[Cursor(s[..i])] == s[i]
    ensures forall p :: p in Layout(keys, s) ==>
      exists i :: 0 <= i < |s| && s[i] != '\n' && s[i] in keys && Cursor(s[..i]) == p
  {
    LayoutHasEveryKey(keys, s);
    LayoutHasOnlyKeys(keys, s);
  }

  /** What the renderer writes at a cell: the cell's character, or a blank. */
  function Cell(g: map<Coord, char>, column: int, row: int): char
  {
    if Coord(column, row) in g then g[Coord(column, row)] else ' '
  }

  /** The first `width` cells of one row. */
  function Line(g: map<Coord, char>, row: int, width: nat): string
  {
    if width == 0 then [] else Line(g, row, width - 1) + [Cell(g, width - 1, row)]
  }

  /** `getTileMap`'s text: `height` rows of `width` cells, each row ended by
      a line break. */
  function Render(g: map<Coord, char>, width: nat, height: nat): string
  {
    if height == 0 then [] else Render(g, width, height - 1) + Line(g, height - 1, width) + "\n"
  }

  lemma {:induction false} LineAt(g: map<Coord, char>, row: int, width: nat)
    ensures |Line(g, row, width)| == width
    ensures forall c :: 0 <= c < width ==> Line(g, row, width)[c] == Cell(g, c, row)
  {
    if width > 0 {
      LineAt(g, row, width - 1);
    }
  }

  /** Where row `row`, column `column` starts in text made of lines of
      `width` characters and a line break each. */
  function Offset(width: nat, row: nat, column: nat): nat
  {
    row * (width + 1) + column
  }

  /** Each line takes `width + 1` characters. */
  lemma OffsetNextRow(width: nat, row: nat)
    ensures Offset(width, row + 1, 0) == Offset(width, row, 0) + width + 1
  {
    assert (row + 1) * (width + 1) == row * (width + 1) + (width + 1);
  }

  /** A cell of an earlier row, or the line break ending it, lies before a later row. */
  lemma {:induction false} OffsetBelow(width: nat, row: nat, column: nat, height: nat)
    requires row < height && column <= width
    ensures Offset(width, row, column) < Offset(width, height, 0)
    decreases height
  {
    OffsetNextRow(width, height - 1);
    if row < height - 1 {
      OffsetBelow(width, row, column, height - 1);
    }
  }

  lemma {:induction false} RenderLength(g: map<Coord, char>, width: nat, height: nat)
    ensures |Render(g, width, height)| == Offset(width, height, 0)
    decreases height
  {
    if height > 0 {
      RenderLength(g, width, height - 1);
      LineAt(g, height - 1, width);
      OffsetNextRow(width, height - 1);
    }
  }

  /** The shape of the rendered text: `height` lines of `width` characters
      and a line break each; the text at row r, column c is that cell's
      character or a blank. */
  lemma {:induction false} RenderAt(g: map<Coord, char>, width: nat, height: nat, r: nat, c: nat)
    requires r < height && c <= width
    ensures |Render(g, width, height)| == Offset(width, height, 0)
    ensures Offset(width, r, c) < Offset(width, height, 0)
    ensures Render(g, width, height)[Offset(width, r, c)] == if c == width then '\n' else Cell(g, c, r)
    decreases height
  {
    RenderLength(g, width, height);
    OffsetBelow(width, r, c, height);
    var prefix := Render(g, width, height - 1);
    var line := Line(g, height - 1, width);
    assert |prefix| == Offset(width, height - 1, 0) by {
      RenderLength(g, width, height - 1);
    }
    assert Render(g, width, height) == prefix + (line + "\n");
    if r < height - 1 {
      OffsetBelow(width, r, c, height - 1);
      RenderAt(g, width, height - 1, r, c);
    } else {
      LineAt(g, height - 1, width);
      assert Offset(width, r, c) == |prefix| + c;
      assert (line + "\n")[c] == if c == width then '\n' else Cell(g, c, r);
    }
  }

  /** Every cell of `g` lies in the first `width` columns and `height` rows. */
  predicate WithinBounds(g: map<Coord, char>, width: nat, height: nat)
  {
    forall p :: p in g ==> 0 <= p.column < width && 0 <= p.row < height
  }

  /** Every recorded character is a key and no line break, and the blank is
      no key. */
  predicate Readable(g: map<Coord, char>, keys: set<char>)
  {
    ' ' !in keys && forall p :: p in g ==> g[p] in keys && g[p] != '\n'
  }

  /** The cells of `g` in the first `width` columns that come before
      (column, row) in reading order. */
  function Part(g: map<Coord, char>, width: nat, row: int, column: int): map<Coord, char>
  {
    map p | p in g && 0 <= p.column < width && 0 <= p.row
                   && (p.row < row || (p.row == row && p.column < column)) :: g[p]
  }

  /** Reading order moves one cell along a row. */
  lemma PartStep(g: map<Coord, char>, width: nat, row: nat, column: nat)
    requires column < width
    ensures Part(g, width, row, column + 1)
         == if Coord(column, row) in g then Part(g, width, row, column)[Coord(column, row) := g[Coord(column, row)]]
            else Part(g, width, row, column)
  {
    var before := Part(g, width, row, column);
    var after := Part(g, width, row, column + 1);
    var q := Coord(column, row);
    forall p
      ensures p in after <==> p in before || (p == q && q in g)
    {
    }
  }

  /** The end of one row is the start of the next. */
  lemma PartNextRow(g: map<Coord, char>, width: nat, row: int)
    ensures Part(g, width, row, width) == Part(g, width, row + 1, 0)
  {
    forall p
      ensures p in Part(g, width, row, width) <==> p in Part(g, width, row + 1, 0)
    {
    }
  }

  /** Scanning one more character of a row written by the renderer. */
  lemma StepCell(g: map<Coord, char>, keys: set<char>, width: nat, row: nat, column: nat)
    requires Readable(g, keys) && 0 < column <= width
    ensures Step(Scan(Coord(column - 1, row), Part(g, width, row, column - 1)), Cell(g, column - 1, row), keys)
         == Scan(Coord(column, row), Part(g, width, row, column))
  {
    PartStep(g, width, row, column - 1);
  }

  lemma RunOne(st: Scan, c: char, keys: set<char>)
    ensures Run(st, [c], keys) == Step(st, c, keys)
  {
    assert [c][..0] == [];
  }

  lemma RunSnoc(st: Scan, t: string, x: char, keys: set<char>)
    ensures Run(st, t + [x], keys) == Step(Run(st, t, keys), x, keys)
  {
    assert (t + [x])[..|t + [x]| - 1] == t;
  }

  /** Scanning one rendered row records exactly that row's cells. */
  lemma {:induction false} RunLine(g: map<Coord, char>, keys: set<char>, width: nat, row: nat, column: nat)
    requires Readable(g, keys) && column <= width
    ensures Run(Scan(Coord(0, row), Part(g, width, row, 0)), Line(g, row, column), keys)
         == Scan(Coord(column, row), Part(g, width, row, column))
    decreases column
  {
    if column > 0 {
      var st := Scan(Coord(0, row), Part(g, width, row, 0));
      var t := Line(g, row, column - 1);
      var x := Cell(g, column - 1, row);
      var before := Scan(Coord(column - 1, row), Part(g, width, row, column - 1));
      RunLine(g, keys, width, row, column - 1);
      assert Run(st, t + [x], keys) == Step(before, x, keys) by {
        RunSnoc(st, t, x, keys);
      }
      assert Step(before, x, keys) == Scan(Coord(column, row), Part(g, width, row, column)) by {
        StepCell(g, keys, width, row, column);
      }
    }
  }

  /** Scanning the rendering of `height` rows is scanning the first
      `height - 1` rows, then the last row, then its line break. */
  lemma RunRenderSplit(g: map<Coord, char>, keys: set<char>, width: nat, height: nat)
    requires height > 0
    ensures Run(Start, Render(g, width, height), keys)
         == Run(Run(Run(Start, Render(g, width, height - 1), keys), Line(g, height - 1, width), keys), "\n", keys)
  {
    var prefix := Render(g, width, height - 1);
    var line := Line(g, height - 1, width);
    RunAppend(Start, prefix + line, "\n", keys);
    RunAppend(Start, prefix, line, keys);
  }

  /** Scanning one more rendered row, and its line break, moves on from the
      start of that row to the start of the next. */
  lemma RunRenderStep(g: map<Coord, char>, keys: set<char>, width: nat, height: nat)
    requires Readable(g, keys) && height > 0
    requires Run(Start, Render(g, width, height - 1), keys) == Scan(Coord(0, height - 1), Part(g, width, height - 1, 0))
    ensures Run(Start, Render(g, width, height), keys) == Scan(Coord(0, height), Part(g, width, height, 0))
  {
    var mid := Scan(Coord(0, height - 1), Part(g, width, height - 1, 0));
    var end := Scan(Coord(width, height - 1), Part(g, width, height - 1, width));
    assert Run(mid, Line(g, height - 1, width), keys) == end by {
      RunLine(g, keys, width, height - 1, width);
    }
    assert Run(Start, Render(g, width, height), keys) == Run(end, "\n", keys) by {
      RunRenderSplit(g, keys, width, height);
    }
    assert Run(end, "\n", keys) == Step(end, '\n', keys) by {
      RunOne(end, '\n', keys);
    }
    assert Step(end, '\n', keys) == Scan(Coord(0, height), Part(g, width, height, 0)) by {
      PartNextRow(g, width, height - 1);
    }
  }

  /** Scanning the first `height` rendered rows records all cells of those rows. */
  lemma {:induction false} RunRender(g: map<Coord, char>, keys: set<char>, width: nat, height: nat)
    requires Readable(g, keys)
    ensures Run(Start, Render(g, width, height), keys) == Scan(Coord(0, height), Part(g, width, height, 0))
    decreases height
  {
    if height == 0 {
      assert Part(g, width, 0, 0).Keys == {};
    } else {
      RunRender(g, keys, width, height - 1);
      RunRenderStep(g, keys, width, height);
    }
  }

  /** Reading a rendered map back finds every cell again, with its character,
      and nothing else, provided the blank is not a tile character. */
  lemma RenderRoundTrip(g: map<Coord, char>, keys: set<char>, width: nat, height: nat)
    requires Readable(g, keys) && WithinBounds(g, width, height)
    ensures Layout(keys, Render(g, width, height)) == g
  {
    RunRender(g, keys, width, height);
    assert Part(g, width, height, 0).Keys == g.Keys;
  }
}
