/** Board coordinates (Location.java): an immutable (column, row) pair of Java
    ints. Java's 32-bit wrap-around is written out wherever `hashCode` and
    `getAdjacentLocation` add. */
module Locations {
  import opened Wrappers
  import opened Directions
  import Decimal

  const TwoTo32: int := 0x1_0000_0000
  const MinInt32: int := -0x8000_0000
  const MaxInt32: int := 0x7fff_ffff

  type Int32 = x: int | -0x8000_0000 <= x < 0x8000_0000

  /** Java `int` arithmetic: the value congruent to `x` modulo 2^32 in the int range. */
  function Wrap32(x: int): (r: Int32)
    ensures (x - r) % TwoTo32 == 0
    ensures MinInt32 <= x <= MaxInt32 ==> r == x
  {
    (x + 0x8000_0000) % TwoTo32 - 0x8000_0000
  }

  lemma WrapAbsorbs(x: int, k: int)
    ensures Wrap32(x + k * TwoTo32) == Wrap32(x)
  {
    var a := x + 0x8000_0000;
    assert (a + k * TwoTo32) % TwoTo32 == a % TwoTo32;
  }

  /** Wrapping an intermediate result does not change the wrapped final sum. */
  lemma WrapInner(x: int, m: int, y: int)
    ensures Wrap32(m * Wrap32(x) + y) == Wrap32(m * x + y)
  {
    var r := Wrap32(x);
    var k := (x - r) / TwoTo32;
    assert x == r + k * TwoTo32;
    assert m * x + y == (m * r + y) + (m * k) * TwoTo32 by {
      assert m * x == m * r + m * (k * TwoTo32);
    }
    WrapAbsorbs(m * r + y, m * k);
  }

  datatype Location = Location(column: Int32, row: Int32)

  /** The argument of `equals(Object)`: a location or some other object. */
  datatype JavaObject = LocationObject(loc: Location) | OtherObject

  /** `equals`: another location with the same column and the same row. */
  function Equals(l: Location, o: JavaObject): (r: bool)
    ensures r <==> o == LocationObject(l)
  {
    match o
    case LocationObject(m) => m.column == l.column && m.row == l.row
    case OtherObject => false
  }

  /** `hashCode`: 97 * (97 * 3 + column) + row in 32-bit arithmetic. */
  function HashCode(l: Location): Int32
  {
    var hash := 3;
    var hash := Wrap32(97 * hash + l.column);
    Wrap32(97 * hash + l.row)
  }

  /** Equal locations hash alike. */
  lemma EqualsImpliesSameHash(a: Location, b: Location)
    requires Equals(a, LocationObject(b))
    ensures HashCode(a) == HashCode(b)
  {
  }

  /** The hash is the closed form 28227 + 97 * column + row, reduced to 32 bits. */
  lemma HashCodeClosedForm(l: Location)
    ensures HashCode(l) == Wrap32(28227 + 97 * l.column + l.row)
  {
    WrapInner(291 + l.column, 97, l.row);
  }

  /** `getAdjacentLocation`: one step in the given direction (NORTH is row - 1). */
  function AdjacentLocation(l: Location, d: Direction): (r: Location)
    ensures d == North ==> r == Location(l.column, Wrap32(l.row - 1))
    ensures d == South ==> r == Location(l.column, Wrap32(l.row + 1))
    ensures d == West ==> r == Location(Wrap32(l.column - 1), l.row)
    ensures d == East ==> r == Location(Wrap32(l.column + 1), l.row)
  {
    var column := if d == West then Wrap32(l.column - 1)
                  else if d == East then Wrap32(l.column + 1)
                  else l.column;
    var row := if d == North then Wrap32(l.row - 1)
               else if d == South then Wrap32(l.row + 1)
               else l.row;
    Location(column, row)
  }

  /** A step from this location does not leave the int range. */
  predicate StepInRange(l: Location, d: Direction)
  {
    match d
    case North => l.row > MinInt32
    case South => l.row < MaxInt32
    case West => l.column > MinInt32
    case East => l.column < MaxInt32
  }

  /** Away from the int range's ends, a step changes exactly one coordinate by exactly one. */
  lemma AdjacentChangesOneCoordinate(l: Location, d: Direction)
    requires StepInRange(l, d)
    ensures var r := AdjacentLocation(l, d);
      (d == North || d == South ==> r.column == l.column && (r.row - l.row == 1 || l.row - r.row == 1))
      && (d == East || d == West ==> r.row == l.row && (r.column - l.column == 1 || l.column - r.column == 1))
  {
  }

  /** `getDirectionToLocation`: the direction from this location towards `loc`,
      rows compared first; null when the two are the same place. */
  function DirectionTo(l: Location, loc: Location): (r: Option<Direction>)
    ensures r.None? <==> l == loc
  {
    if l.row < loc.row then Some(South)
    else if l.row > loc.row then Some(North)
    else if l.column < loc.column then Some(East)
    else if l.column > loc.column then Some(West)
    else None
  }

  /** A row difference decides the direction whatever the columns are. */
  lemma RowTakesPriority(l: Location, loc: Location)
    requires l.row != loc.row
    ensures DirectionTo(l, loc) == if l.row < loc.row then Some(South) else Some(North)
  {
  }

  /** The direction to a neighbour is the direction that was stepped. */
  lemma DirectionToAdjacent(l: Location, d: Direction)
    requires StepInRange(l, d)
    ensures DirectionTo(l, AdjacentLocation(l, d)) == Some(d)
  {
  }

  /** At the int range's end the step wraps around to the other end, so the
      neighbour is reported in the opposing direction. */
  lemma DirectionToAdjacentWrapsAtEdge(l: Location, d: Direction)
    requires !StepInRange(l, d)
    ensures DirectionTo(l, AdjacentLocation(l, d)) == Some(Opposing(d))
  {
  }

  lemma WrapStepBack(x: Int32, k: int)
    requires k == 1 || k == -1
    ensures Wrap32(Wrap32(x + k) - k) == x
  {
    WrapInner(x + k, 1, -k);
  }

  /** A step followed by a step in the opposing direction comes back, even
      across the wrap-around. */
  lemma AdjacentThenOpposing(l: Location, d: Direction)
    ensures AdjacentLocation(AdjacentLocation(l, d), Opposing(d)) == l
  {
    match d
    case North => WrapStepBack(l.row, -1);
    case South => WrapStepBack(l.row, 1);
    case West => WrapStepBack(l.column, -1);
    case East => WrapStepBack(l.column, 1);
  }

  /** `toString`: "(column,row)". */
  function ToString(l: Location): string
  {
    "(" + Decimal.IntToString(l.column) + "," + Decimal.IntToString(l.row) + ")"
  }

  /** The first position of `c` in `s`. */
  function IndexOf(s: string, c: char): (r: Option<nat>)
    ensures r.Some? ==> r.value < |s| && s[r.value] == c && c !in s[..r.value]
    ensures r.None? ==> c !in s
  {
    if s == [] then None
    else if s[0] == c then Some(0)
    else match IndexOf(s[1..], c)
      case None => None
      case Some(i) => assert s[..i + 1] == [s[0]] + s[1..][..i]; Some(i + 1)
  }

  /** Reads "(column,row)" back into a location. */
  function Parse(s: string): Option<Location>
  {
    if |s| < 2 || s[0] != '(' || s[|s| - 1] != ')' then None
    else
      var inner := s[1..|s| - 1];
      match IndexOf(inner, ',')
      case None => None
      case Some(i) =>
        match (Decimal.ParseInt(inner[..i]), Decimal.ParseInt(inner[i + 1..]))
        case (Some(c), Some(r)) =>
          if MinInt32 <= c <= MaxInt32 && MinInt32 <= r <= MaxInt32 then Some(Location(c, r)) else None
        case _ => None
  }

  lemma IndexAfterDigits(a: string, b: string)
    requires ',' !in a
    ensures IndexOf(a + "," + b, ',') == Some(|a|)
  {
    var s := a + "," + b;
    assert s[|a|] == ',' && s[..|a|] == a;
  }

  /** toString loses nothing: reading it back gives the location. */
  lemma ToStringRoundTrip(l: Location)
    ensures Parse(ToString(l)) == Some(l)
  {
    var a := Decimal.IntToString(l.column);
    var b := Decimal.IntToString(l.row);
    var s := ToString(l);
    assert ',' !in a by {
      assert forall k :: 1 <= k < |a| ==> a[k] == a[1..][k - 1];
    }
    var inner := s[1..|s| - 1];
    assert inner == a + "," + b;
    IndexAfterDigits(a, b);
    assert inner[..|a|] == a;
    assert inner[|a| + 1..] == b;
    Decimal.IntRoundTrip(l.column);
    Decimal.IntRoundTrip(l.row);
  }
}
