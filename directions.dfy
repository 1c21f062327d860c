/** The four compass directions of the board (Direction.java). */
module Directions {
  import opened Wrappers
  import Text

  datatype Direction = North | East | South | West

  /** Each constant prints as its single upper-case letter. */
  function ToString(d: Direction): (s: string)
    ensures |s| == 1 && 'A' <= s[0] <= 'Z'
  {
    match d
    case North => "N"
    case East => "E"
    case South => "S"
    case West => "W"
  }

  /** The direction pointing the other way. */
  function Opposing(d: Direction): Direction
  {
    match d
    case North => South
    case West => East
    case South => North
    case East => West
  }

  /** Opposing pairs NORTH with SOUTH and EAST with WEST, never returns its
      argument and undoes itself. */
  lemma OpposingIsInvolution(d: Direction)
    ensures Opposing(d) != d && Opposing(Opposing(d)) == d
    ensures (d == North <==> Opposing(d) == South) && (d == East <==> Opposing(d) == West)
  {
  }

  /** A one-letter name, in either case, read back as a direction; anything
      else gives no direction. */
  function ValueOfSingle(s: string): (r: Option<Direction>)
    ensures r == Some(North) <==> s == "n" || s == "N"
    ensures r == Some(West) <==> s == "w" || s == "W"
    ensures r == Some(East) <==> s == "e" || s == "E"
    ensures r == Some(South) <==> s == "s" || s == "S"
  {
    var d := Text.ToLower(s);
    LowerSingle(s);
    if d == "n" then Some(North)
    else if d == "w" then Some(West)
    else if d == "e" then Some(East)
    else if d == "s" then Some(South)
    else None
  }

  lemma LowerSingle(s: string)
    ensures Text.ToLower(s) == "n" <==> s == "n" || s == "N"
    ensures Text.ToLower(s) == "w" <==> s == "w" || s == "W"
    ensures Text.ToLower(s) == "e" <==> s == "e" || s == "E"
    ensures Text.ToLower(s) == "s" <==> s == "s" || s == "S"
  {
    var d := Text.ToLower(s);
    if |s| == 1 {
      assert d == [Text.LowerChar(s[0])];
    } else {
      assert |d| != 1;
    }
  }

  /** Reading back a direction's printed letter gives the direction. */
  lemma ValueOfToString(d: Direction)
    ensures ValueOfSingle(ToString(d)) == Some(d)
  {
  }
}
