/** The player colours (Colour.java), in declaration order. */
module Colours {
  import opened Wrappers

  datatype Colour = Black | White | Grey | Green | Blue | Red | Yellow | Pink | Orange | Magenta | Cran

  /** `Colour.values()`: the constants in declaration order. */
  const Values: seq<Colour> := [Black, White, Grey, Green, Blue, Red, Yellow, Pink, Orange, Magenta, Cran]

  /** `ordinal()`: the position of the constant in `values()`. */
  function Ordinal(c: Colour): (n: nat)
    ensures n < |Values| && Values[n] == c
  {
    match c
    case Black => 0
    case White => 1
    case Grey => 2
    case Green => 3
    case Blue => 4
    case Red => 5
    case Yellow => 6
    case Pink => 7
    case Orange => 8
    case Magenta => 9
    case Cran => 10
  }

  /** `getNext()`: the constant declared after this one, or null after the last. */
  function GetNext(c: Colour): (r: Option<Colour>)
    ensures r.Some? <==> c != Cran
    ensures r.Some? ==> Ordinal(r.value) == Ordinal(c) + 1 && r.value != c
  {
    if Ordinal(c) < |Values| - 1 then Some(Values[Ordinal(c) + 1]) else None
  }

  /** The colours met by following getNext from `c` until it yields null. */
  function Orbit(c: Colour): seq<Colour>
    decreases |Values| - Ordinal(c)
  {
    match GetNext(c)
    case None => [c]
    case Some(n) => [c] + Orbit(n)
  }

  lemma {:induction false} OrbitIsSuffix(i: nat)
    requires i < |Values|
    ensures Orbit(Values[i]) == Values[i..]
    decreases |Values| - i
  {
    assert GetNext(Values[i]) == if i < |Values| - 1 then Some(Values[i + 1]) else None by {
      NextAt(i);
    }
    assert Values[i..] == [Values[i]] + Values[i + 1..] by {
      SuffixCons(Values, i);
    }
    if i < |Values| - 1 {
      assert Orbit(Values[i + 1]) == Values[i + 1..] by {
        OrbitIsSuffix(i + 1);
      }
    }
  }

  /** `getNext` of the constant at position `i` is the one at `i + 1`, if any. */
  lemma NextAt(i: nat)
    requires i < |Values|
    ensures GetNext(Values[i]) == if i < |Values| - 1 then Some(Values[i + 1]) else None
  {
    var n := Ordinal(Values[i]);
    assert Values[n] == Values[i];
  }

  lemma SuffixCons<T>(s: seq<T>, i: nat)
    requires i < |s|
    ensures s[i..] == [s[i]] + s[i + 1..]
  {
  }

  /** Starting at BLACK, repeated getNext visits all eleven colours in
      declaration order and then yields null. */
  lemma OrbitFromBlack()
    ensures Orbit(Black) == Values
  {
    OrbitIsSuffix(0);
  }
}
