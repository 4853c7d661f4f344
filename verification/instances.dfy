/**
  Concrete problems: the simplified map of India that the program colours,
  and a triangle of three mutually adjacent regions on which single runs of
  the search are followed step by step.
*/
module Instances {
  import opened Wrappers
  import opened Coloring
  import opened SearchProperties

  datatype Region =
    | JammuKashmir | Himachal | Punjab | Haryana | Rajasthan | UttarPradesh
    | Bihar | MadhyaPradesh | Gujarat | Maharashtra | Chhattisgarh | Odisha

  datatype Colour = Red | Green | Blue | Yellow

  /** Each region's neighbour list, in the order the program lists it. */
  function NeighborsOf(r: Region): seq<Region>
  {
    match r
    case JammuKashmir => [Himachal, Punjab]
    case Himachal => [JammuKashmir, Punjab, Haryana]
    case Punjab => [JammuKashmir, Himachal, Haryana, Rajasthan]
    case Haryana => [Punjab, Himachal, Rajasthan, UttarPradesh]
    case Rajasthan => [Punjab, Haryana, UttarPradesh, MadhyaPradesh, Gujarat]
    case UttarPradesh => [Haryana, Rajasthan, MadhyaPradesh, Chhattisgarh, Bihar]
    case Bihar => [UttarPradesh, Chhattisgarh, Odisha]
    case MadhyaPradesh => [Rajasthan, UttarPradesh, Chhattisgarh, Maharashtra, Gujarat]
    case Gujarat => [Rajasthan, MadhyaPradesh, Maharashtra]
    case Maharashtra => [Gujarat, MadhyaPradesh, Chhattisgarh]
    case Chhattisgarh => [MadhyaPradesh, UttarPradesh, Bihar, Odisha, Maharashtra]
    case Odisha => [Chhattisgarh, Bihar]
  }

  /** Twelve regions in branching order, four colours in trial order, and a
      neighbour list for every region. */
  const India: Problem<Region, Colour> := Problem(
    [JammuKashmir, Himachal, Punjab, Haryana, Rajasthan, UttarPradesh,
     Bihar, MadhyaPradesh, Gujarat, Maharashtra, Chhattisgarh, Odisha],
    [Red, Green, Blue, Yellow],
    map r: Region :: NeighborsOf(r))

  /** The neighbour lists describe a symmetric, loop-free adjacency. */
  lemma NeighborsSymmetric()
    ensures forall s, n :: n in NeighborsOf(s) ==> n != s && s in NeighborsOf(n)
  {
  }

  /** The map of India meets every assumption of the general results: no
      region is listed twice, every region has a neighbour list, every
      neighbour is a region, and adjacency is symmetric and loop-free. */
  lemma IndiaWellFormed()
    ensures Distinct(India.states)
    ensures forall s :: s in India.states ==> s in India.neighbors
    ensures forall s, n :: s in India.neighbors && n in India.neighbors[s] ==> n in India.states
    ensures SymmetricIrreflexive(India)
  {
    assert Distinct(India.states);
    NeighborsSymmetric();
  }

  /** A four-colouring of the map. */
  function ColourOf(r: Region): Colour
  {
    match r
    case JammuKashmir => Red
    case Himachal => Green
    case Punjab => Blue
    case Haryana => Red
    case Rajasthan => Green
    case UttarPradesh => Blue
    case Bihar => Red
    case MadhyaPradesh => Red
    case Gujarat => Blue
    case Maharashtra => Green
    case Chhattisgarh => Yellow
    case Odisha => Green
  }

  /** Neighbouring regions get different colours. */
  lemma ColourOfSeparatesNeighbors()
    ensures forall s, n :: n in NeighborsOf(s) ==> ColourOf(s) != ColourOf(n)
  {
  }

  /** The map of India has a proper colouring with the program's palette. */
  lemma IndiaIsFourColourable()
    ensures Completes(India, map[], map r: Region :: ColourOf(r))
  {
    var x := map r: Region :: ColourOf(r);
    assert NewColorsFromPalette(India, map[], x) by {
      forall c: Colour
        ensures c in India.colors
      {
        match c
        case Red => case Green => case Blue => case Yellow =>
      }
    }
    assert Proper(India, x) by {
      ColourOfSeparatesNeighbors();
    }
  }

  /** The run the program starts: from the empty assignment the search finds
      a solution, and that solution gives every region of the map a palette
      colour different from the colours of its neighbours. */
  lemma IndiaSolved()
    ensures var r := Backtrack(India, map[], 0);
      && r.outcome.Found?
      && Completes(India, map[], r.assignment)
      && r.assignment.Keys == Elems(India.states)
  {
    IndiaWellFormed();
    IndiaIsFourColourable();
    NeverRaises(India, map[], 0);
    Completeness(India, map[], 0);
    Soundness(India, map[], 0);
  }

  /* ---------------------------------------------------------------------- */
  /* A triangle, followed step by step                                        */
  /* ---------------------------------------------------------------------- */

  datatype Corner = A | B | C

  /** Three mutually adjacent regions, branched on in the order A, B, C. */
  function Triangle(palette: seq<Colour>): Problem<Corner, Colour>
  {
    Problem([A, B, C], palette, map[A := [B, C], B := [A, C], C := [A, B]])
  }

  /** The corner the search branches on: the first one, in the order A, B, C,
      that `a` leaves uncoloured. */
  lemma TriangleBranchesOn(palette: seq<Colour>, a: map<Corner, Colour>)
    ensures A !in a ==> FirstUncolored(Triangle(palette).states, a) == Some(0)
    ensures A in a && B !in a ==> FirstUncolored(Triangle(palette).states, a) == Some(1)
    ensures A in a && B in a && C !in a ==> FirstUncolored(Triangle(palette).states, a) == Some(2)
  {
    var t := Triangle(palette).states;
    assert t[1..] == [B, C] && t[1..][1..] == [C] && t[1..][1..][1..] == [];
    if A in a && B in a && C !in a {
      assert FirstUncolored(t[1..][1..], a) == Some(0);
    }
  }

  /** With three colours the search never backtracks: it colours the corners
      red, green and blue in three moves. */
  lemma TriangleThreeColours(p: Problem<Corner, Colour>, m: nat)
    requires p == Triangle([Red, Green, Blue])
    ensures Backtrack(p, map[], m) == Run(Found, map[A := Red, B := Green, C := Blue], m + 3)
  {
    var e: map<Corner, Colour> := map[];
    ThreeColoursAfterRed(p, m + 1);
    assert Backtrack(p, e, m) == TryColors(p, e, A, 0, m) by {
      TriangleBranchesOn(p.colors, e);
    }
    assert e[A := p.colors[0]] == map[A := Red];
    TryColorsStops(p, e, A, 0, m);
  }

  /** With three colours and the first corner red, the other two corners get
      green and blue. */
  lemma ThreeColoursAfterRed(p: Problem<Corner, Colour>, m: nat)
    requires p == Triangle([Red, Green, Blue])
    ensures Backtrack(p, map[A := Red], m) == Run(Found, map[A := Red, B := Green, C := Blue], m + 2)
  {
    var a1 := map[A := Red];
    var a2 := map[A := Red, B := Green];
    ThreeColoursLastCorner(p, m + 1);
    assert Backtrack(p, a1, m) == TryColors(p, a1, B, 0, m) by {
      TriangleBranchesOn(p.colors, a1);
    }
    assert a1[B := p.colors[1]] == a2;
    TryColorsSkips(p, a1, B, 0, m);
    TryColorsStops(p, a1, B, 1, m);
  }

  /** With three colours, red and green taken, the last corner gets blue. */
  lemma ThreeColoursLastCorner(p: Problem<Corner, Colour>, m: nat)
    requires p == Triangle([Red, Green, Blue])
    ensures Backtrack(p, map[A := Red, B := Green], m) == Run(Found, map[A := Red, B := Green, C := Blue], m + 1)
  {
    var a2 := map[A := Red, B := Green];
    var a3 := map[A := Red, B := Green, C := Blue];
    assert Backtrack(p, a2, m) == TryColors(p, a2, C, 0, m) by {
      TriangleBranchesOn(p.colors, a2);
    }
    assert a2[C := p.colors[2]] == a3;
    assert Backtrack(p, a3, m + 1) == Run(Found, a3, m + 1);
    TryColorsSkips(p, a2, C, 0, m);
    TryColorsSkips(p, a2, C, 1, m);
    TryColorsStops(p, a2, C, 2, m);
  }

  /** With two colours there is no solution: the search tries red and then
      green for the first corner, each followed by one colour for the
      second, and gives up after four moves with the assignment empty again. */
  lemma TriangleTwoColours(p: Problem<Corner, Colour>, m: nat)
    requires p == Triangle([Red, Green])
    ensures Backtrack(p, map[], m) == Run(NotFound, map[], m + 4)
  {
    var e: map<Corner, Colour> := map[];
    assert Backtrack(p, e, m) == TryColors(p, e, A, 0, m) by {
      TriangleBranchesOn(p.colors, e);
    }
    FirstCornerTried(p, 0, m);
    FirstCornerTried(p, 1, m + 2);
  }

  /** With two colours, trying colour `i` on the first corner costs two moves
      and leads to the next colour. */
  lemma FirstCornerTried(p: Problem<Corner, Colour>, i: nat, n: nat)
    requires p == Triangle([Red, Green]) && i < 2
    ensures TryColors(p, map[], A, i, n) == TryColors(p, map[], A, i + 1, n + 2)
  {
    var e: map<Corner, Colour> := map[];
    var c := p.colors[i];
    TwoColoursFirstCornerFails(p, c, if i == 0 then Green else Red, n + 1);
    assert e[A := c] == map[A := c];
    TryColorsRetries(p, e, A, i, n);
  }

  /** With two colours, once the first two corners have both colours the
      third has none left, and the search fails without a move. */
  lemma TwoColoursDeadEnd(p: Problem<Corner, Colour>, first: Colour, second: Colour, m: nat)
    requires p == Triangle([Red, Green])
    requires {first, second} == {Red, Green}
    ensures var a := map[A := first, B := second];
      Backtrack(p, a, m) == Run(NotFound, a, m)
  {
    var a := map[A := first, B := second];
    assert Backtrack(p, a, m) == TryColors(p, a, C, 0, m) by {
      TriangleBranchesOn(p.colors, a);
    }
    assert p.neighbors[C] == [A, B] && a[A] == first && a[B] == second;
    assert !IsSafe(p, C, first, a) && !IsSafe(p, C, second, a);
    assert forall k :: 0 <= k < |p.colors| ==> p.colors[k] in {first, second};
    TryColorsAllClash(p, a, C, 0, m);
  }

  /** With two colours, whichever colour `first` the first corner gets, the
      second corner can only take the other colour `second`, after which the
      third corner has none left: one move, and the search below fails. */
  lemma TwoColoursFirstCornerFails(p: Problem<Corner, Colour>, first: Colour, second: Colour, m: nat)
    requires p == Triangle([Red, Green])
    requires {first, second} == {Red, Green} && first != second
    ensures Backtrack(p, map[A := first], m) == Run(NotFound, map[A := first], m + 1)
  {
    var a1 := map[A := first];
    assert Backtrack(p, a1, m) == TryColors(p, a1, B, 0, m) by {
      TriangleBranchesOn(p.colors, a1);
    }
    TwoColoursDeadEnd(p, first, second, m + 1);
    assert a1[B := second] == map[A := first, B := second];
    if first == Red {
      SecondCornerGreen(p, m);
    } else {
      SecondCornerRed(p, m);
    }
  }

  /** The first corner red: green is the only choice for the second. */
  lemma SecondCornerGreen(p: Problem<Corner, Colour>, m: nat)
    requires p == Triangle([Red, Green])
    requires Backtrack(p, map[A := Red, B := Green], m + 1).outcome.NotFound?
    ensures TryColors(p, map[A := Red], B, 0, m)
         == TryColors(p, map[A := Red], B, 2, Backtrack(p, map[A := Red, B := Green], m + 1).moves)
  {
    var a1 := map[A := Red];
    assert a1[B := p.colors[1]] == map[A := Red, B := Green];
    TryColorsSkips(p, a1, B, 0, m);
    TryColorsRetries(p, a1, B, 1, m);
  }

  /** The first corner green: red is the only choice for the second. */
  lemma SecondCornerRed(p: Problem<Corner, Colour>, m: nat)
    requires p == Triangle([Red, Green])
    requires Backtrack(p, map[A := Green, B := Red], m + 1).outcome.NotFound?
    ensures TryColors(p, map[A := Green], B, 0, m)
         == TryColors(p, map[A := Green], B, 2, Backtrack(p, map[A := Green, B := Red], m + 1).moves)
  {
    var a1 := map[A := Green];
    assert a1[B := p.colors[0]] == map[A := Green, B := Red];
    TryColorsRetries(p, a1, B, 0, m);
    TryColorsSkips(p, a1, B, 1, Backtrack(p, map[A := Green, B := Red], m + 1).moves);
  }
}
