/**
  Map colouring as a constraint-satisfaction problem, solved by plain
  chronological backtracking: variables are the regions ("states") of a map,
  the domain of every variable is one ordered palette, and the only
  constraint is that two neighbouring regions get different colours.

  The search is modelled as a pair of mutually recursive functions:
  `Backtrack` is one call of the recursive search and `TryColors` is its
  loop over the palette. The dictionary that the search mutates in place is
  threaded through as a value, and so is the move counter.
*/
module Coloring {
  import opened Wrappers

  /** A problem instance: the regions in branching order, the palette in trial
      order, and each region's list of neighbours. */
  datatype Problem<S, C> = Problem(states: seq<S>, colors: seq<C>, neighbors: map<S, seq<S>>)

  /** The run-time faults the search can raise on malformed input. */
  datatype Fault<S> =
    | KeyError(key: S)   // the region to branch on has no neighbour list
    | UnboundLocal       // the length test failed, yet no region is left uncoloured

  /** How one call of the search ends. On `Found` the solution is the
      assignment the search leaves behind: the source returns the very
      dictionary it was given. */
  datatype Outcome<S> = Found | NotFound | Raised(fault: Fault<S>)

  /** The outcome, the contents of the assignment when the call returns, and
      the move counter at that moment. */
  datatype Run<S, C> = Run(outcome: Outcome<S>, assignment: map<S, C>, moves: nat)

  /** The set of distinct elements of a sequence. */
  function Elems<S>(xs: seq<S>): set<S>
  {
    set x | x in xs
  }

  /** A sequence has at most as many distinct elements as it is long, and
      exactly as many when no element repeats. */
  lemma {:induction false} ElemsCard<S>(xs: seq<S>)
    ensures |Elems(xs)| <= |xs|
    ensures Distinct(xs) ==> |Elems(xs)| == |xs|
  {
    if |xs| > 0 {
      ElemsCard(xs[1..]);
      assert Elems(xs) == {xs[0]} + Elems(xs[1..]);
      if Distinct(xs) {
        assert xs[0] !in Elems(xs[1..]);
      }
    }
  }

  /** No region occurs twice in the branching order. */
  ghost predicate Distinct<S>(xs: seq<S>)
  {
    forall i, j :: 0 <= i < j < |xs| ==> xs[i] != xs[j]
  }

  /** The regions of the problem not yet coloured by `a`. */
  ghost function Uncolored<S, C>(p: Problem<S, C>, a: map<S, C>): set<S>
  {
    set s | s in p.states && s !in a
  }

  /** `x` keeps every colour that `a` gives. */
  ghost predicate Extends<S, C>(x: map<S, C>, a: map<S, C>)
  {
    a.Keys <= x.Keys && forall s :: s in a ==> x[s] == a[s]
  }

  /** Every region `x` colours beyond `a` is a region of the problem and gets
      a palette colour. */
  ghost predicate NewColorsFromPalette<S, C>(p: Problem<S, C>, a: map<S, C>, x: map<S, C>)
  {
    forall s :: s in x && s !in a ==> s in p.states && x[s] in p.colors
  }

  /** No coloured region shares its colour with a coloured region on its own
      neighbour list. */
  ghost predicate Proper<S, C>(p: Problem<S, C>, x: map<S, C>)
  {
    forall s, n :: s in x && s in p.neighbors && n in p.neighbors[s] && n in x ==> x[s] != x[n]
  }

  /** `x` is a proper colouring of every region that extends `a`, using the
      palette for every region it adds. */
  ghost predicate Completes<S, C>(p: Problem<S, C>, a: map<S, C>, x: map<S, C>)
  {
    && (forall s :: s in p.states ==> s in x)
    && Extends(x, a)
    && NewColorsFromPalette(p, a, x)
    && Proper(p, x)
  }

  /** A starting point the search is meant for: no region occurs twice in the
      branching order and the assignment colours regions of the problem only. */
  ghost predicate Admissible<S, C>(p: Problem<S, C>, a: map<S, C>)
  {
    Distinct(p.states) && a.Keys <= Elems(p.states)
  }

  /** The neighbour relation is symmetric and has no self-loops. */
  ghost predicate SymmetricIrreflexive<S, C>(p: Problem<S, C>)
  {
    forall s, n :: s in p.neighbors && n in p.neighbors[s] ==>
      n != s && n in p.neighbors && s in p.neighbors[n]
  }

  /** Scan a neighbour list in order, stopping at the first coloured neighbour
      that already has `color`. */
  function NoClash<S(==), C(==)>(ns: seq<S>, color: C, a: map<S, C>): (r: bool)
    ensures r <==> forall k :: 0 <= k < |ns| && ns[k] in a ==> a[ns[k]] != color
  {
    if |ns| == 0 then true
    else if ns[0] in a && a[ns[0]] == color then false
    else NoClash(ns[1..], color, a)
  }

  /** Whether `state` may take `color` given the current assignment: no
      neighbour of `state` that is already coloured has that colour. A
      neighbour that is not coloured never clashes. */
  function IsSafe<S(==), C(==)>(p: Problem<S, C>, state: S, color: C, a: map<S, C>): (r: bool)
    requires state in p.neighbors
    ensures r <==> forall n :: n in p.neighbors[state] && n in a ==> a[n] != color
    ensures (forall n :: n in p.neighbors[state] ==> n !in a) ==> r
  {
    NoClash(p.neighbors[state], color, a)
  }

  /** The position of the first region, in branching order, that `a` does not
      colour; `None` when every region is coloured. */
  function FirstUncolored<S(==), C>(states: seq<S>, a: map<S, C>): (r: Option<nat>)
    ensures r.Some? ==> r.value < |states| && states[r.value] !in a
    ensures r.Some? ==> forall j :: 0 <= j < r.value ==> states[j] in a
    ensures r.None? <==> forall j :: 0 <= j < |states| ==> states[j] in a
  {
    if |states| == 0 then None
    else if states[0] !in a then Some(0)
    else match FirstUncolored(states[1..], a)
      case None => None
      case Some(k) => Some(k + 1)
  }

  /** Colouring one more region of the problem leaves exactly one region fewer
      uncoloured. */
  lemma UncoloredShrinks<S, C>(p: Problem<S, C>, a: map<S, C>, s: S, c: C)
    requires s in p.states && s !in a
    ensures s in Uncolored(p, a)
    ensures Uncolored(p, a[s := c]) == Uncolored(p, a) - {s}
    ensures |Uncolored(p, a[s := c])| == |Uncolored(p, a)| - 1
  {
  }

  /** One call of the recursive search on assignment `a` with the move counter
      at `moves`. It returns at once when the assignment is as long as the
      region list; otherwise it branches on the first uncoloured region. */
  function Backtrack<S(==), C(==)>(p: Problem<S, C>, a: map<S, C>, moves: nat): (r: Run<S, C>)
    ensures r.moves >= moves
    ensures r.outcome.NotFound? ==> r.assignment == a
    ensures r.outcome.Found? ==> |r.assignment| == |p.states|
    ensures r.outcome.Found? ==> Extends(r.assignment, a) && NewColorsFromPalette(p, a, r.assignment)
    ensures r.outcome.Found? ==> r.moves - moves >= |r.assignment| - |a|
    decreases |Uncolored(p, a)|, 1, 0
  {
    if |a| == |p.states| then Run(Found, a, moves)
    else match FirstUncolored(p.states, a)
      case None =>
        // `current_state` is read only inside the palette loop
        if |p.colors| == 0 then Run(NotFound, a, moves) else Run(Raised(UnboundLocal), a, moves)
      case Some(i) =>
        var s := p.states[i];
        if |p.colors| == 0 then Run(NotFound, a, moves)
        else if s !in p.neighbors then Run(Raised(KeyError(s)), a, moves)
        else TryColors(p, a, s, 0, moves)
  }

  /** The loop of `Backtrack` over the palette from position `i` on, for the
      region `s` it branches on. Each safe colour is a tentative assignment
      and one move; when the recursive search fails the colour is deleted
      again and the next colour is tried. */
  function TryColors<S(==), C(==)>(p: Problem<S, C>, a: map<S, C>, s: S, i: nat, moves: nat): (r: Run<S, C>)
    requires s in p.states && s !in a && s in p.neighbors
    requires i <= |p.colors|
    ensures r.moves >= moves
    ensures r.outcome.NotFound? ==> r.assignment == a
    ensures r.outcome.Found? ==> |r.assignment| == |p.states|
    ensures r.outcome.Found? ==> Extends(r.assignment, a) && NewColorsFromPalette(p, a, r.assignment)
    ensures r.outcome.Found? ==> r.moves - moves >= |r.assignment| - |a|
    decreases |Uncolored(p, a)|, 0, |p.colors| - i
  {
    if i == |p.colors| then Run(NotFound, a, moves)
    else
      var c := p.colors[i];
      if IsSafe(p, s, c, a) then
        UncoloredShrinks(p, a, s, c);
        var r := Backtrack(p, a[s := c], moves + 1);
        if r.outcome.NotFound? then
          assert r.assignment - {s} == a;
          TryColors(p, r.assignment - {s}, s, i + 1, r.moves)
        else r
      else TryColors(p, a, s, i + 1, moves)
  }

  /** The palette loop skips a colour that is not safe. */
  lemma TryColorsSkips<S, C>(p: Problem<S, C>, a: map<S, C>, s: S, i: nat, moves: nat)
    requires s in p.states && s !in a && s in p.neighbors
    requires i < |p.colors| && !IsSafe(p, s, p.colors[i], a)
    ensures TryColors(p, a, s, i, moves) == TryColors(p, a, s, i + 1, moves)
  {
  }

  /** The palette loop returns what the recursive search below a safe colour
      returns, unless that search fails. */
  lemma TryColorsStops<S, C>(p: Problem<S, C>, a: map<S, C>, s: S, i: nat, moves: nat)
    requires s in p.states && s !in a && s in p.neighbors
    requires i < |p.colors| && IsSafe(p, s, p.colors[i], a)
    requires !Backtrack(p, a[s := p.colors[i]], moves + 1).outcome.NotFound?
    ensures TryColors(p, a, s, i, moves) == Backtrack(p, a[s := p.colors[i]], moves + 1)
  {
  }

  /** When the recursive search below a safe colour fails, the palette loop
      goes on from the restored assignment with the counter that search
      returned. */
  lemma TryColorsRetries<S, C>(p: Problem<S, C>, a: map<S, C>, s: S, i: nat, moves: nat)
    requires s in p.states && s !in a && s in p.neighbors
    requires i < |p.colors| && IsSafe(p, s, p.colors[i], a)
    requires Backtrack(p, a[s := p.colors[i]], moves + 1).outcome.NotFound?
    ensures TryColors(p, a, s, i, moves)
         == TryColors(p, a, s, i + 1, Backtrack(p, a[s := p.colors[i]], moves + 1).moves)
  {
    assert Backtrack(p, a[s := p.colors[i]], moves + 1).assignment - {s} == a;
  }

  /** A region for which every remaining colour clashes makes the palette
      loop fail at once, without a move and with the assignment unchanged. */
  lemma {:induction false} TryColorsAllClash<S, C>(p: Problem<S, C>, a: map<S, C>, s: S, i: nat, moves: nat)
    requires s in p.states && s !in a && s in p.neighbors && i <= |p.colors|
    requires forall k :: i <= k < |p.colors| ==> !IsSafe(p, s, p.colors[k], a)
    ensures TryColors(p, a, s, i, moves) == Run(NotFound, a, moves)
    decreases |p.colors| - i
  {
    if i < |p.colors| {
      TryColorsSkips(p, a, s, i, moves);
      TryColorsAllClash(p, a, s, i + 1, moves);
    }
  }
}
