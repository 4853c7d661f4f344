/**
  The exact move count of a failing search. A search that fails has tried
  every colour that was safe at every region it reached, so its counter rose
  by one for each node of the exhaustive search tree: each tentative
  assignment, including the ones it undid.
*/
module ExactMoves {
  import opened Coloring

  /** Every tentative assignment of an exhaustive search from `a`: each colour
      that is safe at the region branched on counts once, together with
      everything explored below it. */
  ghost function Explored<S, C>(p: Problem<S, C>, a: map<S, C>): nat
    decreases |Uncolored(p, a)|, 1, 0
  {
    if |a| == |p.states| then 0
    else match FirstUncolored(p.states, a)
      case None => 0
      case Some(i) =>
        var s := p.states[i];
        if |p.colors| == 0 || s !in p.neighbors then 0 else ExploredFrom(p, a, s, 0)
  }

  /** The part of `Explored` that the colours from position `i` on contribute
      at region `s`. */
  ghost function ExploredFrom<S, C>(p: Problem<S, C>, a: map<S, C>, s: S, i: nat): nat
    requires s in p.states && s !in a && s in p.neighbors && i <= |p.colors|
    decreases |Uncolored(p, a)|, 0, |p.colors| - i
  {
    if i == |p.colors| then 0
    else if IsSafe(p, s, p.colors[i], a) then
      UncoloredShrinks(p, a, s, p.colors[i]);
      1 + Explored(p, a[s := p.colors[i]]) + ExploredFrom(p, a, s, i + 1)
    else ExploredFrom(p, a, s, i + 1)
  }

  /** A search that fails has made exactly one move per tentative assignment
      of the exhaustive search, the undone ones included. */
  lemma {:induction false} BacktrackMovesExact<S, C>(p: Problem<S, C>, a: map<S, C>, m: nat)
    ensures Backtrack(p, a, m).outcome.NotFound? ==> Backtrack(p, a, m).moves == m + Explored(p, a)
    decreases |Uncolored(p, a)|, 1, 0, 0
  {
    if |a| != |p.states| {
      match FirstUncolored(p.states, a)
      case None =>
      case Some(i) =>
        var s := p.states[i];
        if |p.colors| > 0 && s in p.neighbors {
          TryColorsMovesExact(p, a, s, 0, m);
        }
    }
  }

  /** The palette loop from position `i` on, when it fails, has made exactly
      the moves the colours from `i` on contribute to `Explored`. */
  lemma {:induction false} TryColorsMovesExact<S, C>(p: Problem<S, C>, a: map<S, C>, s: S, i: nat, m: nat)
    requires s in p.states && s !in a && s in p.neighbors && i <= |p.colors|
    ensures TryColors(p, a, s, i, m).outcome.NotFound? ==>
      TryColors(p, a, s, i, m).moves == m + ExploredFrom(p, a, s, i)
    decreases |Uncolored(p, a)|, 0, |p.colors| - i, 1
  {
    if i < |p.colors| {
      if IsSafe(p, s, p.colors[i], a) {
        SafeColorMovesExact(p, a, s, i, m);
      } else {
        TryColorsSkips(p, a, s, i, m);
        TryColorsMovesExact(p, a, s, i + 1, m);
      }
    }
  }

  /** At a safe colour: one move, then the failed search below it, then the
      rest of the palette loop. */
  lemma {:induction false} SafeColorMovesExact<S, C>(p: Problem<S, C>, a: map<S, C>, s: S, i: nat, m: nat)
    requires s in p.states && s !in a && s in p.neighbors && i < |p.colors|
    requires IsSafe(p, s, p.colors[i], a)
    ensures TryColors(p, a, s, i, m).outcome.NotFound? ==>
      TryColors(p, a, s, i, m).moves == m + ExploredFrom(p, a, s, i)
    decreases |Uncolored(p, a)|, 0, |p.colors| - i, 0
  {
    var c := p.colors[i];
    UncoloredShrinks(p, a, s, c);
    var r := Backtrack(p, a[s := c], m + 1);
    if r.outcome.NotFound? {
      assert r.moves == m + 1 + Explored(p, a[s := c]) by {
        BacktrackMovesExact(p, a[s := c], m + 1);
      }
      assert TryColors(p, a, s, i, m) == TryColors(p, a, s, i + 1, r.moves) by {
        TryColorsRetries(p, a, s, i, m);
      }
      TryColorsMovesExact(p, a, s, i + 1, r.moves);
    } else {
      TryColorsStops(p, a, s, i, m);
    }
  }
}
