/**
  The move counter of the search: one move per tentative assignment,
  including the ones later undone. It only observes the search: the outcome
  and the final assignment do not depend on its starting value, and it is
  bounded by the number of nodes of the search tree.
*/
module MoveCounter {
  import opened Coloring

  /** The largest number of tentative assignments a search can make with a
      palette of `k` colours and `n` regions left: every colour tried at the
      first region, each followed by a search over the `n - 1` others. */
  function SearchTreeSize(k: nat, n: nat): nat
  {
    if n == 0 then 0 else PaletteBudget(k, SearchTreeSize(k, n - 1))
  }

  /** What `j` colours cost at most at one region: one move each, plus a
      sub-search costing at most `sub`. */
  function PaletteBudget(j: nat, sub: nat): nat
  {
    if j == 0 then 0 else 1 + sub + PaletteBudget(j - 1, sub)
  }

  /** The budget of one region in closed form: `j` colours, each costing one
      move plus a sub-search of at most `sub` moves. With `j` the palette
      size this makes SearchTreeSize(k, n) = k * (1 + SearchTreeSize(k, n - 1)),
      that is k + k^2 + ... + k^n. */
  lemma {:induction false} PaletteBudgetIsProduct(j: nat, sub: nat)
    ensures PaletteBudget(j, sub) == j * (1 + sub)
  {
    if j > 0 {
      PaletteBudgetIsProduct(j - 1, sub);
    }
  }

  /** The size of the search tree satisfies SearchTreeSize(k, n) =
      k * (1 + SearchTreeSize(k, n - 1)), so it is k + k^2 + ... + k^n. */
  lemma SearchTreeSizeRecurrence(k: nat, n: nat)
    requires n > 0
    ensures SearchTreeSize(k, n) == k * (1 + SearchTreeSize(k, n - 1))
  {
    PaletteBudgetIsProduct(k, SearchTreeSize(k, n - 1));
  }

  /** The budget of colours `i` to `k - 1` is that of colour `i` plus that of
      the colours after it. */
  lemma PaletteBudgetPeel(k: nat, i: nat, sub: nat)
    requires i < k
    ensures PaletteBudget(k - i, sub) == 1 + sub + PaletteBudget(k - (i + 1), sub)
  {
  }

  /** The same run with the counter moved on by `m`. */
  function Shifted<S, C>(r: Run<S, C>, m: nat): Run<S, C>
  {
    r.(moves := r.moves + m)
  }

  /** The counter never steers the search: starting it at `m` instead of 0
      changes neither the outcome nor the final assignment, and shifts the
      final count by exactly `m`. */
  lemma {:induction false} BacktrackMovesOffset<S, C>(p: Problem<S, C>, a: map<S, C>, m: nat)
    ensures Backtrack(p, a, m) == Shifted(Backtrack(p, a, 0), m)
    decreases |Uncolored(p, a)|, 1, 0, 0
  {
    if |a| != |p.states| {
      match FirstUncolored(p.states, a)
      case None =>
      case Some(i) =>
        var s := p.states[i];
        if |p.colors| > 0 && s in p.neighbors {
          TryColorsMovesOffset(p, a, s, 0, m);
        }
    }
  }

  lemma {:induction false} TryColorsMovesOffset<S, C>(p: Problem<S, C>, a: map<S, C>, s: S, i: nat, m: nat)
    requires s in p.states && s !in a && s in p.neighbors && i <= |p.colors|
    ensures TryColors(p, a, s, i, m) == Shifted(TryColors(p, a, s, i, 0), m)
    decreases |Uncolored(p, a)|, 0, |p.colors| - i, 2
  {
    if i < |p.colors| {
      if IsSafe(p, s, p.colors[i], a) {
        SafeColorMovesOffset(p, a, s, i, m);
      } else {
        TryColorsSkips(p, a, s, i, m);
        TryColorsSkips(p, a, s, i, 0);
        TryColorsMovesOffset(p, a, s, i + 1, m);
      }
    }
  }

  /** At a safe colour the recursive search starts with the counter one
      higher; whatever it returns, the two runs stay `m` apart. */
  lemma {:induction false} SafeColorMovesOffset<S, C>(p: Problem<S, C>, a: map<S, C>, s: S, i: nat, m: nat)
    requires s in p.states && s !in a && s in p.neighbors && i < |p.colors|
    requires IsSafe(p, s, p.colors[i], a)
    ensures TryColors(p, a, s, i, m) == Shifted(TryColors(p, a, s, i, 0), m)
    decreases |Uncolored(p, a)|, 0, |p.colors| - i, 1
  {
    var c := p.colors[i];
    UncoloredShrinks(p, a, s, c);
    BacktrackMovesOffset(p, a[s := c], m + 1);
    BacktrackMovesOffset(p, a[s := c], 1);
    if Backtrack(p, a[s := c], m + 1).outcome.NotFound? {
      RetryMovesOffset(p, a, s, i, m);
    } else {
      TryColorsStops(p, a, s, i, m);
      TryColorsStops(p, a, s, i, 0);
    }
  }

  /** When the search below a safe colour fails, both runs resume the palette
      loop, `m` moves apart. */
  lemma {:induction false} RetryMovesOffset<S, C>(p: Problem<S, C>, a: map<S, C>, s: S, i: nat, m: nat)
    requires s in p.states && s !in a && s in p.neighbors && i < |p.colors|
    requires IsSafe(p, s, p.colors[i], a)
    requires Backtrack(p, a[s := p.colors[i]], m + 1).outcome.NotFound?
    requires Backtrack(p, a[s := p.colors[i]], 1).outcome.NotFound?
    requires Backtrack(p, a[s := p.colors[i]], m + 1).moves == Backtrack(p, a[s := p.colors[i]], 1).moves + m
    ensures TryColors(p, a, s, i, m) == Shifted(TryColors(p, a, s, i, 0), m)
    decreases |Uncolored(p, a)|, 0, |p.colors| - i, 0
  {
    var c := p.colors[i];
    var r := Backtrack(p, a[s := c], m + 1);
    var r1 := Backtrack(p, a[s := c], 1);
    TryColorsRetries(p, a, s, i, m);
    TryColorsRetries(p, a, s, i, 0);
    TryColorsMovesOffset(p, a, s, i + 1, r.moves);
    TryColorsMovesOffset(p, a, s, i + 1, r1.moves);
  }

  /** The search makes at most k + k^2 + ... + k^n moves, for a palette of `k`
      colours and `n` regions left uncoloured (the closed form is
      `SearchTreeSizeRecurrence`). */
  lemma {:induction false} BacktrackMovesBounded<S, C>(p: Problem<S, C>, a: map<S, C>, m: nat)
    ensures Backtrack(p, a, m).moves <= m + SearchTreeSize(|p.colors|, |Uncolored(p, a)|)
    decreases |Uncolored(p, a)|, 1, 0, 0
  {
    if |a| != |p.states| {
      match FirstUncolored(p.states, a)
      case None =>
      case Some(i) =>
        var s := p.states[i];
        if |p.colors| > 0 && s in p.neighbors {
          assert s in Uncolored(p, a);
          TryColorsMovesBounded(p, a, s, 0, m, |Uncolored(p, a)| - 1);
        }
    }
  }

  /** The palette loop from position `i` on, with `n` regions left besides `s`. */
  lemma {:induction false} TryColorsMovesBounded<S, C>(p: Problem<S, C>, a: map<S, C>, s: S, i: nat, m: nat, n: nat)
    requires s in p.states && s !in a && s in p.neighbors && i <= |p.colors|
    requires |Uncolored(p, a)| == n + 1
    ensures TryColors(p, a, s, i, m).moves <= m + PaletteBudget(|p.colors| - i, SearchTreeSize(|p.colors|, n))
    decreases |Uncolored(p, a)|, 0, |p.colors| - i, 2
  {
    if i < |p.colors| {
      if IsSafe(p, s, p.colors[i], a) {
        SafeColorMovesBounded(p, a, s, i, m, n);
      } else {
        TryColorsSkips(p, a, s, i, m);
        TryColorsMovesBounded(p, a, s, i + 1, m, n);
      }
    }
  }

  /** At a safe colour the loop spends one move, at most a full search over the
      remaining regions, and at most the rest of the palette loop. */
  lemma {:induction false} SafeColorMovesBounded<S, C>(p: Problem<S, C>, a: map<S, C>, s: S, i: nat, m: nat, n: nat)
    requires s in p.states && s !in a && s in p.neighbors && i < |p.colors|
    requires |Uncolored(p, a)| == n + 1
    requires IsSafe(p, s, p.colors[i], a)
    ensures TryColors(p, a, s, i, m).moves <= m + PaletteBudget(|p.colors| - i, SearchTreeSize(|p.colors|, n))
    decreases |Uncolored(p, a)|, 0, |p.colors| - i, 1
  {
    var c := p.colors[i];
    UncoloredShrinks(p, a, s, c);
    BacktrackMovesBounded(p, a[s := c], m + 1);
    if Backtrack(p, a[s := c], m + 1).outcome.NotFound? {
      RetryMovesBounded(p, a, s, i, m, n);
    } else {
      TryColorsStops(p, a, s, i, m);
    }
  }

  /** When the search below a safe colour fails, the rest of the palette loop
      starts from the counter that search returned. */
  lemma {:induction false} RetryMovesBounded<S, C>(p: Problem<S, C>, a: map<S, C>, s: S, i: nat, m: nat, n: nat)
    requires s in p.states && s !in a && s in p.neighbors && i < |p.colors|
    requires |Uncolored(p, a)| == n + 1
    requires IsSafe(p, s, p.colors[i], a)
    requires Backtrack(p, a[s := p.colors[i]], m + 1).outcome.NotFound?
    requires Backtrack(p, a[s := p.colors[i]], m + 1).moves <= m + 1 + SearchTreeSize(|p.colors|, n)
    ensures TryColors(p, a, s, i, m).moves <= m + PaletteBudget(|p.colors| - i, SearchTreeSize(|p.colors|, n))
    decreases |Uncolored(p, a)|, 0, |p.colors| - i, 0
  {
    var r := Backtrack(p, a[s := p.colors[i]], m + 1);
    var k := r.moves;
    var sub := SearchTreeSize(|p.colors|, n);
    var rest := PaletteBudget(|p.colors| - (i + 1), sub);
    PaletteBudgetPeel(|p.colors|, i, sub);
    var total := TryColors(p, a, s, i, m).moves;
    assert total == TryColors(p, a, s, i + 1, k).moves by {
      TryColorsRetries(p, a, s, i, m);
    }
    assert TryColors(p, a, s, i + 1, k).moves <= k + rest by {
      TryColorsMovesBounded(p, a, s, i + 1, k, n);
    }
  }

  /** An input that already colours every region (and nothing else) is
      returned as the solution at once, without a single move. */
  lemma CompleteInputCostsNoMoves<S, C>(p: Problem<S, C>, a: map<S, C>, m: nat)
    requires Distinct(p.states)
    requires a.Keys == Elems(p.states)
    ensures Backtrack(p, a, m) == Run(Found, a, m)
  {
    ElemsCard(p.states);
  }
}
