/**
  The order in which the search tries colours. At the region it branches on,
  the search takes the colours of the palette from first to last and stops at
  the first one that is safe and whose sub-search does not fail: that
  sub-search's outcome and assignment are the call's own. The move counter
  plays no part in this, so the sub-searches are compared with the counter
  started at zero.
*/
module PaletteOrder {
  import opened Wrappers
  import opened Coloring
  import opened MoveCounter

  /** Colour `c` ends the palette loop at region `s`: it is safe, and the
      search below it finds a solution or raises. */
  ghost predicate Decisive<S, C>(p: Problem<S, C>, a: map<S, C>, s: S, c: C)
    requires s in p.neighbors
  {
    IsSafe(p, s, c, a) && !Backtrack(p, a[s := c], 0).outcome.NotFound?
  }

  /** Position `j` holds the first decisive colour from position `i` on. */
  ghost predicate FirstDecisive<S, C>(p: Problem<S, C>, a: map<S, C>, s: S, i: nat, j: nat)
    requires s in p.neighbors
  {
    && i <= j < |p.colors|
    && Decisive(p, a, s, p.colors[j])
    && forall k :: i <= k < j ==> !Decisive(p, a, s, p.colors[k])
  }

  /** How a call ends, leaving out the move counter. */
  datatype Ending<S, C> = Ending(outcome: Outcome<S>, assignment: map<S, C>)

  function EndOf<S, C>(r: Run<S, C>): Ending<S, C>
  {
    Ending(r.outcome, r.assignment)
  }

  /** Reference definition of the palette loop: scan the palette from
      position `i` and end as the search below the first decisive colour
      ends, or fail with the assignment unchanged when there is none. */
  ghost function PaletteScan<S, C>(p: Problem<S, C>, a: map<S, C>, s: S, i: nat): Ending<S, C>
    requires s in p.neighbors && i <= |p.colors|
    decreases |p.colors| - i
  {
    if i == |p.colors| then Ending(NotFound, a)
    else if Decisive(p, a, s, p.colors[i]) then EndOf(Backtrack(p, a[s := p.colors[i]], 0))
    else PaletteScan(p, a, s, i + 1)
  }

  /** The palette loop from position `i`, started with any counter, ends as
      the reference scan does. */
  lemma {:induction false} TryColorsFollowsScan<S, C>(p: Problem<S, C>, a: map<S, C>, s: S, i: nat, m: nat)
    requires s in p.states && s !in a && s in p.neighbors && i <= |p.colors|
    ensures EndOf(TryColors(p, a, s, i, m)) == PaletteScan(p, a, s, i)
    decreases |p.colors| - i, 1
  {
    if i < |p.colors| {
      if IsSafe(p, s, p.colors[i], a) {
        SafeColorFollowsScan(p, a, s, i, m);
      } else {
        TryColorsSkips(p, a, s, i, m);
        TryColorsFollowsScan(p, a, s, i + 1, m);
      }
    }
  }

  /** The step of `TryColorsFollowsScan` at a safe colour. */
  lemma {:induction false} SafeColorFollowsScan<S, C>(p: Problem<S, C>, a: map<S, C>, s: S, i: nat, m: nat)
    requires s in p.states && s !in a && s in p.neighbors && i < |p.colors|
    requires IsSafe(p, s, p.colors[i], a)
    ensures EndOf(TryColors(p, a, s, i, m)) == PaletteScan(p, a, s, i)
    decreases |p.colors| - i, 0
  {
    var c := p.colors[i];
    BacktrackMovesOffset(p, a[s := c], m + 1);
    var r := Backtrack(p, a[s := c], m + 1);
    assert EndOf(r) == EndOf(Backtrack(p, a[s := c], 0));
    if r.outcome.NotFound? {
      TryColorsRetries(p, a, s, i, m);
      TryColorsFollowsScan(p, a, s, i + 1, r.moves);
    } else {
      TryColorsStops(p, a, s, i, m);
    }
  }

  /** The scan fails exactly when no colour from position `i` on is
      decisive. */
  lemma {:induction false} ScanFailsIffNoneDecisive<S, C>(p: Problem<S, C>, a: map<S, C>, s: S, i: nat)
    requires s in p.neighbors && i <= |p.colors|
    ensures PaletteScan(p, a, s, i).outcome.NotFound? <==>
      forall k :: i <= k < |p.colors| ==> !Decisive(p, a, s, p.colors[k])
    decreases |p.colors| - i
  {
    if i < |p.colors| {
      if Decisive(p, a, s, p.colors[i]) {
        assert !PaletteScan(p, a, s, i).outcome.NotFound?;
      } else {
        assert PaletteScan(p, a, s, i) == PaletteScan(p, a, s, i + 1);
        ScanFailsIffNoneDecisive(p, a, s, i + 1);
      }
    }
  }

  /** The scan ends as the search below the first decisive colour from
      position `i` on. */
  lemma {:induction false} ScanEndsAtFirstDecisive<S, C>(p: Problem<S, C>, a: map<S, C>, s: S, i: nat, j: nat)
    requires s in p.neighbors && FirstDecisive(p, a, s, i, j)
    ensures PaletteScan(p, a, s, i) == EndOf(Backtrack(p, a[s := p.colors[j]], 0))
    decreases j - i
  {
    if i < j {
      assert !Decisive(p, a, s, p.colors[i]);
      ScanEndsAtFirstDecisive(p, a, s, i + 1, j);
    }
  }

  /** The search branches on the first uncoloured region of the region list
      and keeps the first decisive colour for it: it fails exactly when no
      colour is decisive there, and a solution it finds gives that region the
      first decisive colour. */
  lemma BranchOrder<S, C>(p: Problem<S, C>, a: map<S, C>, m: nat, i: nat)
    requires |a| != |p.states| && FirstUncolored(p.states, a) == Some(i)
    requires |p.colors| > 0 && p.states[i] in p.neighbors
    ensures Backtrack(p, a, m).outcome.NotFound? <==>
      forall k :: 0 <= k < |p.colors| ==> !Decisive(p, a, p.states[i], p.colors[k])
    ensures Backtrack(p, a, m).outcome.Found? ==>
      exists j: nat :: FirstDecisive(p, a, p.states[i], 0, j) &&
        p.states[i] in Backtrack(p, a, m).assignment &&
        Backtrack(p, a, m).assignment[p.states[i]] == p.colors[j]
  {
    var s := p.states[i];
    assert Backtrack(p, a, m) == TryColors(p, a, s, 0, m);
    TryColorsFollowsScan(p, a, s, 0, m);
    ScanFailsIffNoneDecisive(p, a, s, 0);
    if Backtrack(p, a, m).outcome.Found? {
      var k :| 0 <= k < |p.colors| && Decisive(p, a, s, p.colors[k]);
      var j := FirstDecisiveExists(p, a, s, 0, k);
      ScanEndsAtFirstDecisive(p, a, s, 0, j);
      assert Extends(Backtrack(p, a[s := p.colors[j]], 0).assignment, a[s := p.colors[j]]);
    }
  }

  /** When the colour at position `k` is decisive, some position from `i` up
      to `k` holds the first decisive colour from `i` on. */
  lemma {:induction false} FirstDecisiveExists<S, C>(p: Problem<S, C>, a: map<S, C>, s: S, i: nat, k: nat)
    returns (j: nat)
    requires s in p.neighbors && i <= k < |p.colors| && Decisive(p, a, s, p.colors[k])
    ensures j <= k && FirstDecisive(p, a, s, i, j)
    decreases k - i
  {
    if Decisive(p, a, s, p.colors[i]) {
      j := i;
    } else {
      j := FirstDecisiveExists(p, a, s, i + 1, k);
      forall q | i <= q < j
        ensures !Decisive(p, a, s, p.colors[q])
      {
        if q > i {
          assert i + 1 <= q < j;
        }
      }
    }
  }
}
