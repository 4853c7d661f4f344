/**
  Properties of the backtracking search of module `Coloring`: every
  admissible extension keeps a colouring proper, a found solution is a
  proper colouring of every region (soundness), a failure means that no such
  colouring extends the starting assignment (completeness), and well-formed
  input raises no fault of the model.
*/
module SearchProperties {
  import opened Coloring

  /* ---------------------------------------------------------------------- */
  /* Admissibility                                                            */
  /* ---------------------------------------------------------------------- */

  /** With a symmetric, loop-free neighbour relation, colouring a region with a
      colour `IsSafe` admits keeps a proper colouring proper. */
  lemma SafeExtensionKeepsProper<S, C>(p: Problem<S, C>, a: map<S, C>, s: S, c: C)
    requires SymmetricIrreflexive(p)
    requires s in p.neighbors && s !in a
    requires Proper(p, a)
    requires IsSafe(p, s, c, a)
    ensures Proper(p, a[s := c])
  {
    var x := a[s := c];
    forall t, n | t in x && t in p.neighbors && n in p.neighbors[t] && n in x
      ensures x[t] != x[n]
    {
      if t == s {
        assert n != s && n in a;
      } else if n == s {
        assert t in p.neighbors[s];
      }
    }
  }

  /** An assignment that a proper colouring extends gives a clash to no colour
      that the colouring itself uses for an uncoloured region. */
  lemma CompletionColorIsSafe<S, C>(p: Problem<S, C>, a: map<S, C>, s: S, x: map<S, C>)
    requires s in p.neighbors && s !in a && s in x
    requires Extends(x, a) && Proper(p, x)
    ensures IsSafe(p, s, x[s], a)
  {
    forall n | n in p.neighbors[s] && n in a
      ensures a[n] != x[s]
    {
      assert x[n] == a[n];
    }
  }

  /** A colouring that completes `a` also completes `a` with one of its own
      colours added. */
  lemma CompletionOfExtension<S, C>(p: Problem<S, C>, a: map<S, C>, s: S, x: map<S, C>)
    requires Completes(p, a, x) && s !in a && s in x
    ensures Completes(p, a[s := x[s]], x)
  {
  }

  /* ---------------------------------------------------------------------- */
  /* Counting helpers                                                         */
  /* ---------------------------------------------------------------------- */

  lemma SubsetCard<S>(A: set<S>, B: set<S>)
    requires A <= B
    ensures |A| <= |B|
    ensures |A| == |B| ==> A == B
  {
    assert B == A + (B - A);
    assert |B| == |A| + |B - A|;
    if |A| == |B| {
      assert |B - A| == 0;
    }
  }

  /** A map whose keys are regions of the problem and which is as long as the
      region list colours every region. */
  lemma FullLengthCoversStates<S, C>(states: seq<S>, x: map<S, C>)
    requires x.Keys <= Elems(states)
    requires |x| == |states|
    ensures x.Keys == Elems(states)
  {
    ElemsCard(states);
    SubsetCard(x.Keys, Elems(states));
  }

  /** With distinct regions, a map over regions that colours all of them is as
      long as the region list. */
  lemma AllColoredIsFullLength<S, C>(states: seq<S>, x: map<S, C>)
    ensures Distinct(states) && x.Keys <= Elems(states) && (forall j :: 0 <= j < |states| ==> states[j] in x)
      ==> |x| == |states|
  {
    ElemsCard(states);
    if Distinct(states) && x.Keys <= Elems(states) && forall j :: 0 <= j < |states| ==> states[j] in x {
      assert x.Keys == Elems(states);
    }
  }

  /* ---------------------------------------------------------------------- */
  /* Soundness                                                                */
  /* ---------------------------------------------------------------------- */

  lemma {:induction false} BacktrackKeepsProper<S, C>(p: Problem<S, C>, a: map<S, C>, m: nat)
    requires SymmetricIrreflexive(p) && Proper(p, a)
    ensures Backtrack(p, a, m).outcome.Found? ==> Proper(p, Backtrack(p, a, m).assignment)
    decreases |Uncolored(p, a)|, 1, 0
  {
    if |a| != |p.states| {
      match FirstUncolored(p.states, a)
      case None =>
      case Some(i) =>
        if |p.colors| > 0 && p.states[i] in p.neighbors {
          TryColorsKeepsProper(p, a, p.states[i], 0, m);
        }
    }
  }

  lemma {:induction false} TryColorsKeepsProper<S, C>(p: Problem<S, C>, a: map<S, C>, s: S, i: nat, m: nat)
    requires s in p.states && s !in a && s in p.neighbors && i <= |p.colors|
    requires SymmetricIrreflexive(p) && Proper(p, a)
    ensures TryColors(p, a, s, i, m).outcome.Found? ==> Proper(p, TryColors(p, a, s, i, m).assignment)
    decreases |Uncolored(p, a)|, 0, |p.colors| - i
  {
    if i < |p.colors| {
      var c := p.colors[i];
      if IsSafe(p, s, c, a) {
        UncoloredShrinks(p, a, s, c);
        SafeExtensionKeepsProper(p, a, s, c);
        BacktrackKeepsProper(p, a[s := c], m + 1);
        var r := Backtrack(p, a[s := c], m + 1);
        if r.outcome.NotFound? {
          assert r.assignment - {s} == a;
          TryColorsKeepsProper(p, a, s, i + 1, r.moves);
        }
      } else {
        TryColorsKeepsProper(p, a, s, i + 1, m);
      }
    }
  }

  /** Soundness: started from a proper assignment of regions of the problem, a
      found solution colours exactly the regions of the problem, keeps the
      starting colours, takes every added colour from the palette and gives
      neighbouring regions different colours. */
  lemma Soundness<S, C>(p: Problem<S, C>, a: map<S, C>, m: nat)
    requires SymmetricIrreflexive(p)
    requires a.Keys <= Elems(p.states) && Proper(p, a)
    ensures var r := Backtrack(p, a, m);
      r.outcome.Found? ==> Completes(p, a, r.assignment) && r.assignment.Keys == Elems(p.states)
  {
    var r := Backtrack(p, a, m);
    if r.outcome.Found? {
      BacktrackKeepsProper(p, a, m);
      assert r.assignment.Keys <= Elems(p.states);
      FullLengthCoversStates(p.states, r.assignment);
    }
  }

  /* ---------------------------------------------------------------------- */
  /* Completeness                                                             */
  /* ---------------------------------------------------------------------- */

  /** With an empty palette, an uncoloured region cannot be coloured. */
  lemma NoCompletionWithoutPalette<S, C>(p: Problem<S, C>, a: map<S, C>, s: S)
    requires s in p.states && s !in a && |p.colors| == 0
    ensures forall x :: !Completes(p, a, x)
  {
  }

  lemma {:induction false} BacktrackComplete<S, C>(p: Problem<S, C>, a: map<S, C>, m: nat)
    requires |p.colors| > 0 || Admissible(p, a)
    ensures Backtrack(p, a, m).outcome.NotFound? ==> forall x :: !Completes(p, a, x)
    decreases |Uncolored(p, a)|, 1, 0
  {
    AllColoredIsFullLength(p.states, a);
    if |a| != |p.states| && FirstUncolored(p.states, a).Some? {
      var s := p.states[FirstUncolored(p.states, a).value];
      if |p.colors| == 0 {
        NoCompletionWithoutPalette(p, a, s);
      } else if s in p.neighbors {
        TryColorsComplete(p, a, s, 0, m);
        assert p.colors[0..] == p.colors;
      }
    }
  }

  lemma {:induction false} TryColorsComplete<S, C>(p: Problem<S, C>, a: map<S, C>, s: S, i: nat, m: nat)
    requires s in p.states && s !in a && s in p.neighbors && i <= |p.colors|
    ensures TryColors(p, a, s, i, m).outcome.NotFound? ==>
      forall x :: Completes(p, a, x) ==> x[s] !in p.colors[i..]
    decreases |Uncolored(p, a)|, 0, |p.colors| - i
  {
    if i < |p.colors| {
      var c := p.colors[i];
      assert p.colors[i..] == [c] + p.colors[i + 1..];
      if IsSafe(p, s, c, a) {
        UncoloredShrinks(p, a, s, c);
        BacktrackComplete(p, a[s := c], m + 1);
        var r := Backtrack(p, a[s := c], m + 1);
        if r.outcome.NotFound? {
          assert r.assignment - {s} == a;
          TryColorsComplete(p, a, s, i + 1, r.moves);
          forall x | Completes(p, a, x) ensures x[s] != c {
            CompletionOfExtension(p, a, s, x);
          }
        }
      } else {
        TryColorsComplete(p, a, s, i + 1, m);
        forall x | Completes(p, a, x) ensures x[s] != c {
          CompletionColorIsSafe(p, a, s, x);
        }
      }
    }
  }

  /** Completeness: the search reports failure only when no proper colouring
      of all regions extends the starting assignment. With an empty palette
      the start must be admissible: a start that already colours every region
      but is longer than the region list makes the source return None at
      once, whatever its colours. */
  lemma Completeness<S, C>(p: Problem<S, C>, a: map<S, C>, m: nat)
    requires |p.colors| > 0 || Admissible(p, a)
    ensures Backtrack(p, a, m).outcome.NotFound? ==>
      Backtrack(p, a, m).assignment == a && forall x :: !Completes(p, a, x)
  {
    BacktrackComplete(p, a, m);
  }

  /* ---------------------------------------------------------------------- */
  /* Faults                                                                   */
  /* ---------------------------------------------------------------------- */

  /** What each fault reveals about the input: a KeyError names a region of
      the problem that has no neighbour list, and an unbound `current_state`
      means the start was not admissible. */
  ghost predicate FaultExplained<S, C>(p: Problem<S, C>, a: map<S, C>, o: Outcome<S>)
  {
    && (o.Raised? && o.fault.KeyError? ==> o.fault.key in p.states && o.fault.key !in p.neighbors)
    && (o == Raised(UnboundLocal) ==> |p.colors| > 0 && !Admissible(p, a))
  }

  lemma {:induction false} BacktrackFaults<S, C>(p: Problem<S, C>, a: map<S, C>, m: nat)
    ensures FaultExplained(p, a, Backtrack(p, a, m).outcome)
    decreases |Uncolored(p, a)|, 1, 0
  {
    AllColoredIsFullLength(p.states, a);
    if |a| != |p.states| && FirstUncolored(p.states, a).Some? {
      var s := p.states[FirstUncolored(p.states, a).value];
      if |p.colors| > 0 && s in p.neighbors {
        TryColorsFaults(p, a, s, 0, m);
      }
    }
  }

  lemma {:induction false} TryColorsFaults<S, C>(p: Problem<S, C>, a: map<S, C>, s: S, i: nat, m: nat)
    requires s in p.states && s !in a && s in p.neighbors && i <= |p.colors|
    ensures FaultExplained(p, a, TryColors(p, a, s, i, m).outcome)
    decreases |Uncolored(p, a)|, 0, |p.colors| - i
  {
    if i < |p.colors| {
      var c := p.colors[i];
      if IsSafe(p, s, c, a) {
        UncoloredShrinks(p, a, s, c);
        BacktrackFaults(p, a[s := c], m + 1);
        var r := Backtrack(p, a[s := c], m + 1);
        if r.outcome.NotFound? {
          assert r.assignment - {s} == a;
          TryColorsFaults(p, a, s, i + 1, r.moves);
        } else {
          assert Admissible(p, a) ==> Admissible(p, a[s := c]);
        }
      } else {
        TryColorsFaults(p, a, s, i + 1, m);
      }
    }
  }

  /** On an admissible start whose regions all have neighbour lists the search
      raises neither fault of the model: it ends with a solution or with None.
      The interpreter's recursion limit is not part of the model. */
  lemma NeverRaises<S, C>(p: Problem<S, C>, a: map<S, C>, m: nat)
    requires Admissible(p, a)
    requires forall s :: s in p.states ==> s in p.neighbors
    ensures Backtrack(p, a, m).outcome.Found? || Backtrack(p, a, m).outcome.NotFound?
  {
    BacktrackFaults(p, a, m);
  }
}
