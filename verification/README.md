# Map colouring by chronological backtracking, in Dafny

This project models the solver in `CSP_mapcoloring.py`. The solver colours a map with a fixed palette so that neighbouring regions get different colours. It treats map colouring as a constraint-satisfaction problem:

- `is_safe` checks whether a colour clashes with a neighbour that is already coloured.
- `backtrack` repeatedly takes the first uncoloured region in list order. It tries the palette colours in order and assigns each safe colour tentatively, counting one "move" per tentative assignment. It then recurses, and it deletes the colour again when the recursive search fails.

The model is functional. `Backtrack` is one call of the recursive search and `TryColors` is its loop over the palette (`coloring.dfy`, module `Coloring`).

- **Counter and dictionary.** Both are passed along as values. A call returns a `Run`, which holds:
  - the outcome (`Found`, `NotFound`, or `Raised` with the fault);
  - the dictionary's contents when the call returns;
  - the counter at that moment.
- **Problem data.** The regions, palette and neighbour lists are a `Problem` parameter instead of module globals.
- **Faults.** On malformed input the program raises:
  - a `KeyError` when the region it branches on has no neighbour list;
  - an `UnboundLocalError` when the dictionary's length differs from the region list's, yet no region is uncoloured.

  The model returns these as `Raised` outcomes, with the same branch order as the code. In particular, with an empty palette the loop never reads `current_state`, so nothing is raised.

The proved properties are in five modules:

- **`SearchProperties`:**
  - Admissible extensions keep a colouring proper.
  - Soundness: a returned solution is a proper palette colouring of every region that extends the input.
  - Completeness: failure means no such colouring exists, and the input dictionary comes back unchanged.
  - Every fault the model knows is explained by malformed input, so on well-formed input the model raises neither `KeyError` nor `UnboundLocalError`. The interpreter's recursion limit is outside the model.
- **`MoveCounter`:**
  - The counter never steers the search: the start value only shifts the final count.
  - It is bounded by the size of the search tree.
  - A complete input costs no moves.
- **`ExactMoves`:** a failing search makes exactly one move per tentative assignment of the exhaustive search tree, the undone ones included.
- **`PaletteOrder`:** at the region it branches on, the search ends exactly as the sub-search below the first *decisive* colour ends. A decisive colour is safe, and its sub-search does not fail.
- **`Instances`:**
  - The India map of the program is well formed and four-colourable, so the run the program starts finds a proper colouring.
  - A triangle of regions is followed move by move: with three colours it is solved in three moves, and with two it fails after four.

Some general results need assumptions about the data:

- Soundness assumes that adjacency is symmetric and has no self-loops. `is_safe` consults only the candidate region's own list.
- The no-fault result assumes *admissible* input: no region listed twice, every dictionary key a region, and every region with a neighbour list.
- Completeness needs admissibility only when the palette is empty.

Adjacency in the program's data is symmetric and has no self-loops, and the data is admissible; `Instances.IndiaWellFormed` proves both.

## Model

| member | source | states |
|---|---|---|
| `Coloring.NoClash` | CSP_mapcoloring.py:47-50 | The scan of a neighbour list succeeds exactly when no listed neighbour that is coloured has the candidate colour. |
| `Coloring.IsSafe` | CSP_mapcoloring.py:42-50 | A colour is safe for a region exactly when no coloured neighbour on that region's list has it. A region whose neighbours are all uncoloured accepts every colour. |
| `Coloring.FirstUncolored` | CSP_mapcoloring.py:63-67 | The branching region is the first uncoloured one in list order: every earlier region is coloured. There is none exactly when every region is coloured. |
| `Coloring.Backtrack` | CSP_mapcoloring.py:52-85 | The counter never decreases. On failure the dictionary is exactly the input. A solution has one entry per listed region, keeps the input colours, adds only palette colours for listed regions, and cost at least one move per added region. |
| `Coloring.TryColors` | CSP_mapcoloring.py:69-85 | The same guarantees for the palette loop from a given position, with the branching region uncoloured on entry. |
| `Coloring.TryColorsAllClash` | CSP_mapcoloring.py:70-85 | If every remaining colour clashes, the loop fails at once, with no move and the dictionary unchanged. |
| `SearchProperties.SafeExtensionKeepsProper` | CSP_mapcoloring.py:70-73 | With symmetric, loop-free adjacency, a colour that `is_safe` admits keeps a proper partial colouring proper. |
| `SearchProperties.CompletionColorIsSafe` | CSP_mapcoloring.py:47-49 | Take any proper colouring that extends the current dictionary. The colour it gives an uncoloured region is one that `is_safe` admits. |
| `SearchProperties.BacktrackKeepsProper` | CSP_mapcoloring.py:70-79 | Started from a proper dictionary, every solution found is proper. |
| `SearchProperties.Soundness` | CSP_mapcoloring.py:60-79 | A solution colours exactly the listed regions, extends the input, uses palette colours for what it adds, and separates all neighbours. This holds when the input colours listed regions only and is proper, and adjacency is symmetric and loop-free. |
| `SearchProperties.BacktrackComplete` | CSP_mapcoloring.py:69-85 | A failing search has no proper completion of its input. |
| `SearchProperties.TryColorsComplete` | CSP_mapcoloring.py:69-85 | A failing palette loop from a position excludes every colour from that position on for the branching region, in every proper completion. |
| `SearchProperties.Completeness` | CSP_mapcoloring.py:69-85 | On failure the dictionary is returned as it came, and no proper colouring of all regions extends it. |
| `SearchProperties.BacktrackFaults` | CSP_mapcoloring.py:63-71 | A `KeyError` names a listed region that has no neighbour list. An unbound `current_state` means the palette is not empty and the input is not admissible. |
| `SearchProperties.TryColorsFaults` | CSP_mapcoloring.py:70-82 | The same explanation of faults for the palette loop. |
| `SearchProperties.NeverRaises` | CSP_mapcoloring.py:60-71 | On admissible input where every region has a neighbour list, the search ends with a solution or with None. |
| `MoveCounter.BacktrackMovesOffset` | CSP_mapcoloring.py:74 | Starting the counter at `m` instead of 0 changes neither the outcome nor the dictionary, and shifts the final count by exactly `m`. |
| `MoveCounter.TryColorsMovesOffset` | CSP_mapcoloring.py:70-82 | The same shift for the palette loop. |
| `MoveCounter.BacktrackMovesBounded` | CSP_mapcoloring.py:70-77 | A search with `n` regions left and `k` colours makes at most k + k^2 + ... + k^n moves. |
| `MoveCounter.SearchTreeSizeRecurrence` | CSP_mapcoloring.py:70-77 | The bound on moves for `n` regions left is `k` times one plus the bound for `n - 1`, so it is k + k^2 + ... + k^n. |
| `MoveCounter.TryColorsMovesBounded` | CSP_mapcoloring.py:70-82 | Each colour of the palette loop costs at most one move plus a full search of the remaining regions. |
| `MoveCounter.CompleteInputCostsNoMoves` | CSP_mapcoloring.py:60-61 | With distinct regions, an input colouring exactly the listed regions is returned unchanged, as a solution and without a move. |
| `ExactMoves.BacktrackMovesExact` | CSP_mapcoloring.py:69-85 | A search that returns None has raised the counter by exactly the number of tentative assignments of the exhaustive search: one for each colour that is safe at each region reached, counted with everything below it. |
| `ExactMoves.TryColorsMovesExact` | CSP_mapcoloring.py:70-85 | A failing palette loop from a position has raised the counter by exactly the tentative assignments that the colours from that position on contribute to the exhaustive search. |
| `PaletteOrder.TryColorsFollowsScan` | CSP_mapcoloring.py:70-85 | The palette loop ends, whatever its counter, like a reference scan that takes the first decisive colour in palette order. |
| `PaletteOrder.ScanFailsIffNoneDecisive` | CSP_mapcoloring.py:70-85 | The scan fails exactly when no colour from the given position on is decisive. |
| `PaletteOrder.ScanEndsAtFirstDecisive` | CSP_mapcoloring.py:77-79 | The scan ends as the sub-search below the first decisive colour ends. |
| `PaletteOrder.BranchOrder` | CSP_mapcoloring.py:63-85 | At the first uncoloured region, the search fails exactly when no colour is decisive. A solution gives that region the first decisive colour of the palette. |
| `Instances.IndiaWellFormed` | CSP_mapcoloring.py:5-37 | The India data lists no region twice and gives every region a neighbour list. Every neighbour is a region, and adjacency is symmetric and loop-free. |
| `Instances.IndiaIsFourColourable` | CSP_mapcoloring.py:21-37 | The four-colour palette colours the India map properly. |
| `Instances.IndiaSolved` | CSP_mapcoloring.py:88 | `backtrack({})` on the India data finds a solution. The solution colours every region with a palette colour unlike its neighbours'. |
| `Instances.TriangleThreeColours` | CSP_mapcoloring.py:69-79 | Three mutually adjacent regions with three colours are coloured red, green, blue in exactly three moves. |
| `Instances.TriangleTwoColours` | CSP_mapcoloring.py:69-85 | With two colours the search fails after exactly four moves, two of them undone at each level. The dictionary ends empty again. |

## Left out

- Printing the result (CSP_mapcoloring.py:90-108) is presentation only. This includes sorting, padding and the final move count. Its `if solution:` test treats an empty solution dictionary as no solution, which matters only for an empty region list. It is not modelled.
- The module-level globals and the driver call (CSP_mapcoloring.py:40, 57, 88) are not modelled as such. The counter is a value threaded through the search, and `Instances.IndiaSolved` starts it at 0 as the driver does.
- Dictionary identity and aliasing are not modelled. The model has value semantics: a found solution is the dictionary's final contents. After a fault, the model returns the contents at the moment of raising, as the exception leaves them.
- Exceptions are outcome values. Their messages and propagation through the Python runtime are not modelled.
- The India data uses enumerated types for regions and colours instead of strings. Each neighbour list keeps the program's order.
- The particular colouring the program prints for India is not computed. Running the whole search inside the verifier would be too costly. `Instances.IndiaSolved` proves instead that a proper colouring is found.
- The Sudoku solver and the tic-tac-toe game in the same repository are not part of this model.
- Coloring.Backtrack: its own contract bounds the counter only from below, at one move per region added to a solution. `ExactMoves.BacktrackMovesExact` gives the exact count for a failing search. For a successful search the exact count is stated only by the upper bound `MoveCounter.BacktrackMovesBounded` and the concrete triangle runs. There it would depend on which colours failed before the one that succeeded.
- Coloring.TryColors: the same holds for the palette loop. Its own contract has the lower bound, `ExactMoves.TryColorsMovesExact` gives the exact count when the loop fails, and `MoveCounter.TryColorsMovesBounded` gives the upper bound.
- SearchProperties.NeverRaises: the interpreter's recursion limit is not modelled. `backtrack` nests one call deeper per region it colours, so on a well-formed map with more regions than the recursion limit (1000 by default in CPython) the program raises `RecursionError`. On that input the model returns a solution or None.
- SearchProperties.Completeness: it requires a non-empty palette or admissible input. In one case the program returns None at once even though the input is already a proper colouring: the palette is empty, and the dictionary colours every region but has extra keys. In that case the property does not hold.
