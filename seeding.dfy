/**
 * Seeding a board: drawing the indices of the initially live cells by
 * rejection sampling, and building the row-major cell array from them.
 *
 * The random number generator is replaced by the sequence `draws` of the
 * values it would return, already scaled to `1..cellCount` as the source
 * scales them; a draw outside that range is simply accepted as a number.
 */
module Seeding {
  import opened Cells

  /** No value occurs twice in `s`. */
  ghost predicate Distinct(s: seq<int>) {
    forall i, j :: 0 <= i < j < |s| ==> s[i] != s[j]
  }

  /** The distinct values of `s`. */
  ghost function Values(s: seq<int>): set<int> {
    set x | x in s
  }

  /**
   * The list the sampling loop has built after seeing `draws`, aiming at
   * `target` values: each draw is appended unless it is already in the list,
   * and once the list is full no further draw is looked at. The list never
   * exceeds its target, and takes at most one value per draw.
   */
  function AcceptedDraws(draws: seq<int>, target: nat): (accepted: seq<int>)
    ensures |accepted| <= target && |accepted| <= |draws|
  {
    if draws == [] then []
    else
      var prior := AcceptedDraws(draws[..|draws| - 1], target);
      var draw := draws[|draws| - 1];
      if |prior| < target && draw !in prior then prior + [draw] else prior
  }

  /**
   * The sampled list holds no value twice, holds only drawn values, and when
   * it is short of its target it holds every value drawn.
   */
  lemma {:induction false} AcceptedDrawsShape(draws: seq<int>, target: nat)
    ensures Distinct(AcceptedDraws(draws, target))
    ensures Values(AcceptedDraws(draws, target)) <= Values(draws)
    ensures |AcceptedDraws(draws, target)| < target ==> Values(draws) <= Values(AcceptedDraws(draws, target))
    decreases |draws|
  {
    if draws != [] {
      var init := draws[..|draws| - 1];
      AcceptedDrawsShape(init, target);
      assert draws == init + [draws[|draws| - 1]];
      assert Values(draws) == Values(init) + {draws[|draws| - 1]};
    }
  }

  /** A draw already in the list leaves the list as it was. */
  lemma {:induction false} DuplicateDrawIgnored(draws: seq<int>, target: nat, draw: int)
    requires draw in AcceptedDraws(draws, target)
    ensures AcceptedDraws(draws + [draw], target) == AcceptedDraws(draws, target)
  {
    assert (draws + [draw])[..|draws|] == draws;
  }

  /** Once the list is full, later draws change nothing. */
  lemma {:induction false} FullListIsFinal(draws: seq<int>, k: nat, target: nat)
    requires k <= |draws| && |AcceptedDraws(draws[..k], target)| == target
    ensures AcceptedDraws(draws, target) == AcceptedDraws(draws[..k], target)
    decreases |draws| - k
  {
    if k < |draws| {
      assert draws[..k + 1][..k] == draws[..k];
      FullListIsFinal(draws, k + 1, target);
    } else {
      assert draws[..k] == draws;
    }
  }

  /** A sequence without repeats has as many distinct values as elements. */
  lemma {:induction false} DistinctValues(s: seq<int>)
    requires Distinct(s)
    ensures |Values(s)| == |s|
    decreases |s|
  {
    if s != [] {
      var init := s[..|s| - 1];
      DistinctValues(init);
      assert s == init + [s[|s| - 1]];
      assert Values(s) == Values(init) + {s[|s| - 1]};
      assert s[|s| - 1] !in Values(init);
    }
  }

  lemma SubsetSize(a: set<int>, b: set<int>)
    requires a <= b
    ensures |a| <= |b|
  {
    assert b == a + (b - a);
    assert a * (b - a) == {};
  }

  /**
   * Given draws with at least `target` distinct values, the sampled list
   * reaches exactly `target` values.
   */
  lemma {:induction false} EnoughDrawsFillTheList(draws: seq<int>, target: nat)
    requires |Values(draws)| >= target
    ensures |AcceptedDraws(draws, target)| == target
  {
    var accepted := AcceptedDraws(draws, target);
    AcceptedDrawsShape(draws, target);
    if |accepted| < target {
      DistinctValues(accepted);
      SubsetSize(Values(draws), Values(accepted));
      assert false;
    }
  }

  /**
   * The sampling loop of the engine: draws values until it holds
   * `floor(cellCount / 4)` distinct ones or the draws run out.
   */
  method RandomizeAliveCells(cellCount: nat, draws: seq<int>) returns (aliveCells: seq<int>)
    ensures aliveCells == AcceptedDraws(draws, cellCount / 4)
  {
    aliveCells := [];
    var i := 0;
    while |aliveCells| < cellCount / 4 && i < |draws|
      invariant 0 <= i <= |draws|
      invariant aliveCells == AcceptedDraws(draws[..i], cellCount / 4)
    {
      var aliveCell := draws[i];
      assert draws[..i + 1][..i] == draws[..i];
      if aliveCell !in aliveCells {
        aliveCells := aliveCells + [aliveCell];
      }
      i := i + 1;
    }
    if i < |draws| {
      AcceptedDrawsShape(draws[..i], cellCount / 4);
      FullListIsFinal(draws, i, cellCount / 4);
    } else {
      assert draws[..i] == draws;
    }
  }

  /**
   * `cells` is the board built from `aliveCells`: `cellCount` cells, cell `y`
   * live exactly when `y` is in the list, every cell marked newborn.
   */
  ghost predicate Seeds(cells: seq<Cell>, cellCount: nat, aliveCells: seq<int>) {
    |cells| == cellCount
    && forall y :: 0 <= y < cellCount ==> cells[y] == Cell(y in aliveCells, Some(true))
  }

  /** Builds the row-major board from the list of live indices. */
  method GenerateCells(cellCount: nat, aliveCells: seq<int>) returns (cells: seq<Cell>)
    ensures Seeds(cells, cellCount, aliveCells)
  {
    cells := [];
    for y := 0 to cellCount
      invariant Seeds(cells, y, aliveCells)
    {
      if y !in aliveCells {
        cells := cells + [Cell(false, Some(true))];
      } else {
        cells := cells + [Cell(true, Some(true))];
      }
    }
  }

  /** The indices of the live cells of a board. */
  ghost function AliveIndices(cells: seq<Cell>): set<int> {
    set i | 0 <= i < |cells| && cells[i].alive
  }

  /**
   * A board seeded from draws in `1..cellCount`: cell 0 is never live, and
   * there are at most `floor(cellCount / 4)` live cells; when the draws hold
   * enough distinct values, at least one fewer than that (a draw equal to
   * `cellCount` takes a place in the list but marks no cell).
   */
  lemma {:induction false} SeedPopulation(cells: seq<Cell>, cellCount: nat, draws: seq<int>)
    requires forall i :: 0 <= i < |draws| ==> 1 <= draws[i] <= cellCount
    requires Seeds(cells, cellCount, AcceptedDraws(draws, cellCount / 4))
    ensures cellCount > 0 ==> !cells[0].alive
    ensures AliveIndices(cells) == Values(AcceptedDraws(draws, cellCount / 4)) - {cellCount}
    ensures |AliveIndices(cells)| <= cellCount / 4
    ensures |Values(draws)| >= cellCount / 4 ==> |AliveIndices(cells)| >= cellCount / 4 - 1
  {
    var accepted := AcceptedDraws(draws, cellCount / 4);
    AcceptedDrawsShape(draws, cellCount / 4);
    DistinctValues(accepted);
    assert forall x :: x in accepted ==> 1 <= x <= cellCount by {
      forall x | x in accepted ensures 1 <= x <= cellCount {
        assert x in Values(draws);
      }
    }
    assert AliveIndices(cells) == Values(accepted) - {cellCount};
    SubsetSize(AliveIndices(cells), Values(accepted));
    if |Values(draws)| >= cellCount / 4 {
      EnoughDrawsFillTheList(draws, cellCount / 4);
    }
  }
}
