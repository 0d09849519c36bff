/**
 * GeneticApplier: the genetic move search.  A chromosome is an arrangement
 * of the board's blank cells, the first half coloured RED and the second
 * BLUE; its fitness is the static score of the board with the chromosome
 * written over it, and lower is better for BLUE.  The engine breeds
 * offspring from its initial population by tournament, PMX crossover and
 * swap mutation, keeps the generation winner whose fitness is the highest
 * so far (the comparison is written `>`), and plays the first BLUE cell of
 * what it keeps.
 *
 * The generator `java.util.Random` is modelled as a stream of draws fixed
 * when the engine is built: `draw(k)` is the k-th draw and `nextInt(bound)`
 * gives `draw(k) % bound`.
 */
module Genetic {
  import opened Boards
  import opened Cells
  import opened Seqs
  import opened Crossover
  import Calculator

  const POPULATION_SIZE: int := 10
  const MUTATION_RATE: int := 5
  const NO_OF_IT: int := 250
  const TOURNAMENT_SIZE: int := 2

  // ---------------------------------------------------------------- blank cells

  /** The blank cells of row x among columns [0, y), in column order. */
  function RowBlanks(b: Board, x: int, y: int): (r: seq<Pos>)
    requires 0 <= x < |b| && 0 <= y <= |b[x]|
    ensures forall p :: p in r <==> p.0 == x && 0 <= p.1 < y && b[x][p.1] == Blank
    ensures |r| == BlanksInRow(b[x], y)
    ensures Distinct(r)
  {
    if y == 0 then []
    else
      var prefix := RowBlanks(b, x, y - 1);
      if b[x][y - 1] == Blank then
        DistinctAppend(prefix, [(x, y - 1)]);
        prefix + [(x, y - 1)]
      else prefix
  }

  /** The blank cells of rows [0, k), row-major: the emptyList of initPopulation. */
  function BlankRows(b: Board, k: int): (r: seq<Pos>)
    requires 0 <= k <= |b|
    ensures forall p :: p in r <==> 0 <= p.0 < k && 0 <= p.1 < |b[p.0]| && b[p.0][p.1] == Blank
    ensures |r| == BlanksInRows(b, k)
    ensures Distinct(r)
  {
    if k == 0 then []
    else
      var prefix := BlankRows(b, k - 1);
      var row := RowBlanks(b, k - 1, |b[k - 1]|);
      DistinctAppend(prefix, row);
      prefix + row
  }

  function BlankCells(b: Board): seq<Pos> {
    BlankRows(b, |b|)
  }

  /** The blank-cell list holds every blank cell of the board once, and nothing else. */
  lemma BlankCellsMeaning(b: Board, n: int)
    requires IsBoard(b, n)
    ensures forall p :: p in BlankCells(b) <==> InBounds(p, n) && b[p.0][p.1] == Blank
    ensures Distinct(BlankCells(b)) && |BlankCells(b)| == CountBlank(b)
  {
  }

  // ---------------------------------------------------------------- chromosomes

  /** Every cell of the chromosome lies on the n-by-n board. */
  predicate OnBoard(ch: Chromosome, n: int) {
    forall k :: 0 <= k < |ch| ==> InBounds(Coord(ch[k]), n)
  }

  /** A chromosome of the population: the cells `cells` in some order, coloured by index half. */
  ghost predicate Arrangement(ch: Chromosome, cells: seq<Pos>) {
    && |ch| == |cells|
    && Halved(ch)
    && multiset(Coords(ch)) == multiset(cells)
  }

  /** An arrangement of the blank cells has no repeated cell, and each of its cells is a blank cell of the board. */
  lemma ArrangementOfBlanks(ch: Chromosome, b: Board, n: int)
    requires IsBoard(b, n) && Arrangement(ch, BlankCells(b))
    ensures Distinct(Coords(ch)) && OnBoard(ch, n)
    ensures forall k :: 0 <= k < |ch| ==> b[ch[k].x][ch[k].y] == Blank
  {
    BlankCellsMeaning(b, n);
    PermDistinct(BlankCells(b), Coords(ch));
    forall k | 0 <= k < |ch| ensures InBounds(Coord(ch[k]), n) && b[ch[k].x][ch[k].y] == Blank {
      assert Coords(ch)[k] in Coords(ch);
    }
  }

  /** The board with the chromosome's cells written over it in order. */
  function Overlay(b: Board, n: int, ch: Chromosome): (r: Board)
    requires IsBoard(b, n) && OnBoard(ch, n)
    ensures IsBoard(r, n)
    decreases |ch|
  {
    if ch == [] then b
    else
      var c := ch[|ch| - 1];
      Place(Overlay(b, n, ch[..|ch| - 1]), c.x, c.y, c.myColor)
  }

  /** Without repeated cells, the overlay shows each chromosome cell's colour and the board elsewhere. */
  lemma {:induction false} OverlayMeaning(b: Board, n: int, ch: Chromosome)
    requires IsBoard(b, n) && OnBoard(ch, n) && Distinct(Coords(ch))
    ensures forall k :: 0 <= k < |ch| ==> Overlay(b, n, ch)[ch[k].x][ch[k].y] == ch[k].myColor
    ensures forall x, y :: 0 <= x < n && 0 <= y < n && (x, y) !in Coords(ch) ==> Overlay(b, n, ch)[x][y] == b[x][y]
    decreases |ch|
  {
    if ch != [] {
      var m := |ch| - 1;
      var pre, last := ch[..m], ch[m];
      assert Coords(pre) == Coords(ch)[..m];
      OverlayMeaning(b, n, pre);
      var before, after := Overlay(b, n, pre), Overlay(b, n, ch);
      assert after == Place(before, last.x, last.y, last.myColor);
      forall k | 0 <= k < |ch| ensures after[ch[k].x][ch[k].y] == ch[k].myColor {
        if k < m {
          assert Coords(ch)[k] != Coords(ch)[m];
          assert before[pre[k].x][pre[k].y] == pre[k].myColor;
        }
      }
      forall x, y | 0 <= x < n && 0 <= y < n && (x, y) !in Coords(ch)
        ensures after[x][y] == b[x][y]
      {
        assert Coords(ch)[m] in Coords(ch);
        assert (x, y) !in Coords(pre);
      }
    }
  }

  /** calcFitness on values: the static score of the board overlaid with the chromosome. */
  ghost function Fitness(b: Board, n: int, ch: Chromosome): int
    requires IsBoard(b, n) && OnBoard(ch, n)
  {
    Calculator.BoardScoreOf(Overlay(b, n, ch), n)
  }

  /** The fitness of each chromosome of a population, in order. */
  ghost function Fitnesses(b: Board, n: int, population: seq<Chromosome>): (fits: seq<int>)
    requires IsBoard(b, n) && forall k :: 0 <= k < |population| ==> OnBoard(population[k], n)
    ensures |fits| == |population|
    ensures forall k :: 0 <= k < |population| ==> fits[k] == Fitness(b, n, population[k])
  {
    seq(|population|, k requires 0 <= k < |population| => Fitness(b, n, population[k]))
  }

  /** Position i holds the least value, and no earlier position holds it. */
  predicate FirstLeastAt(fits: seq<int>, i: int) {
    && 0 <= i < |fits|
    && (forall k :: 0 <= k < |fits| ==> fits[i] <= fits[k])
    && (forall k :: 0 <= k < i ==> fits[i] < fits[k])
  }

  /** One more comparison of Collections.max: a strictly smaller value takes over, an equal or larger one does not. */
  lemma FirstLeastStep(fits: seq<int>, i: int, idx: int)
    requires 0 < i < |fits| && FirstLeastAt(fits[..i], idx)
    ensures fits[i] < fits[idx] ==> FirstLeastAt(fits[..i + 1], i)
    ensures fits[idx] <= fits[i] ==> FirstLeastAt(fits[..i + 1], idx)
  {
    var pre, next := fits[..i], fits[..i + 1];
    assert forall k :: 0 <= k < i ==> next[k] == pre[k];
  }

  /**
   * `best` is what Collections.max returns with the comparator
   * fitness(b) - fitness(a): the first chromosome of least fitness.
   */
  ghost predicate FirstLeast(b: Board, n: int, population: seq<Chromosome>, best: Chromosome)
    requires IsBoard(b, n) && forall k :: 0 <= k < |population| ==> OnBoard(population[k], n)
  {
    exists i :: 0 <= i < |population| && population[i] == best && FirstLeastAt(Fitnesses(b, n, population), i)
  }

  // ---------------------------------------------------------------- mutation

  /** The swap of mutateChildren: positions i and j exchange cells, and each takes the colour of its index half. */
  function SwapRecolor(ch: Chromosome, i: int, j: int): Chromosome
    requires 0 <= i < |ch| && 0 <= j < |ch|
  {
    var size := |ch|;
    ch[i := ch[j].(myColor := HalfColour(i, size))][j := ch[i].(myColor := HalfColour(j, size))]
  }

  /** The swap keeps a chromosome an arrangement of the same cells. */
  lemma SwapRecolorArrangement(ch: Chromosome, i: int, j: int, cells: seq<Pos>)
    requires 0 <= i < |ch| && 0 <= j < |ch| && i != j
    requires Arrangement(ch, cells)
    ensures Arrangement(SwapRecolor(ch, i, j), cells)
  {
    var r := SwapRecolor(ch, i, j);
    var cs := Coords(ch);
    var swapped: seq<Pos> := cs[i := cs[j]][j := cs[i]];
    assert Coords(r) == swapped;
    assert multiset(swapped) == multiset(cs);
  }

  /** Swapping the same two positions of a half-coloured chromosome twice gives it back. */
  lemma SwapRecolorTwice(ch: Chromosome, i: int, j: int)
    requires 0 <= i < |ch| && 0 <= j < |ch| && i != j && Halved(ch)
    ensures SwapRecolor(SwapRecolor(ch, i, j), i, j) == ch
  {
    var r := SwapRecolor(SwapRecolor(ch, i, j), i, j);
    assert r[i] == ch[i] && r[j] == ch[j];
  }

  // ---------------------------------------------------------------- previous solution

  /** List.indexOf with Cell.equals: the first position holding a cell with c's coordinates, or -1. */
  function IndexOfCell(s: Chromosome, c: CellVal): (k: int)
    ensures -1 <= k < |s|
    ensures 0 <= k ==> SameCell(s[k], c)
    ensures forall j :: 0 <= j < |s| && (k < 0 || j < k) ==> !SameCell(s[j], c)
    decreases |s|
  {
    if s == [] then -1
    else if SameCell(s[0], c) then 0
    else
      var k := IndexOfCell(s[1..], c);
      if k < 0 then -1 else k + 1
  }

  /** List.remove(Object): drop the first cell with c's coordinates, if any. */
  function RemoveFirst(s: Chromosome, c: CellVal): (r: Chromosome) {
    var k := IndexOfCell(s, c);
    if k < 0 then s else s[..k] + s[k + 1..]
  }

  /**
   * Removing a cell of the list shortens it by one and keeps only its cells;
   * without repeated cells it is the removal of exactly that position.
   */
  lemma RemoveFirstOfMember(s: Chromosome, k: int, n: int)
    requires 0 <= k < |s|
    ensures |RemoveFirst(s, s[k])| == |s| - 1
    ensures OnBoard(s, n) ==> OnBoard(RemoveFirst(s, s[k]), n)
    ensures Distinct(Coords(s)) ==> RemoveFirst(s, s[k]) == s[..k] + s[k + 1..]
  {
    var j := IndexOfCell(s, s[k]);
    assert 0 <= j;
    var r := s[..j] + s[j + 1..];
    assert forall m :: 0 <= m < |r| ==> r[m] == s[if m < j then m else m + 1];
  }

  /**
   * The reverse loop of isPrevSolutionWinnable from position i down: a cell
   * whose position on the copy is blank is written there, any other cell is
   * removed from the list.  Gives the copy and the list at the end.
   */
  function Prune(b: Board, n: int, s: Chromosome, i: int): (r: (Board, Chromosome))
    requires IsBoard(b, n) && OnBoard(s, n) && -1 <= i < |s|
    ensures IsBoard(r.0, n) && OnBoard(r.1, n)
    decreases i + 1
  {
    if i < 0 then (b, s)
    else
      var c := s[i];
      if b[c.x][c.y] == Blank then Prune(Place(b, c.x, c.y, c.myColor), n, s, i - 1)
      else
        var k := IndexOfCell(s, c);
        assert 0 <= k <= i;
        var rest := s[..k] + s[k + 1..];
        assert forall j :: 0 <= j < |rest| ==> rest[j] == s[if j < k then j else j + 1];
        Prune(b, n, rest, i - 1)
  }

  /** One step of the pruning loop, on the board and the list it works on. */
  lemma PruneStep(b: Board, n: int, s: Chromosome, i: int)
    requires IsBoard(b, n) && OnBoard(s, n) && 0 <= i < |s|
    ensures var c := s[i];
      b[c.x][c.y] == Blank ==> Prune(b, n, s, i) == Prune(Place(b, c.x, c.y, c.myColor), n, s, i - 1)
    ensures var c := s[i];
      b[c.x][c.y] != Blank ==>
        && |RemoveFirst(s, c)| == |s| - 1 && OnBoard(RemoveFirst(s, c), n)
        && Prune(b, n, s, i) == Prune(b, n, RemoveFirst(s, c), i - 1)
  {
    var c := s[i];
    if b[c.x][c.y] != Blank {
      RemoveFirstOfMember(s, i, n);
      assert 0 <= IndexOfCell(s, c) <= i;
    }
  }

  /** Every blank cell of b is blank on b0. */
  ghost predicate BlanksWithin(b: Board, b0: Board, n: int)
    requires IsBoard(b, n) && IsBoard(b0, n)
  {
    forall x, y :: 0 <= x < n && 0 <= y < n && b[x][y] == Blank ==> b0[x][y] == Blank
  }

  /** The cells of s after position i stand on blank cells of b0. */
  ghost predicate OnBlanksAfter(b0: Board, n: int, s: Chromosome, i: int)
    requires IsBoard(b0, n) && OnBoard(s, n)
  {
    forall k :: 0 <= k < |s| && i < k ==> b0[s[k].x][s[k].y] == Blank
  }

  /** Writing a stone on a blank cell loses blank cells and gains none. */
  lemma PlaceOnBlank(b: Board, b0: Board, n: int, x: int, y: int, c: MyColor)
    requires IsBoard(b, n) && IsBoard(b0, n) && 0 <= x < n && 0 <= y < n && b[x][y] == Blank
    requires BlanksWithin(b, b0, n)
    ensures BlanksWithin(Place(b, x, y, c), b0, n)
  {
  }

  /**
   * Every cell left by the pruning loop stood on a blank cell of the
   * original board: the copy only ever loses blank cells, and a cell is
   * kept only where the copy is still blank.
   */
  lemma {:induction false} PruneLeavesBlanks(b0: Board, b: Board, n: int, s: Chromosome, i: int)
    requires IsBoard(b0, n) && IsBoard(b, n) && OnBoard(s, n) && -1 <= i < |s|
    requires BlanksWithin(b, b0, n) && OnBlanksAfter(b0, n, s, i)
    ensures OnBlanksAfter(b0, n, Prune(b, n, s, i).1, -1)
    decreases i + 1
  {
    if i >= 0 {
      var c := s[i];
      if b[c.x][c.y] == Blank {
        var placed := Place(b, c.x, c.y, c.myColor);
        PlaceOnBlank(b, b0, n, c.x, c.y, c.myColor);
        PruneLeavesBlanks(b0, placed, n, s, i - 1);
      } else {
        var k := IndexOfCell(s, c);
        var rest := s[..k] + s[k + 1..];
        assert forall j :: 0 <= j < |rest| ==> rest[j] == s[if j < k then j else j + 1];
        PruneLeavesBlanks(b0, b, n, rest, i - 1);
      }
    }
  }

  /** chooseTheBestCellToPlace's search: the first BLUE cell of the list, or -1. */
  function FirstBlue(s: Chromosome): (k: int)
    ensures -1 <= k < |s|
    ensures 0 <= k ==> s[k].myColor == Blue
    ensures forall j :: 0 <= j < |s| && (k < 0 || j < k) ==> s[j].myColor != Blue
    decreases |s|
  {
    if s == [] then -1
    else if s[0].myColor == Blue then 0
    else
      var k := FirstBlue(s[1..]);
      if k < 0 then -1 else k + 1
  }

  /** A half-coloured chromosome of at least two cells has a BLUE cell: its last one. */
  lemma HalvedHasBlue(ch: Chromosome)
    requires Halved(ch) && |ch| >= 2
    ensures 0 <= FirstBlue(ch)
  {
    assert ch[|ch| - 1].myColor == Blue;
  }

  // ---------------------------------------------------------------- the main loop

  /** Every chromosome of the population is an arrangement of the same cells. */
  ghost predicate Arrangements(population: seq<Chromosome>, cells: seq<Pos>) {
    forall k :: 0 <= k < |population| ==> Arrangement(population[k], cells)
  }

  /** Every chromosome of the population is an arrangement of the board's blank cells. */
  ghost predicate Population(population: seq<Chromosome>, b: Board) {
    Arrangements(population, BlankCells(b))
  }

  lemma ArrangementsPair(one: Chromosome, two: Chromosome, cells: seq<Pos>)
    requires Arrangement(one, cells) && Arrangement(two, cells)
    ensures Arrangements([one, two], cells)
  {
  }

  /** An arrangement of cells without repetitions repeats no cell either. */
  lemma ArrangementDistinct(ch: Chromosome, cells: seq<Pos>)
    requires Distinct(cells) && Arrangement(ch, cells)
    ensures Distinct(Coords(ch))
  {
    PermDistinct(cells, Coords(ch));
  }

  /** A child of the partially mapped crossover is an arrangement of the cells its first parent arranges. */
  lemma CrossedArrangement(child: Chromosome, a: seq<Pos>, b: seq<Pos>, lo: int, hi: int, cells: seq<Pos>)
    requires 0 <= lo <= hi <= |a| == |b| && CrossedChild(child, a, b, lo, hi)
    requires |a| == |cells| && multiset(a) == multiset(cells)
    ensures Arrangement(child, cells)
  {
  }

  /** Every arrangement of a board's blank cells lies on the board. */
  lemma PopulationOnBoard(population: seq<Chromosome>, b: Board, n: int)
    requires IsBoard(b, n) && Population(population, b)
    ensures forall k :: 0 <= k < |population| ==> OnBoard(population[k], n)
  {
    forall k | 0 <= k < |population| ensures OnBoard(population[k], n) {
      ArrangementOfBlanks(population[k], b, n);
    }
  }

  /** The least fitness chosen by getTheBest bounds the fitness of every chromosome of the population. */
  lemma FirstLeastBound(b: Board, n: int, population: seq<Chromosome>, best: Chromosome)
    requires IsBoard(b, n) && forall k :: 0 <= k < |population| ==> OnBoard(population[k], n)
    requires FirstLeast(b, n, population, best)
    ensures OnBoard(best, n)
    ensures forall k :: 0 <= k < |population| ==> Fitness(b, n, best) <= Fitness(b, n, population[k])
  {
    var fits := Fitnesses(b, n, population);
    var i :| 0 <= i < |population| && population[i] == best && FirstLeastAt(fits, i);
  }

  /** The stored solution still wins for BLUE once its taken cells are dropped. */
  ghost predicate Winnable(solution: Option<Chromosome>, b: Board, n: int)
    requires IsBoard(b, n) && (solution.Some? ==> OnBoard(solution.value, n))
  {
    solution.Some? && Calculator.WinnerOf(Prune(b, n, solution.value, |solution.value| - 1).0, n) == Some(Blue)
  }

  /** The progress values reported after iterations 1 to m: (100 * it) / NO_OF_IT. */
  function ProgressReports(m: nat): seq<int> {
    seq(m, i => (100 * (i + 1)) / NO_OF_IT)
  }

  /** The values never decrease along the sequence. */
  predicate NonDecreasing(h: seq<int>) {
    forall i, j :: 0 <= i <= j < |h| ==> h[i] <= h[j]
  }

  /** One more report extends the reports already made. */
  lemma ProgressReportsStep(reported: seq<int>, m: nat)
    ensures reported + ProgressReports(m + 1) == reported + ProgressReports(m) + [(100 * (m + 1)) / NO_OF_IT]
  {
    assert ProgressReports(m + 1) == ProgressReports(m) + [(100 * (m + 1)) / NO_OF_IT];
  }

  /** The genetic search reports a rising progress that stays within [0, 100] and ends at 100. */
  lemma ProgressReportsRange()
    ensures |ProgressReports(NO_OF_IT)| == NO_OF_IT
    ensures forall i :: 0 <= i < NO_OF_IT ==> 0 <= ProgressReports(NO_OF_IT)[i] <= 100
    ensures forall i, j :: 0 <= i <= j < NO_OF_IT ==> ProgressReports(NO_OF_IT)[i] <= ProgressReports(NO_OF_IT)[j]
    ensures ProgressReports(NO_OF_IT)[NO_OF_IT - 1] == 100
  {
  }

  // ---------------------------------------------------------------- what predict computes

  /** chooseTheBestCellToPlace on a list s: its first BLUE cell is played and removed; without one nothing is played and s stays. */
  ghost predicate PlaysFirstBlue(s: Chromosome, toPlace: Option<Pos>, stored: Option<Chromosome>) {
    var k := FirstBlue(s);
    if k < 0 then toPlace == None && stored == Some(s)
    else toPlace == Some(Coord(s[k])) && stored == Some(RemoveFirst(s, s[k]))
  }

  /** What mutateChildren can return: the child itself, or the child with two different positions swapped and recoloured. */
  ghost predicate MutantOf(m: Chromosome, child: Chromosome) {
    m == child || exists i, j :: 0 <= i < |child| && 0 <= j < |child| && i != j && m == SwapRecolor(child, i, j)
  }

  /**
   * One round of the inner loop of predict: the two tournaments, as index
   * pairs into the population, their winners, the crossover segment and
   * the two children before mutation.
   */
  datatype Round = Round(tourOne: (int, int), tourTwo: (int, int), parentOne: Chromosome, parentTwo: Chromosome,
                         lo: int, hi: int, childOne: Chromosome, childTwo: Chromosome)

  /** The pair (one, two) is what round r breeds from the population. */
  ghost predicate RoundOf(b: Board, n: int, population: seq<Chromosome>, r: Round, one: Chromosome, two: Chromosome)
    requires IsBoard(b, n) && forall k :: 0 <= k < |population| ==> OnBoard(population[k], n)
  {
    && 0 <= r.tourOne.0 < |population| && 0 <= r.tourOne.1 < |population|
    && 0 <= r.tourTwo.0 < |population| && 0 <= r.tourTwo.1 < |population|
    && FirstLeast(b, n, [population[r.tourOne.0], population[r.tourOne.1]], r.parentOne)
    && FirstLeast(b, n, [population[r.tourTwo.0], population[r.tourTwo.1]], r.parentTwo)
    && 0 <= r.lo <= r.hi <= |r.parentOne| == |r.parentTwo|
    && CrossedChild(r.childOne, Coords(r.parentOne), Coords(r.parentTwo), r.lo, r.hi)
    && CrossedChild(r.childTwo, Coords(r.parentTwo), Coords(r.parentOne), r.lo, r.hi)
    && MutantOf(one, r.childOne) && MutantOf(two, r.childTwo)
  }

  /** The offspring is, pair by pair, what the rounds breed from the population, in order. */
  ghost predicate BredBy(b: Board, n: int, population: seq<Chromosome>, rounds: seq<Round>, offspring: seq<Chromosome>)
    requires IsBoard(b, n) && forall k :: 0 <= k < |population| ==> OnBoard(population[k], n)
  {
    && |offspring| == 2 * |rounds|
    && forall k {:trigger rounds[k]} :: 0 <= k < |rounds| ==>
         RoundOf(b, n, population, rounds[k], offspring[2 * k], offspring[2 * k + 1])
  }

  /** One more round appends its pair to what the earlier rounds bred. */
  lemma BredByAppend(b: Board, n: int, population: seq<Chromosome>, rounds: seq<Round>, offspring: seq<Chromosome>,
                     round: Round, pair: seq<Chromosome>)
    requires IsBoard(b, n) && forall k :: 0 <= k < |population| ==> OnBoard(population[k], n)
    requires BredBy(b, n, population, rounds, offspring)
    requires |pair| == 2 && RoundOf(b, n, population, round, pair[0], pair[1])
    ensures BredBy(b, n, population, rounds + [round], offspring + pair)
  {
    var (longer, more) := (rounds + [round], offspring + pair);
    forall k | 0 <= k < |longer|
      ensures RoundOf(b, n, population, longer[k], more[2 * k], more[2 * k + 1])
    {
      if k < |rounds| {
        assert longer[k] == rounds[k] && more[2 * k] == offspring[2 * k] && more[2 * k + 1] == offspring[2 * k + 1];
      } else {
        assert 2 * k == |offspring|;
        assert longer[k] == round && more[2 * k] == pair[0] && more[2 * k + 1] == pair[1];
      }
    }
  }

  /** One generation of predict's main loop: its offspring, the rounds that bred it, and the offspring's getTheBest. */
  datatype Bred = Bred(offspring: seq<Chromosome>, rounds: seq<Round>, localBest: Chromosome)

  /**
   * Generation g, bred from `population`, takes the kept (chromosome,
   * fitness) pair `before` to `after`.  The offspring's first least
   * chromosome replaces the kept one only when its fitness is strictly
   * HIGHER: the comparison is `localBestVal > globalBestVal`, although
   * getTheBest treats a lower fitness as the better one.
   */
  ghost predicate GenerationOf(b: Board, n: int, population: seq<Chromosome>, g: Bred,
                               before: (Chromosome, int), after: (Chromosome, int))
    requires IsBoard(b, n) && forall k :: 0 <= k < |population| ==> OnBoard(population[k], n)
  {
    && |g.offspring| == POPULATION_SIZE && Population(g.offspring, b)
    && BredBy(b, n, population, g.rounds, g.offspring)
    && (forall k :: 0 <= k < |g.offspring| ==> OnBoard(g.offspring[k], n))
    && FirstLeast(b, n, g.offspring, g.localBest) && OnBoard(g.localBest, n)
    && after == if Fitness(b, n, g.localBest) > before.1 then (g.localBest, Fitness(b, n, g.localBest)) else before
  }

  /** Generation i of `generations` leads from kept pair i to kept pair i + 1. */
  ghost predicate Chained(b: Board, n: int, population: seq<Chromosome>, generations: seq<Bred>,
                          kept: seq<Chromosome>, history: seq<int>)
    requires IsBoard(b, n) && forall k :: 0 <= k < |population| ==> OnBoard(population[k], n)
  {
    && |kept| == |history| == |generations| + 1
    && forall i {:trigger generations[i]} :: 0 <= i < |generations| ==>
         GenerationOf(b, n, population, generations[i], (kept[i], history[i]), (kept[i + 1], history[i + 1]))
  }

  /**
   * A whole run of predict's main loop: the initial population, the kept
   * chromosome and its value before the loop and after each generation,
   * and the generations.  Every generation breeds from the initial
   * population: `populations` is never replaced by an offspring.
   */
  datatype Run = Run(populations: seq<Chromosome>, kept: seq<Chromosome>, history: seq<int>, generations: seq<Bred>)

  /** `run` is a run of the main loop on the square board `b` (its side is |b|). */
  ghost predicate Evolution(b: Board, run: Run)
    requires IsBoard(b, |b|)
  {
    var n := |b|;
    && |run.populations| == POPULATION_SIZE && Population(run.populations, b)
    && (forall k :: 0 <= k < |run.populations| ==> OnBoard(run.populations[k], n))
    && |run.kept| == |run.history| == NO_OF_IT + 1 && |run.generations| == NO_OF_IT
    && FirstLeast(b, n, run.populations, run.kept[0]) && OnBoard(run.kept[0], n)
    && run.history[0] == Fitness(b, n, run.kept[0])
    && Chained(b, n, run.populations, run.generations, run.kept, run.history)
  }

  /** One more generation extends the chain by the pair it keeps. */
  lemma ChainedAppend(b: Board, n: int, population: seq<Chromosome>, generations: seq<Bred>,
                      kept: seq<Chromosome>, history: seq<int>, g: Bred, best: Chromosome, bestVal: int)
    requires IsBoard(b, n) && forall k :: 0 <= k < |population| ==> OnBoard(population[k], n)
    requires Chained(b, n, population, generations, kept, history)
    requires GenerationOf(b, n, population, g, (kept[|generations|], history[|generations|]), (best, bestVal))
    ensures Chained(b, n, population, generations + [g], kept + [best], history + [bestVal])
  {
    var (gs, ks, hs) := (generations + [g], kept + [best], history + [bestVal]);
    forall i | 0 <= i < |gs|
      ensures GenerationOf(b, n, population, gs[i], (ks[i], hs[i]), (ks[i + 1], hs[i + 1]))
    {
      if i < |generations| {
        assert gs[i] == generations[i] && ks[i] == kept[i] && hs[i] == history[i];
        assert ks[i + 1] == kept[i + 1] && hs[i + 1] == history[i + 1];
      } else {
        assert gs[i] == g && ks[i] == kept[i] && hs[i] == history[i] && ks[i + 1] == best && hs[i + 1] == bestVal;
      }
    }
  }

  /** A chain of NO_OF_IT generations from the least of a population of POPULATION_SIZE is an evolution. */
  lemma ChainedEvolution(b: Board, n: int, run: Run)
    requires IsBoard(b, n)
    requires |run.populations| == POPULATION_SIZE && Population(run.populations, b)
    requires forall k :: 0 <= k < |run.populations| ==> OnBoard(run.populations[k], n)
    requires Chained(b, n, run.populations, run.generations, run.kept, run.history) && |run.generations| == NO_OF_IT
    requires FirstLeast(b, n, run.populations, run.kept[0]) && OnBoard(run.kept[0], n)
    requires run.history[0] == Fitness(b, n, run.kept[0])
    ensures Evolution(b, run)
  {
  }

  /** A generation keeps a (chromosome, fitness) pair a pair, and never lowers its value. */
  lemma GenerationStep(b: Board, n: int, population: seq<Chromosome>, g: Bred, before: (Chromosome, int), after: (Chromosome, int))
    requires IsBoard(b, n) && forall k :: 0 <= k < |population| ==> OnBoard(population[k], n)
    requires GenerationOf(b, n, population, g, before, after)
    requires OnBoard(before.0, n) && before.1 == Fitness(b, n, before.0)
    ensures OnBoard(after.0, n) && after.1 == Fitness(b, n, after.0) && before.1 <= after.1
  {
  }

  /** A link of the chain keeps a (chromosome, fitness) pair a pair and never lowers its value. */
  lemma ChainedStep(b: Board, n: int, population: seq<Chromosome>, generations: seq<Bred>,
                    kept: seq<Chromosome>, history: seq<int>, i: int)
    requires IsBoard(b, n) && forall k :: 0 <= k < |population| ==> OnBoard(population[k], n)
    requires Chained(b, n, population, generations, kept, history) && 0 <= i < |generations|
    requires OnBoard(kept[i], n) && history[i] == Fitness(b, n, kept[i])
    ensures OnBoard(kept[i + 1], n) && history[i + 1] == Fitness(b, n, kept[i + 1]) && history[i] <= history[i + 1]
  {
    GenerationStep(b, n, population, generations[i], (kept[i], history[i]), (kept[i + 1], history[i + 1]));
  }

  /** The kept value after m generations is the fitness of the kept chromosome, and no earlier value exceeds it. */
  lemma {:induction false} KeptUpTo(b: Board, n: int, population: seq<Chromosome>, generations: seq<Bred>,
                                    kept: seq<Chromosome>, history: seq<int>, m: int)
    requires IsBoard(b, n) && forall k :: 0 <= k < |population| ==> OnBoard(population[k], n)
    requires Chained(b, n, population, generations, kept, history) && 0 <= m <= |generations|
    requires OnBoard(kept[0], n) && history[0] == Fitness(b, n, kept[0])
    ensures OnBoard(kept[m], n) && history[m] == Fitness(b, n, kept[m])
    ensures forall i :: 0 <= i <= m ==> history[i] <= history[m]
  {
    if m > 0 {
      KeptUpTo(b, n, population, generations, kept, history, m - 1);
      ChainedStep(b, n, population, generations, kept, history, m - 1);
      forall i | 0 <= i <= m ensures history[i] <= history[m] {
        if i < m {
          assert history[i] <= history[m - 1];
        }
      }
    }
  }

  /**
   * Along a run the kept value is always the fitness of the kept
   * chromosome and never goes down: the search ends with the HIGHEST
   * least fitness it met, never below the initial population's least.
   */
  lemma EvolutionKeepsHighest(b: Board, n: int, run: Run)
    requires IsBoard(b, n) && Evolution(b, run)
    ensures OnBoard(run.kept[NO_OF_IT], n) && run.history[NO_OF_IT] == Fitness(b, n, run.kept[NO_OF_IT])
    ensures NonDecreasing(run.history)
    ensures forall k :: 0 <= k < POPULATION_SIZE ==> run.history[0] <= Fitness(b, n, run.populations[k])
  {
    var (population, generations, kept, history) := (run.populations, run.generations, run.kept, run.history);
    forall j | 0 <= j <= NO_OF_IT
      ensures forall i :: 0 <= i <= j ==> history[i] <= history[j]
    {
      KeptUpTo(b, n, population, generations, kept, history, j);
    }
    KeptUpTo(b, n, population, generations, kept, history, NO_OF_IT);
    FirstLeastBound(b, n, run.populations, run.kept[0]);
  }

  // ---------------------------------------------------------------- the random stream

  /** Some draw from position k on differs from v modulo bound. */
  ghost predicate DiffersAfter(draw: nat -> nat, k: nat, bound: int, v: int) {
    0 < bound && exists j: nat :: k <= j && draw(j) % bound != v
  }

  /** The stream never settles on one residue for good: what the mutation's retry loop needs to end. */
  ghost predicate Varies(draw: nat -> nat) {
    forall k: nat, bound: int, v: int :: 2 <= bound ==> DiffersAfter(draw, k, bound, v)
  }

  class GeneticApplier {
    /** The generator's draws, in order. */
    const draw: nat -> nat
    /** How many draws have been taken. */
    var cursor: nat
    var n: int
    var board: array2<MyColor>
    var prevBestSolution: Option<Chromosome>
    /** The values passed to GeneticListener.onProgress, in order. */
    var progress: seq<int>

    constructor (draw: nat -> nat)
      ensures this.draw == draw && cursor == 0
      ensures prevBestSolution == None && progress == []
    {
      this.draw := draw;
      cursor := 0;
      n := 0;
      board := new MyColor[0, 0];
      prevBestSolution := None;
      progress := [];
    }

    /** The next raw draw of the generator. */
    method NextDraw() returns (d: nat)
      modifies this`cursor
      ensures d == draw(old(cursor)) && cursor == old(cursor) + 1
    {
      d := draw(cursor);
      cursor := cursor + 1;
    }

    /** random.nextInt(bound). */
    method NextInt(bound: int) returns (r: int)
      requires 0 < bound
      modifies this`cursor
      ensures 0 <= r < bound
      ensures r == draw(old(cursor)) % bound && cursor == old(cursor) + 1
    {
      var d := NextDraw();
      r := d % bound;
    }

    /**
     * mutateChildren: with a draw below MUTATION_RATE out of 100, two
     * different positions swap cells and are recoloured by index half;
     * otherwise the chromosome is returned as it is.
     */
    method MutateChildren(chromosome: Chromosome) returns (mutated: Chromosome)
      requires |chromosome| >= 2 && Varies(draw)
      modifies this`cursor
      ensures draw(old(cursor)) % 100 >= MUTATION_RATE ==> mutated == chromosome
      ensures draw(old(cursor)) % 100 < MUTATION_RATE ==>
        exists i, j :: 0 <= i < |chromosome| && 0 <= j < |chromosome| && i != j && mutated == SwapRecolor(chromosome, i, j)
      ensures forall cells :: Arrangement(chromosome, cells) ==> Arrangement(mutated, cells)
      ensures MutantOf(mutated, chromosome)
    {
      var rand := NextInt(100);
      mutated := chromosome;
      if rand < MUTATION_RATE {
        var size := |chromosome|;
        var indexOne := NextInt(size);
        assert DiffersAfter(draw, cursor, size, indexOne);
        ghost var stop: nat :| cursor <= stop && draw(stop) % size != indexOne;
        var indexTwo := NextInt(size);
        while indexOne == indexTwo
          invariant 0 <= indexTwo < size && old(cursor) <= cursor
          invariant indexOne == indexTwo ==> cursor <= stop
          decreases stop - cursor
        {
          indexTwo := NextInt(size);
        }
        mutated := SwapRecolor(chromosome, indexOne, indexTwo);
        forall cells | Arrangement(chromosome, cells) ensures Arrangement(mutated, cells) {
          SwapRecolorArrangement(chromosome, indexOne, indexTwo, cells);
        }
      }
    }

    /** calcFitness: the static score of a copy of the board with the chromosome written over it. */
    method CalcFitness(field: array2<MyColor>, chromosome: Chromosome) returns (fitness: int)
      requires field.Length0 == n && field.Length1 == n && OnBoard(chromosome, n)
      ensures fitness == Fitness(Snapshot(field), n, chromosome)
      ensures fitness == 1000 || fitness == 0 || fitness == -1000
    {
      var size := n;
      ghost var b := Snapshot(field);
      var copiedBoard := new MyColor[size, size]((x, y) requires 0 <= x < size && 0 <= y < size reads field => field[x, y]);
      for i := 0 to |chromosome|
        invariant Holds(copiedBoard, Overlay(b, size, chromosome[..i]))
      {
        var cell := chromosome[i];
        assert chromosome[..i + 1][..i] == chromosome[..i];
        Put(copiedBoard, cell.x, cell.y, cell.myColor, Overlay(b, size, chromosome[..i]));
      }
      assert chromosome[..|chromosome|] == chromosome;
      SnapshotOfHolds(copiedBoard, Overlay(b, size, chromosome));
      fitness := Calculator.GetBoardScore(copiedBoard, size);
    }

    /** getTheBest: Collections.max under the comparator fitness(b) - fitness(a). */
    method GetTheBest(population: seq<Chromosome>) returns (best: Chromosome)
      requires 0 < |population| && board.Length0 == n && board.Length1 == n
      requires forall k :: 0 <= k < |population| ==> OnBoard(population[k], n)
      ensures best in population
      ensures FirstLeast(Snapshot(board), n, population, best)
    {
      ghost var b := Snapshot(board);
      ghost var fits := Fitnesses(b, n, population);
      best := population[0];
      ghost var idx := 0;
      for i := 1 to |population|
        invariant 0 <= idx < i && population[idx] == best
        invariant FirstLeastAt(fits[..i], idx)
      {
        var next := population[i];
        var fitnessOfCandidate := CalcFitness(board, best);
        var fitnessOfNext := CalcFitness(board, next);
        assert fitnessOfCandidate == fits[idx] && fitnessOfNext == fits[i];
        FirstLeastStep(fits, i, idx);
        if fitnessOfCandidate - fitnessOfNext > 0 {
          best := next;
          idx := i;
        }
      }
      assert fits[..|population|] == fits;
    }

    /** getParentFromTournament: two draws pick the tournament; its best wins. */
    method GetParentFromTournament(population: seq<Chromosome>) returns (parent: Chromosome)
      requires 0 < |population| && board.Length0 == n && board.Length1 == n
      requires forall k :: 0 <= k < |population| ==> OnBoard(population[k], n)
      modifies this`cursor
      ensures cursor == old(cursor) + TOURNAMENT_SIZE
      ensures parent in population
      ensures var size := |population|;
        FirstLeast(Snapshot(board), n, [population[draw(old(cursor)) % size], population[draw(old(cursor) + 1) % size]], parent)
    {
      var tournament: seq<Chromosome> := [];
      for i := 0 to TOURNAMENT_SIZE
        invariant |tournament| == i && cursor == old(cursor) + i
        invariant forall k :: 0 <= k < i ==> tournament[k] == population[draw(old(cursor) + k) % |population|]
      {
        var randomIndex := NextInt(|population|);
        tournament := tournament + [population[randomIndex]];
      }
      assert tournament == [population[draw(old(cursor)) % |population|], population[draw(old(cursor) + 1) % |population|]];
      parent := GetTheBest(tournament);
    }

    /** One chromosome of initPopulation: the blank cells drawn one by one without replacement. */
    method RandomArrangement(emptyList: seq<Pos>) returns (chromosome: Chromosome)
      modifies this`cursor
      ensures Arrangement(chromosome, emptyList)
    {
      chromosome := [];
      var copiedEmptyList := emptyList;
      var half := |copiedEmptyList| / 2;
      var count := 0;
      while copiedEmptyList != []
        invariant count == |chromosome| == |emptyList| - |copiedEmptyList|
        invariant multiset(Coords(chromosome)) + multiset(copiedEmptyList) == multiset(emptyList)
        invariant forall k :: 0 <= k < |chromosome| ==> chromosome[k].myColor == HalfColour(k, |emptyList|)
        decreases |copiedEmptyList|
      {
        var index := NextInt(|copiedEmptyList|);
        var pair := copiedEmptyList[index];
        var cell := CellVal(pair.0, pair.1, if count < half then Red else Blue);
        assert Coords(chromosome + [cell]) == Coords(chromosome) + [pair];
        assert copiedEmptyList == copiedEmptyList[..index] + [pair] + copiedEmptyList[index + 1..];
        chromosome := chromosome + [cell];
        count := count + 1;
        copiedEmptyList := copiedEmptyList[..index] + copiedEmptyList[index + 1..];
      }
    }

    /**
     * initPopulation: the blank cells row-major; with fewer than
     * POPULATION_SIZE of them no population (onError), otherwise
     * POPULATION_SIZE random arrangements of them.
     */
    method InitPopulation(field: array2<MyColor>) returns (populations: Option<seq<Chromosome>>)
      requires field.Length0 == n && field.Length1 == n
      modifies this`cursor
      ensures populations.None? <==> |BlankCells(Snapshot(field))| < POPULATION_SIZE
      ensures populations.Some? ==> |populations.value| == POPULATION_SIZE
      ensures populations.Some? ==>
        forall k :: 0 <= k < POPULATION_SIZE ==> Arrangement(populations.value[k], BlankCells(Snapshot(field)))
    {
      var emptyList := CollectBlanks(field);
      if |emptyList| < POPULATION_SIZE {
        return None;
      }
      var pop: seq<Chromosome> := [];
      for i := 0 to POPULATION_SIZE
        invariant |pop| == i
        invariant forall k :: 0 <= k < i ==> Arrangement(pop[k], emptyList)
      {
        var chromosome := RandomArrangement(emptyList);
        pop := pop + [chromosome];
      }
      populations := Some(pop);
    }

    /** The first loop of initPopulation: the blank cells of the board, row by row. */
    method CollectBlanks(field: array2<MyColor>) returns (emptyList: seq<Pos>)
      requires field.Length0 == n && field.Length1 == n
      ensures emptyList == BlankCells(Snapshot(field))
    {
      ghost var b := Snapshot(field);
      emptyList := [];
      for x := 0 to n
        invariant emptyList == BlankRows(b, x)
      {
        var row := CollectRow(field, x);
        emptyList := emptyList + row;
      }
    }

    /** The inner loop of the first loop of initPopulation: the blank cells of row x, by column. */
    method CollectRow(field: array2<MyColor>, x: int) returns (row: seq<Pos>)
      requires field.Length0 == n && field.Length1 == n && 0 <= x < n
      ensures row == RowBlanks(Snapshot(field), x, n)
    {
      ghost var b := Snapshot(field);
      row := [];
      for y := 0 to n
        invariant row == RowBlanks(b, x, y)
      {
        if field[x, y] == Blank {
          row := row + [(x, y)];
        }
      }
    }

    /**
     * isPrevSolutionWinnable on the stored solution: none gives false;
     * otherwise the solution loses every cell whose position is taken, and
     * the answer is whether BLUE wins the board overlaid with the rest.
     */
    method IsPrevSolutionWinnable(curBoard: array2<MyColor>) returns (winnable: bool)
      requires curBoard.Length0 == n && curBoard.Length1 == n
      requires prevBestSolution.Some? ==> OnBoard(prevBestSolution.value, n)
      modifies this`prevBestSolution
      ensures old(prevBestSolution).None? ==> !winnable && prevBestSolution == None
      ensures old(prevBestSolution).Some? ==>
        var s := old(prevBestSolution).value;
        var (after, kept) := Prune(Snapshot(curBoard), n, s, |s| - 1);
        && prevBestSolution == Some(kept)
        && (winnable <==> Calculator.WinnerOf(after, n) == Some(Blue))
      ensures winnable <==> Winnable(old(prevBestSolution), Snapshot(curBoard), n)
      ensures prevBestSolution.Some? ==>
        OnBoard(prevBestSolution.value, n) && OnBlanksAfter(Snapshot(curBoard), n, prevBestSolution.value, -1)
    {
      if prevBestSolution.None? {
        return false;
      }
      var size := n;
      ghost var b0 := Snapshot(curBoard);
      var copiedBoard := new MyColor[size, size]((x, y) requires 0 <= x < size && 0 <= y < size reads curBoard => curBoard[x, y]);
      ghost var s := prevBestSolution.value;
      PruneLeavesBlanks(b0, b0, size, s, |s| - 1);
      var solution := PruneOnCopy(copiedBoard, prevBestSolution.value, b0);
      prevBestSolution := Some(solution);
      SnapshotOfHolds(copiedBoard, Prune(b0, size, old(prevBestSolution).value, |old(prevBestSolution).value| - 1).0);
      var winner := Calculator.GetGameWinner(copiedBoard, size);
      winnable := winner == Some(Blue);
    }

    /**
     * The loop of isPrevSolutionWinnable, from the last cell to the first:
     * a cell on a blank position of the copy is written there, any other
     * is removed from the solution.
     */
    method PruneOnCopy(copiedBoard: array2<MyColor>, s0: Chromosome, ghost b0: Board) returns (solution: Chromosome)
      requires copiedBoard.Length0 == n && copiedBoard.Length1 == n && OnBoard(s0, n) && Holds(copiedBoard, b0)
      modifies copiedBoard
      ensures var (after, kept) := Prune(b0, n, s0, |s0| - 1);
        Holds(copiedBoard, after) && solution == kept
    {
      solution := s0;
      var size := n;
      ghost var b := b0;
      var i := |solution| - 1;
      while i >= 0
        invariant -1 <= i < |solution| && OnBoard(solution, size) && IsBoard(b, size)
        invariant Holds(copiedBoard, b)
        invariant Prune(b, size, solution, i) == Prune(b0, size, s0, |s0| - 1)
        decreases i + 1
      {
        var cell := solution[i];
        PruneStep(b, size, solution, i);
        if copiedBoard[cell.x, cell.y] == Blank {
          Put(copiedBoard, cell.x, cell.y, cell.myColor, b);
          b := Place(b, cell.x, cell.y, cell.myColor);
        } else {
          solution := RemoveFirst(solution, cell);
        }
        i := i - 1;
      }
    }

    /** chooseTheBestCellToPlace on the stored solution: remove the first BLUE cell and return its position. */
    method ChooseTheBestCellToPlace() returns (toPlace: Option<Pos>)
      requires prevBestSolution.Some?
      modifies this`prevBestSolution
      ensures var s := old(prevBestSolution).value;
        var k := FirstBlue(s);
        if k < 0 then toPlace == None && prevBestSolution == old(prevBestSolution)
        else && toPlace == Some(Coord(s[k]))
             && prevBestSolution == Some(RemoveFirst(s, s[k]))
             && |prevBestSolution.value| == |s| - 1
    {
      var solution := prevBestSolution.value;
      for i := 0 to |solution|
        invariant forall j :: 0 <= j < i ==> solution[j].myColor != Blue
      {
        var cell := solution[i];
        if cell.myColor == Blue {
          prevBestSolution := Some(RemoveFirst(solution, cell));
          return Some((cell.x, cell.y));
        }
      }
      return None;
    }

    /** The two getParentFromTournament calls of one round; `tourOne` and `tourTwo` are the drawn indices. */
    method PickParents(population: seq<Chromosome>) returns (parentOne: Chromosome, parentTwo: Chromosome,
                                                             ghost tourOne: (int, int), ghost tourTwo: (int, int))
      requires 0 < |population| && board.Length0 == n && board.Length1 == n
      requires forall k :: 0 <= k < |population| ==> OnBoard(population[k], n)
      modifies this`cursor
      ensures cursor == old(cursor) + 2 * TOURNAMENT_SIZE
      ensures var c, size := old(cursor), |population|;
        tourOne == (draw(c) % size, draw(c + 1) % size) && tourTwo == (draw(c + 2) % size, draw(c + 3) % size)
      ensures parentOne in population && parentTwo in population
      ensures FirstLeast(Snapshot(board), n, [population[tourOne.0], population[tourOne.1]], parentOne)
      ensures FirstLeast(Snapshot(board), n, [population[tourTwo.0], population[tourTwo.1]], parentTwo)
    {
      var size := |population|;
      tourOne := (draw(cursor) % size, draw(cursor + 1) % size);
      parentOne := GetParentFromTournament(population);
      tourTwo := (draw(cursor) % size, draw(cursor + 1) % size);
      parentTwo := GetParentFromTournament(population);
    }

    /** applyCrossover of the two parents, with its two draws; both children arrange the same cells. */
    method CrossParents(parentOne: Chromosome, parentTwo: Chromosome, ghost cells: seq<Pos>)
      returns (children: seq<Chromosome>, ghost lo: int, ghost hi: int)
      requires Distinct(cells) && |cells| >= 2
      requires Arrangement(parentOne, cells) && Arrangement(parentTwo, cells)
      modifies this`cursor
      ensures cursor == old(cursor) + 2
      ensures (lo, hi) == Segment(|parentOne|, draw(old(cursor)), draw(old(cursor) + 1))
      ensures 0 <= lo <= hi <= |parentOne| == |parentTwo| && |children| == 2
      ensures CrossedChild(children[0], Coords(parentOne), Coords(parentTwo), lo, hi)
      ensures CrossedChild(children[1], Coords(parentTwo), Coords(parentOne), lo, hi)
      ensures Arrangement(children[0], cells) && Arrangement(children[1], cells)
    {
      ArrangementDistinct(parentOne, cells);
      var drawOne := NextDraw();
      var drawTwo := NextDraw();
      children := ApplyCrossover(parentOne, parentTwo, drawOne, drawTwo);
      var segment := Segment(|parentOne|, drawOne, drawTwo);
      lo, hi := segment.0, segment.1;
      CrossedArrangement(children[0], Coords(parentOne), Coords(parentTwo), lo, hi, cells);
      CrossedArrangement(children[1], Coords(parentTwo), Coords(parentOne), lo, hi, cells);
    }

    /** applyCrossover of the two parents, then mutateChildren of each child. */
    method CrossAndMutate(parentOne: Chromosome, parentTwo: Chromosome, ghost cells: seq<Pos>)
      returns (pair: seq<Chromosome>, ghost lo: int, ghost hi: int, ghost children: seq<Chromosome>)
      requires Varies(draw) && Distinct(cells) && |cells| >= 2
      requires Arrangement(parentOne, cells) && Arrangement(parentTwo, cells)
      modifies this`cursor
      ensures (lo, hi) == Segment(|parentOne|, draw(old(cursor)), draw(old(cursor) + 1))
      ensures 0 <= lo <= hi <= |parentOne| == |parentTwo| && |children| == 2
      ensures CrossedChild(children[0], Coords(parentOne), Coords(parentTwo), lo, hi)
      ensures CrossedChild(children[1], Coords(parentTwo), Coords(parentOne), lo, hi)
      ensures |pair| == 2 && MutantOf(pair[0], children[0]) && MutantOf(pair[1], children[1])
      ensures Arrangements(pair, cells)
    {
      var childAfterCross;
      childAfterCross, lo, hi := CrossParents(parentOne, parentTwo, cells);
      var mutatedOne := MutateChildren(childAfterCross[0]);
      var mutatedTwo := MutateChildren(childAfterCross[1]);
      ArrangementsPair(mutatedOne, mutatedTwo, cells);
      pair := [mutatedOne, mutatedTwo];
      children := childAfterCross;
    }

    /**
     * One round of the inner loop of predict: two tournament parents
     * crossed, both children mutated.  `round` records the tournaments,
     * the parents, the crossover segment and the children.
     */
    method BreedPair(population: seq<Chromosome>, ghost b: Board, ghost cells: seq<Pos>)
      returns (pair: seq<Chromosome>, ghost round: Round)
      requires 0 < |population| && board.Length0 == n && board.Length1 == n && Varies(draw) && b == Snapshot(board)
      requires forall k :: 0 <= k < |population| ==> OnBoard(population[k], n)
      requires Arrangements(population, cells) && Distinct(cells) && |cells| >= 2
      modifies this`cursor
      ensures |pair| == 2 && Arrangements(pair, cells)
      ensures var c, size := old(cursor), |population|;
        && round.tourOne == (draw(c) % size, draw(c + 1) % size)
        && round.tourTwo == (draw(c + 2) % size, draw(c + 3) % size)
        && |round.parentOne| == |cells|
        && (round.lo, round.hi) == Segment(|round.parentOne|, draw(c + 4), draw(c + 5))
      ensures RoundOf(b, n, population, round, pair[0], pair[1])
    {
      var parentOne, parentTwo;
      ghost var tourOne, tourTwo, lo, hi, children;
      parentOne, parentTwo, tourOne, tourTwo := PickParents(population);
      pair, lo, hi, children := CrossAndMutate(parentOne, parentTwo, cells);
      round := Round(tourOne, tourTwo, parentOne, parentTwo, lo, hi, children[0], children[1]);
    }

    /**
     * What predict's main loop breeds in: the board `b` of side n held in
     * `board`, a varied random stream, and an initial population of
     * POPULATION_SIZE arrangements of the board's (at least two) blank cells.
     */
    ghost predicate Breeding(populations: seq<Chromosome>, b: Board)
      reads this`n, this`board, board
    {
      && board.Length0 == n && board.Length1 == n && Varies(draw) && b == Snapshot(board)
      && |populations| == POPULATION_SIZE && Population(populations, b)
      && (forall k :: 0 <= k < |populations| ==> OnBoard(populations[k], n))
      && |BlankCells(b)| >= 2
    }

    /**
     * The inner loop of predict: pairs of mutated crossover children until
     * the offspring is as large as the population.
     */
    method Breed(population: seq<Chromosome>, ghost b: Board) returns (offspring: seq<Chromosome>, ghost rounds: seq<Round>)
      requires Breeding(population, b)
      modifies this`cursor
      ensures |offspring| == POPULATION_SIZE && Population(offspring, b)
      ensures BredBy(b, n, population, rounds, offspring)
    {
      ghost var cells := BlankCells(b);
      BlankCellsMeaning(b, n);
      offspring := [];
      rounds := [];
      while |offspring| < |population|
        invariant |offspring| == 2 * |rounds| <= |population|
        invariant Arrangements(offspring, cells)
        invariant BredBy(b, n, population, rounds, offspring)
        decreases |population| - |offspring|
      {
        assert |offspring| + 2 <= |population|;
        offspring, rounds := BreedRound(population, b, cells, offspring, rounds);
      }
    }

    /** One pass of the inner loop of predict: the pair one round breeds is appended to the offspring. */
    method BreedRound(population: seq<Chromosome>, ghost b: Board, ghost cells: seq<Pos>,
                      offspring: seq<Chromosome>, ghost rounds: seq<Round>)
      returns (offspring': seq<Chromosome>, ghost rounds': seq<Round>)
      requires 0 < |population| && board.Length0 == n && board.Length1 == n && Varies(draw)
      requires b == Snapshot(board) && IsBoard(b, n) && forall k :: 0 <= k < |population| ==> OnBoard(population[k], n)
      requires Distinct(cells) && |cells| >= 2 && Arrangements(population, cells) && Arrangements(offspring, cells)
      requires BredBy(b, n, population, rounds, offspring)
      modifies this`cursor
      ensures |offspring'| == |offspring| + 2 && |rounds'| == |rounds| + 1
      ensures Arrangements(offspring', cells)
      ensures BredBy(b, n, population, rounds', offspring')
    {
      ghost var size := n;
      var pair;
      ghost var round;
      pair, round := BreedPair(population, b, cells);
      assert n == size;
      BredByAppend(b, size, population, rounds, offspring, round, pair);
      offspring' := offspring + pair;
      rounds' := rounds + [round];
    }

    /** getTheBest followed by calcFitness of the winner: the least fitness of the population. */
    method BestOf(population: seq<Chromosome>, ghost b: Board) returns (best: Chromosome, bestVal: int)
      requires board.Length0 == n && board.Length1 == n && b == Snapshot(board)
      requires 0 < |population| && Population(population, b)
      requires forall k :: 0 <= k < |population| ==> OnBoard(population[k], n)
      ensures Arrangement(best, BlankCells(b)) && OnBoard(best, n)
      ensures bestVal == Fitness(b, n, best)
      ensures forall k :: 0 <= k < |population| ==> bestVal <= Fitness(b, n, population[k])
      ensures FirstLeast(b, n, population, best)
    {
      best := GetTheBest(population);
      FirstLeastBound(b, n, population, best);
      bestVal := CalcFitness(board, best);
    }

    /**
     * One iteration of the main loop of predict: breed an offspring from the
     * population and adopt its best only when its fitness is strictly
     * HIGHER than the kept one.  `g` records the generation.
     */
    method Generation(populations: seq<Chromosome>, ghost b: Board, globalBest: Chromosome, globalBestVal: int)
      returns (newBest: Chromosome, newBestVal: int, ghost g: Bred)
      requires Breeding(populations, b)
      requires Arrangement(globalBest, BlankCells(b)) && OnBoard(globalBest, n)
      requires globalBestVal == Fitness(b, n, globalBest)
      modifies this`cursor
      ensures GenerationOf(b, n, populations, g, (globalBest, globalBestVal), (newBest, newBestVal))
      ensures Arrangement(newBest, BlankCells(b)) && OnBoard(newBest, n)
      ensures newBestVal == Fitness(b, n, newBest)
      ensures globalBestVal <= newBestVal
      ensures newBestVal == globalBestVal ==> newBest == globalBest
    {
      var offspring;
      ghost var rounds;
      offspring, rounds := Breed(populations, b);
      PopulationOnBoard(offspring, b, n);
      var localBest, localBestVal := BestOf(offspring, b);
      newBest, newBestVal := globalBest, globalBestVal;
      if localBestVal > globalBestVal {
        newBestVal := localBestVal;
        newBest := localBest;
      }
      g := Bred(offspring, rounds, localBest);
    }

    /** One generation with its record: the chain of kept values grows by the pair the generation keeps. */
    method ChainGeneration(populations: seq<Chromosome>, ghost b: Board, globalBest: Chromosome, globalBestVal: int,
                           ghost kept: seq<Chromosome>, ghost history: seq<int>, ghost generations: seq<Bred>)
      returns (newBest: Chromosome, newBestVal: int, ghost kept': seq<Chromosome>, ghost history': seq<int>,
               ghost generations': seq<Bred>)
      requires Breeding(populations, b)
      requires Arrangement(globalBest, BlankCells(b)) && OnBoard(globalBest, n)
      requires globalBestVal == Fitness(b, n, globalBest)
      requires Chained(b, n, populations, generations, kept, history)
      requires globalBest == kept[|generations|] && globalBestVal == history[|generations|]
      modifies this`cursor
      ensures Chained(b, n, populations, generations', kept', history')
      ensures kept' == kept + [newBest] && history' == history + [newBestVal] && |generations'| == |generations| + 1
      ensures Arrangement(newBest, BlankCells(b)) && OnBoard(newBest, n)
      ensures newBestVal == Fitness(b, n, newBest)
    {
      ghost var g;
      newBest, newBestVal, g := Generation(populations, b, globalBest, globalBestVal);
      ChainedAppend(b, n, populations, generations, kept, history, g, newBest, newBestVal);
      kept', history', generations' := kept + [newBest], history + [newBestVal], generations + [g];
    }

    /** onProgress after iteration `it` of the main loop: the percentage 100·it/NO_OF_IT is appended. */
    method ReportIteration(ghost reported: seq<int>, it: nat)
      requires 0 < it && progress == reported + ProgressReports(it - 1)
      modifies this`progress
      ensures progress == reported + ProgressReports(it)
    {
      ProgressReportsStep(reported, it - 1);
      progress := progress + [(100 * it) / NO_OF_IT];
    }

    /**
     * The loop of predict's main loop: NO_OF_IT generations from the kept
     * `start`, each bred from the initial population.  The ghost outs
     * record the kept chromosomes and values and the generations.
     */
    method Generations(populations: seq<Chromosome>, ghost b: Board, start: Chromosome, startVal: int)
      returns (globalBest: Chromosome, globalBestVal: int,
               ghost kept: seq<Chromosome>, ghost history: seq<int>, ghost generations: seq<Bred>)
      requires Breeding(populations, b)
      requires Arrangement(start, BlankCells(b)) && OnBoard(start, n) && startVal == Fitness(b, n, start)
      modifies this`cursor, this`progress
      ensures Chained(b, n, populations, generations, kept, history) && |generations| == NO_OF_IT
      ensures kept[0] == start && history[0] == startVal
      ensures globalBest == kept[NO_OF_IT] && globalBestVal == history[NO_OF_IT]
      ensures Arrangement(globalBest, BlankCells(b)) && OnBoard(globalBest, n)
      ensures globalBestVal == Fitness(b, n, globalBest)
      ensures progress == old(progress) + ProgressReports(NO_OF_IT)
    {
      globalBest, globalBestVal := start, startVal;
      kept, history, generations := [start], [startVal], [];
      ghost var reported := progress;
      ghost var size := n;
      var it := 0;
      while it < NO_OF_IT
        invariant n == size
        invariant 0 <= it <= NO_OF_IT && |kept| == |history| == it + 1 && |generations| == it
        invariant kept[0] == start && history[0] == startVal
        invariant Arrangement(globalBest, BlankCells(b)) && OnBoard(globalBest, size)
        invariant globalBest == kept[it] && globalBestVal == Fitness(b, size, globalBest) == history[it]
        invariant Chained(b, size, populations, generations, kept, history)
        invariant progress == reported + ProgressReports(it)
      {
        it := it + 1;
        globalBest, globalBestVal, kept, history, generations :=
          ChainGeneration(populations, b, globalBest, globalBestVal, kept, history, generations);
        ReportIteration(reported, it);
      }
    }

    /**
     * The winnable branch of predict: report full progress and play the
     * first BLUE cell of the stored solution.
     */
    method PlayStored(ghost b0: Board) returns (toPlace: Option<Pos>)
      requires IsBoard(b0, n) && prevBestSolution.Some? && OnBoard(prevBestSolution.value, n)
      requires OnBlanksAfter(b0, n, prevBestSolution.value, -1)
      modifies this`prevBestSolution, this`progress
      ensures progress == old(progress) + [100]
      ensures prevBestSolution.Some? && OnBoard(prevBestSolution.value, n)
      ensures toPlace.Some? ==> InBounds(toPlace.value, n) && b0[toPlace.value.0][toPlace.value.1] == Blank
      ensures PlaysFirstBlue(old(prevBestSolution).value, toPlace, prevBestSolution)
    {
      ghost var s := prevBestSolution.value;
      progress := progress + [100];
      toPlace := ChooseTheBestCellToPlace();
      var k := FirstBlue(s);
      if 0 <= k {
        RemoveFirstOfMember(s, k, n);
      }
    }

    /**
     * The other branch of predict: no move with fewer than POPULATION_SIZE
     * blank cells; otherwise the evolved best is stored and its first BLUE
     * cell, which always exists, is played.
     */
    method PlayEvolved(ghost b: Board) returns (toPlace: Option<Pos>, ghost run: Option<Run>)
      requires board.Length0 == n && board.Length1 == n && Varies(draw) && b == Snapshot(board)
      requires prevBestSolution.Some? ==> OnBoard(prevBestSolution.value, n)
      modifies this`cursor, this`progress, this`prevBestSolution
      ensures prevBestSolution.Some? ==> OnBoard(prevBestSolution.value, n)
      ensures toPlace.Some? <==> CountBlank(b) >= POPULATION_SIZE
      ensures toPlace.Some? ==> InBounds(toPlace.value, n) && b[toPlace.value.0][toPlace.value.1] == Blank
      ensures CountBlank(b) >= POPULATION_SIZE ==> progress == old(progress) + ProgressReports(NO_OF_IT)
      ensures run.None? <==> CountBlank(b) < POPULATION_SIZE
      ensures run.None? ==> toPlace == None && prevBestSolution == old(prevBestSolution) && progress == old(progress)
      ensures run.Some? ==>
        && Evolution(b, run.value)
        && 0 <= FirstBlue(run.value.kept[NO_OF_IT])
        && PlaysFirstBlue(run.value.kept[NO_OF_IT], toPlace, prevBestSolution)
    {
      BlankCellsMeaning(b, n);
      var populations := InitPopulation(board);
      assert populations.None? <==> CountBlank(b) < POPULATION_SIZE;
      if populations.None? {
        return None, None;
      }
      PopulationOnBoard(populations.value, b, n);
      ghost var evolution;
      toPlace, evolution := Evolve(populations.value, b);
      run := Some(evolution);
    }

    /**
     * The main loop of predict: the least of the population is kept first,
     * then NO_OF_IT generations, each bred from the initial population,
     * keep the generation winner whose fitness is the highest so far.
     * `run` records the population, the kept chromosome and value before
     * the loop and after each generation, and the generations.
     */
    method MainLoop(populations: seq<Chromosome>, ghost b: Board) returns (globalBest: Chromosome, ghost run: Run)
      requires Breeding(populations, b)
      modifies this`cursor, this`progress
      ensures Evolution(b, run) && run.populations == populations
      ensures globalBest == run.kept[NO_OF_IT] && Arrangement(globalBest, BlankCells(b))
      ensures progress == old(progress) + ProgressReports(NO_OF_IT)
    {
      ghost var size := n;
      var start, startVal := BestOf(populations, b);
      var globalBestVal;
      ghost var kept, history, generations;
      globalBest, globalBestVal, kept, history, generations := Generations(populations, b, start, startVal);
      assert n == size;
      run := Run(populations, kept, history, generations);
      ChainedEvolution(b, size, run);
    }

    /**
     * The main loop of predict and its end: the chromosome the loop keeps
     * becomes the stored solution and its first BLUE cell is played.
     */
    method Evolve(populations: seq<Chromosome>, ghost b: Board) returns (toPlace: Option<Pos>, ghost run: Run)
      requires Breeding(populations, b)
      modifies this`cursor, this`progress, this`prevBestSolution
      ensures Evolution(b, run) && run.populations == populations
      ensures 0 <= FirstBlue(run.kept[NO_OF_IT]) && PlaysFirstBlue(run.kept[NO_OF_IT], toPlace, prevBestSolution)
      ensures prevBestSolution.Some? && OnBoard(prevBestSolution.value, n)
      ensures toPlace.Some? && InBounds(toPlace.value, n) && b[toPlace.value.0][toPlace.value.1] == Blank
      ensures progress == old(progress) + ProgressReports(NO_OF_IT)
    {
      ghost var size := n;
      assert IsBoard(b, size);
      var globalBest;
      globalBest, run := MainLoop(populations, b);
      assert n == size;
      toPlace := StoreAndChoose(globalBest, b);
    }

    /** The end of predict: the evolved best becomes the stored solution and its first BLUE cell is played. */
    method StoreAndChoose(globalBest: Chromosome, ghost b: Board) returns (toPlace: Option<Pos>)
      requires IsBoard(b, n) && Arrangement(globalBest, BlankCells(b)) && |globalBest| >= 2
      modifies this`prevBestSolution
      ensures prevBestSolution.Some? && OnBoard(prevBestSolution.value, n)
      ensures toPlace.Some? && InBounds(toPlace.value, n) && b[toPlace.value.0][toPlace.value.1] == Blank
      ensures 0 <= FirstBlue(globalBest) && PlaysFirstBlue(globalBest, toPlace, prevBestSolution)
    {
      ArrangementOfBlanks(globalBest, b, n);
      HalvedHasBlue(globalBest);
      var k := FirstBlue(globalBest);
      RemoveFirstOfMember(globalBest, k, n);
      prevBestSolution := Some(globalBest);
      toPlace := ChooseTheBestCellToPlace();
    }

    /** The decision predict takes once the board it is given is in place. */
    method Respond(ghost b: Board) returns (toPlace: Option<Pos>, ghost run: Option<Run>)
      requires board.Length0 == n && board.Length1 == n && Varies(draw) && b == Snapshot(board)
      requires prevBestSolution.Some? ==> OnBoard(prevBestSolution.value, n)
      modifies this`cursor, this`prevBestSolution, this`progress
      ensures prevBestSolution.Some? ==> OnBoard(prevBestSolution.value, n)
      ensures toPlace.Some? ==> InBounds(toPlace.value, n) && b[toPlace.value.0][toPlace.value.1] == Blank
      ensures Winnable(old(prevBestSolution), b, n) ==> progress == old(progress) + [100]
      ensures !Winnable(old(prevBestSolution), b, n) ==> (toPlace.Some? <==> CountBlank(b) >= POPULATION_SIZE)
      ensures !Winnable(old(prevBestSolution), b, n) && CountBlank(b) >= POPULATION_SIZE ==>
        progress == old(progress) + ProgressReports(NO_OF_IT)
      ensures Winnable(old(prevBestSolution), b, n) ==>
        var s := old(prevBestSolution).value;
        run == None && PlaysFirstBlue(Prune(b, n, s, |s| - 1).1, toPlace, prevBestSolution)
      ensures !Winnable(old(prevBestSolution), b, n) ==> (run.None? <==> CountBlank(b) < POPULATION_SIZE)
      ensures !Winnable(old(prevBestSolution), b, n) && run.None? ==>
        toPlace == None &&
        prevBestSolution == (if old(prevBestSolution).None? then None
                             else Some(Prune(b, n, old(prevBestSolution).value, |old(prevBestSolution).value| - 1).1))
      ensures !Winnable(old(prevBestSolution), b, n) && run.Some? ==>
        && Evolution(b, run.value)
        && PlaysFirstBlue(run.value.kept[NO_OF_IT], toPlace, prevBestSolution)
    {
      var winnable := IsPrevSolutionWinnable(board);
      if winnable {
        toPlace := PlayStored(b);
        run := None;
      } else {
        toPlace, run := PlayEvolved(b);
      }
    }

    /**
     * predict: reuse the stored solution while it still wins for BLUE;
     * otherwise evolve a new one.  The move is returned instead of passed
     * to onFinished; None stands for the onError and early-return paths.
     */
    method Predict(N: int, field: array2<MyColor>) returns (toPlace: Option<Pos>, ghost run: Option<Run>)
      requires field.Length0 == N && field.Length1 == N && Varies(draw)
      requires prevBestSolution.Some? ==> OnBoard(prevBestSolution.value, N)
      modifies this`n, this`board, this`cursor, this`prevBestSolution, this`progress
      ensures n == N && board == field
      ensures prevBestSolution.Some? ==> OnBoard(prevBestSolution.value, N)
      ensures toPlace.Some? ==> InBounds(toPlace.value, N) && Snapshot(field)[toPlace.value.0][toPlace.value.1] == Blank
      ensures Winnable(old(prevBestSolution), Snapshot(field), N) ==> progress == old(progress) + [100]
      ensures !Winnable(old(prevBestSolution), Snapshot(field), N) ==>
        (toPlace.Some? <==> CountBlank(Snapshot(field)) >= POPULATION_SIZE)
      ensures !Winnable(old(prevBestSolution), Snapshot(field), N) && CountBlank(Snapshot(field)) >= POPULATION_SIZE ==>
        progress == old(progress) + ProgressReports(NO_OF_IT)
      ensures Winnable(old(prevBestSolution), Snapshot(field), N) ==>
        var s := old(prevBestSolution).value;
        run == None && PlaysFirstBlue(Prune(Snapshot(field), N, s, |s| - 1).1, toPlace, prevBestSolution)
      ensures !Winnable(old(prevBestSolution), Snapshot(field), N) ==> (run.None? <==> CountBlank(Snapshot(field)) < POPULATION_SIZE)
      ensures !Winnable(old(prevBestSolution), Snapshot(field), N) && run.None? ==>
        toPlace == None &&
        prevBestSolution == (if old(prevBestSolution).None? then None
                             else Some(Prune(Snapshot(field), N, old(prevBestSolution).value, |old(prevBestSolution).value| - 1).1))
      ensures !Winnable(old(prevBestSolution), Snapshot(field), N) && run.Some? ==>
        && Evolution(Snapshot(field), run.value)
        && PlaysFirstBlue(run.value.kept[NO_OF_IT], toPlace, prevBestSolution)
    {
      n := N;
      board := field;
      ghost var b := Snapshot(field);
      toPlace, run := Respond(b);
      assert Snapshot(field) == b;
    }
  }
}
