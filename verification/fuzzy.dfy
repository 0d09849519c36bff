/**
 * FuzzyApplier: the fuzzy selector that weighs the number of empty cells
 * and the time the previous bot move took, and names the search algorithm
 * the bot should use.  Java's doubles are modelled as exact reals.
 */
module Fuzzy {
  import opened Boards

  /** The PredictionAlgo enum. */
  datatype PredictionAlgo = AlphaBetaPruning | GeneticAlgo

  /** Memberships of the number of empty cells in LOW, MEDIUM and HIGH. */
  datatype NoOfEmptyCellR = NoOfEmptyCellR(low: real, medium: real, high: real)

  /** Memberships of the previous move's time in SHORT, MODERATE and LONG. */
  datatype AlphaBetaTimeR = AlphaBetaTimeR(short: real, moderate: real, long: real)

  /** Strengths of the two algorithms. */
  datatype AlgoTypeR = AlgoTypeR(alphaBeta: real, genetic: real)

  function Min(a: real, b: real): real {
    if a <= b then a else b
  }

  function Max(a: real, b: real): real {
    if a >= b then a else b
  }

  /** Three memberships, each in [0, 1], that add up to 1. */
  ghost predicate Partition(a: real, b: real, c: real) {
    0.0 <= a <= 1.0 && 0.0 <= b <= 1.0 && 0.0 <= c <= 1.0 && a + b + c == 1.0
  }

  /**
   * The shape both membership functions share: full left membership up to
   * `leftOne`, a linear hand-over to the middle up to `leftTwo`, full middle
   * membership up to `midOne`, a hand-over to the right up to `midTwo`, and
   * full right membership beyond.  Each division is reached only when its
   * divisor is positive.
   */
  function Trapezoid(val: real, leftOne: real, leftTwo: real, midOne: real, midTwo: real): (r: (real, real, real))
    ensures Partition(r.0, r.1, r.2)
  {
    if val <= leftOne then (1.0, 0.0, 0.0)
    else if val < leftTwo then
      var low := (leftTwo - val) / (leftTwo - leftOne);
      var medium := (val - leftOne) / (leftTwo - leftOne);
      Shares(leftTwo - val, val - leftOne, leftTwo - leftOne);
      (low, medium, 0.0)
    else if val <= midOne then (0.0, 1.0, 0.0)
    else if val < midTwo then
      var medium := (midTwo - val) / (midTwo - midOne);
      var high := (val - midOne) / (midTwo - midOne);
      Shares(midTwo - val, val - midOne, midTwo - midOne);
      (0.0, medium, high)
    else (0.0, 0.0, 1.0)
  }

  /** Two non-negative parts of a positive whole, as fractions of it. */
  lemma Shares(a: real, b: real, d: real)
    requires 0.0 < a && 0.0 < b && a + b == d
    ensures 0.0 <= a / d <= 1.0 && 0.0 <= b / d <= 1.0 && a / d + b / d == 1.0
  {
    var p, q := a / d, b / d;
    assert p * d == a;
    assert q * d == b;
    assert (p + q - 1.0) * d == p * d + q * d - d;
    PositiveFactor(p + q - 1.0, d);
    assert (1.0 - p) * d == b;
    assert (1.0 - q) * d == a;
    PositiveFactor(p, d);
    PositiveFactor(q, d);
    PositiveFactor(1.0 - p, d);
    PositiveFactor(1.0 - q, d);
  }

  /** checkNoOfEmptyCell: breakpoints at 30, 40, 60 and 70 percent of `n` cells. */
  function CheckNoOfEmptyCell(val: real, n: int): (r: NoOfEmptyCellR)
    ensures Partition(r.low, r.medium, r.high)
  {
    var N := n as real;
    var t := Trapezoid(val, 0.3 * N, 0.4 * N, 0.6 * N, 0.7 * N);
    NoOfEmptyCellR(t.0, t.1, t.2)
  }

  /** checkAlphaBetaTime: breakpoints at 5, 7, 15 and 20 seconds. */
  function CheckAlphaBetaTime(val: real): (r: AlphaBetaTimeR)
    ensures Partition(r.short, r.moderate, r.long)
  {
    var t := Trapezoid(val, 5.0, 7.0, 15.0, 20.0);
    AlphaBetaTimeR(t.0, t.1, t.2)
  }

  /** On a board of n > 0 cells the three plateaus of checkNoOfEmptyCell. */
  lemma EmptyCellPlateaus(val: real, n: int)
    requires n > 0
    ensures val <= 0.3 * (n as real) ==> CheckNoOfEmptyCell(val, n) == NoOfEmptyCellR(1.0, 0.0, 0.0)
    ensures 0.4 * (n as real) <= val <= 0.6 * (n as real) ==> CheckNoOfEmptyCell(val, n) == NoOfEmptyCellR(0.0, 1.0, 0.0)
    ensures 0.7 * (n as real) <= val ==> CheckNoOfEmptyCell(val, n) == NoOfEmptyCellR(0.0, 0.0, 1.0)
  {
  }

  /** The time plateaus: at most 5 s is SHORT, 7 to 15 s MODERATE, from 20 s on LONG. */
  lemma TimePlateaus(val: real)
    ensures val <= 5.0 ==> CheckAlphaBetaTime(val) == AlphaBetaTimeR(1.0, 0.0, 0.0)
    ensures 7.0 <= val <= 15.0 ==> CheckAlphaBetaTime(val) == AlphaBetaTimeR(0.0, 1.0, 0.0)
    ensures 20.0 <= val ==> CheckAlphaBetaTime(val) == AlphaBetaTimeR(0.0, 0.0, 1.0)
  {
  }

  /**
   * The rule base: alpha-beta when there are few or some empty cells and
   * the last move was short or moderate; genetic when there are many empty
   * cells, or few or some and the last move was long.
   */
  function Infer(cell: NoOfEmptyCellR, time: AlphaBetaTimeR): (r: AlgoTypeR)
    ensures 0.0 <= cell.low <= 1.0 && 0.0 <= cell.medium <= 1.0 && 0.0 <= cell.high <= 1.0
            && 0.0 <= time.short <= 1.0 && 0.0 <= time.moderate <= 1.0 && 0.0 <= time.long <= 1.0
            ==> 0.0 <= r.alphaBeta <= 1.0 && 0.0 <= r.genetic <= 1.0
    ensures r.alphaBeta <= Max(cell.low, cell.medium) && r.alphaBeta <= Max(time.short, time.moderate)
    ensures cell.high <= r.genetic
  {
    var ga1 := cell.high;
    var ga2 := Min(Max(cell.low, cell.medium), time.long);
    var ab := Min(Max(cell.low, cell.medium), Max(time.short, time.moderate));
    AlgoTypeR(ab, Max(ga1, ga2))
  }

  /** Whatever the inputs, at least one algorithm gets a positive strength. */
  lemma NeverBothZero(cell: NoOfEmptyCellR, time: AlphaBetaTimeR)
    requires Partition(cell.low, cell.medium, cell.high)
    requires Partition(time.short, time.moderate, time.long)
    ensures Infer(cell, time).alphaBeta > 0.0 || Infer(cell, time).genetic > 0.0
  {
    if cell.high == 0.0 {
      assert Max(cell.low, cell.medium) > 0.0;
      if Max(time.short, time.moderate) == 0.0 {
        assert time.long == 1.0;
      }
    }
  }

  /** The strength deFuzzyFy gives to point i of the 0..100 scale. */
  function Weight(ab: real, ga: real, i: int): real {
    if i <= 40 then ab else if i >= 60 then ga else Max(ab, ga)
  }

  /** Sum of i * Weight(i) over the points i < k. */
  function Numerator(ab: real, ga: real, k: nat): real {
    if k == 0 then 0.0 else Numerator(ab, ga, k - 1) + ((k - 1) as real) * Weight(ab, ga, k - 1)
  }

  /** Sum of Weight(i) over the points i < k. */
  function Denominator(ab: real, ga: real, k: nat): real {
    if k == 0 then 0.0 else Denominator(ab, ga, k - 1) + Weight(ab, ga, k - 1)
  }

  /** The centre of gravity over points 0..100; None where Java divides by zero. */
  function Centroid(ab: real, ga: real): Option<real> {
    if Denominator(ab, ga, 101) == 0.0 then None
    else Some(Numerator(ab, ga, 101) / Denominator(ab, ga, 101))
  }

  /** 0 + 1 + ... + (k - 1). */
  function Triangle(k: int): real {
    ((k * (k - 1)) as real) / 2.0
  }

  lemma TriangleStep(k: int)
    ensures Triangle(k + 1) == Triangle(k) + k as real
  {
    assert (k + 1) * k == k * (k - 1) + 2 * k;
  }

  /** Up to point 40 only the alpha-beta strength counts. */
  lemma {:induction false} SumsLeft(ab: real, ga: real, k: nat)
    requires k <= 41
    ensures Numerator(ab, ga, k) == ab * Triangle(k)
    ensures Denominator(ab, ga, k) == ab * (k as real)
  {
    if k > 0 {
      SumsLeft(ab, ga, k - 1);
      TriangleStep(k - 1);
    }
  }

  /** Points 41 to 59 count the larger strength. */
  lemma {:induction false} SumsMiddle(ab: real, ga: real, k: nat)
    requires 41 <= k <= 60
    ensures Numerator(ab, ga, k) == 820.0 * ab + Max(ab, ga) * (Triangle(k) - 820.0)
    ensures Denominator(ab, ga, k) == 41.0 * ab + Max(ab, ga) * ((k - 41) as real)
  {
    if k == 41 {
      SumsLeft(ab, ga, 41);
    } else {
      SumsMiddle(ab, ga, k - 1);
      TriangleStep(k - 1);
    }
  }

  /** From point 60 on only the genetic strength counts. */
  lemma {:induction false} SumsRight(ab: real, ga: real, k: nat)
    requires 60 <= k <= 101
    ensures Numerator(ab, ga, k) == 820.0 * ab + 950.0 * Max(ab, ga) + ga * (Triangle(k) - 1770.0)
    ensures Denominator(ab, ga, k) == 41.0 * ab + 19.0 * Max(ab, ga) + ga * ((k - 60) as real)
  {
    if k == 60 {
      SumsMiddle(ab, ga, 60);
    } else {
      SumsRight(ab, ga, k - 1);
      TriangleStep(k - 1);
    }
  }

  /** The two sums of deFuzzyFy in closed form. */
  lemma Sums(ab: real, ga: real)
    ensures Numerator(ab, ga, 101) == 820.0 * ab + 950.0 * Max(ab, ga) + 3280.0 * ga
    ensures Denominator(ab, ga, 101) == 41.0 * ab + 19.0 * Max(ab, ga) + 41.0 * ga
  {
    SumsRight(ab, ga, 101);
  }

  /**
   * With non-negative strengths, not both zero, the division is defined, the
   * result is a percentage, and it lies below 50 exactly when alpha-beta is
   * the stronger (which is the rule the selector's threshold is built for).
   */
  lemma CentroidMeaning(ab: real, ga: real)
    requires 0.0 <= ab && 0.0 <= ga && (ab > 0.0 || ga > 0.0)
    ensures Centroid(ab, ga).Some?
    ensures 0.0 <= Centroid(ab, ga).value <= 100.0
    ensures Centroid(ab, ga).value < 50.0 <==> ab > ga
    ensures Centroid(ab, ga).value == 50.0 <==> ab == ga
  {
    Sums(ab, ga);
    var num, den := Numerator(ab, ga, 101), Denominator(ab, ga, 101);
    assert den > 0.0;
    var p := num / den;
    assert p * den == num;
    assert num - 50.0 * den == 1230.0 * (ga - ab);
    assert 100.0 * den - num == 3280.0 * ab + 950.0 * Max(ab, ga) + 820.0 * ga;
    assert (p - 50.0) * den == 1230.0 * (ga - ab);
    assert (100.0 - p) * den == 100.0 * den - num;
    PositiveFactor(p - 50.0, den);
    PositiveFactor(100.0 - p, den);
    PositiveFactor(p, den);
  }

  /** Multiplying by a positive factor keeps the sign. */
  lemma PositiveFactor(x: real, d: real)
    requires d > 0.0
    ensures x < 0.0 <==> x * d < 0.0
    ensures x == 0.0 <==> x * d == 0.0
  {
    if x < 0.0 {
      assert (-x) * d > 0.0;
    } else if x > 0.0 {
      assert x * d > 0.0;
    }
  }

  /** deFuzzyFy: the accumulating loop over the points 0..100. */
  method DeFuzzyFy(ab: real, ga: real) returns (percent: Option<real>)
    ensures percent == Centroid(ab, ga)
  {
    var numerator := 0.0;
    var denominator := 0.0;
    for i := 0 to 101
      invariant numerator == Numerator(ab, ga, i)
      invariant denominator == Denominator(ab, ga, i)
    {
      var valToUse := if i <= 40 then ab else if i >= 60 then ga else Max(ab, ga);
      numerator := numerator + (i as real) * valToUse;
      denominator := denominator + valToUse;
    }
    if denominator == 0.0 {
      percent := None;
    } else {
      percent := Some(numerator / denominator);
    }
  }

  /** calcValue: the percentage is not consulted, alpha-beta is always chosen. */
  function CalcValue(percent: Option<real>): (algo: PredictionAlgo) {
    AlphaBetaPruning
  }

  lemma CalcValueIgnoresPercent(p: Option<real>, q: Option<real>)
    ensures CalcValue(p) == CalcValue(q) == AlphaBetaPruning
  {
  }

  /** The strengths predictAlgo feeds into deFuzzyFy. */
  function Strengths(nn: int, emptyCells: int, prevTimeTaken: int): AlgoTypeR {
    Infer(CheckNoOfEmptyCell(emptyCells as real, nn), CheckAlphaBetaTime(prevTimeTaken as real))
  }

  /** For every board size, count and time, the percentage predictAlgo computes is defined and in [0, 100]. */
  lemma PercentDefined(nn: int, emptyCells: int, prevTimeTaken: int)
    ensures var s := Strengths(nn, emptyCells, prevTimeTaken);
            Centroid(s.alphaBeta, s.genetic).Some? && 0.0 <= Centroid(s.alphaBeta, s.genetic).value <= 100.0
  {
    var cell := CheckNoOfEmptyCell(emptyCells as real, nn);
    var time := CheckAlphaBetaTime(prevTimeTaken as real);
    NeverBothZero(cell, time);
    var s := Infer(cell, time);
    CentroidMeaning(s.alphaBeta, s.genetic);
  }

  /** predictAlgo: fuzzify, infer, defuzzify and threshold. */
  method PredictAlgo(nn: int, emptyCells: int, prevTimeTaken: int) returns (algo: PredictionAlgo, ghost percent: Option<real>)
    ensures var s := Strengths(nn, emptyCells, prevTimeTaken); percent == Centroid(s.alphaBeta, s.genetic)
    ensures percent.Some? && 0.0 <= percent.value <= 100.0
    ensures algo == AlphaBetaPruning
  {
    var cell := CheckNoOfEmptyCell(emptyCells as real, nn);
    var time := CheckAlphaBetaTime(prevTimeTaken as real);
    var algoType := Infer(cell, time);
    var p := DeFuzzyFy(algoType.alphaBeta, algoType.genetic);
    PercentDefined(nn, emptyCells, prevTimeTaken);
    percent := p;
    algo := CalcValue(p);
  }
}
