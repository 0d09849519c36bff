/**
 * GeneticApplier.applyCrossover: partially mapped crossover (PMX) of two
 * chromosomes.  A chromosome is a list of distinct board cells, cell
 * equality being by coordinates (Cell.equals); the colour of position i is
 * RED in the first half and BLUE in the second.  Child one copies parent
 * two on a segment [indexOne, indexTwo) and parent one elsewhere, where a
 * cell that clashes with the segment is replaced by following the segment's
 * mapping until it no longer clashes; child two likewise the other way.
 */
module Crossover {
  import opened Boards
  import opened Cells
  import opened Seqs

  /** A List<Cell> of the genetic engine, as values. */
  type Chromosome = seq<CellVal>

  function Coords(ch: Chromosome): (cs: seq<Pos>)
    ensures |cs| == |ch|
    ensures forall i :: 0 <= i < |ch| ==> cs[i] == Coord(ch[i])
  {
    seq(|ch|, i requires 0 <= i < |ch| => Coord(ch[i]))
  }

  /** The colour of position i of a chromosome of the given size: RED in the first half, BLUE after. */
  function HalfColour(i: int, size: int): MyColor {
    if i < size / 2 then Red else Blue
  }

  ghost predicate Halved(ch: Chromosome) {
    forall i :: 0 <= i < |ch| ==> ch[i].myColor == HalfColour(i, |ch|)
  }

  /** The crossover segment [indexOne, indexTwo) drawn from two random values. */
  function Segment(size: int, drawOne: nat, drawTwo: nat): (r: (int, int))
    requires size >= 2
    ensures 0 <= r.0 < size / 2 <= r.1 < 2 * (size / 2) <= size
  {
    var half := size / 2;
    (drawOne % half, half + drawTwo % half)
  }

  /** Two mapping tables, each the inverse of the other. */
  ghost predicate Inverse(f: map<Pos, Pos>, g: map<Pos, Pos>) {
    && (forall c :: c in f ==> f[c] in g && g[f[c]] == c)
    && (forall c :: c in g ==> g[c] in f && f[g[c]] == c)
  }

  /** k steps along g, stopping early at a cell g does not map. */
  function Walk(g: map<Pos, Pos>, c: Pos, k: nat): Pos
    decreases k
  {
    if k == 0 || c !in g then c else Walk(g, g[c], k - 1)
  }

  function Image(f: map<Pos, Pos>, s: set<Pos>): set<Pos> {
    set e | e in s && e in f :: f[e]
  }

  /**
   * The cells met so far when following f from `start`: all mapped, none
   * met twice, and each one after the start the image of an earlier one.
   */
  ghost predicate Trail(f: map<Pos, Pos>, start: Pos, c: Pos, visited: set<Pos>) {
    && visited <= f.Keys
    && c !in visited
    && start in visited + {c}
    && (visited + {c}) - {start} <= Image(f, visited)
  }

  /** Following an injective map from a cell nothing maps to never returns to a cell already met. */
  lemma TrailStep(f: map<Pos, Pos>, g: map<Pos, Pos>, start: Pos, c: Pos, visited: set<Pos>)
    requires Inverse(f, g) && start !in g && c in f
    requires Trail(f, start, c, visited)
    ensures Trail(f, start, f[c], visited + {c})
  {
    var next := f[c];
    assert Image(f, visited + {c}) == Image(f, visited) + {next};
  }

  /** One step forward along f is undone by one step back along g. */
  lemma WalkBack(f: map<Pos, Pos>, g: map<Pos, Pos>, c: Pos, k: nat)
    requires Inverse(f, g) && c in f
    ensures Walk(g, f[c], k + 1) == Walk(g, c, k)
  {
  }

  /** Once a walk reaches a cell g does not map, more steps change nothing. */
  lemma {:induction false} WalkSettled(g: map<Pos, Pos>, c: Pos, k: nat, m: nat)
    requires Walk(g, c, k) !in g && k <= m
    ensures Walk(g, c, m) == Walk(g, c, k)
    decreases k
  {
    if k != 0 && c in g {
      WalkSettled(g, g[c], k - 1, m - 1);
    }
  }

  /** One more step of a walk that has not stopped applies the map once more. */
  lemma {:induction false} WalkForward(f: map<Pos, Pos>, c: Pos, k: nat)
    requires Walk(f, c, k) in f
    ensures Walk(f, c, k + 1) == f[Walk(f, c, k)]
    decreases k
  {
    if k != 0 && c in f {
      WalkForward(f, f[c], k - 1);
    }
  }

  /** `end` is where the mapping loop started at `start` stops: reached along f, and not mapped by f. */
  ghost predicate ChainEnd(f: map<Pos, Pos>, start: Pos, end: Pos) {
    end !in f && exists s: nat :: Walk(f, start, s) == end
  }

  /** The mapping loop stops at one cell only: a chain end is determined by its start. */
  lemma ChainEndUnique(f: map<Pos, Pos>, start: Pos, one: Pos, two: Pos)
    requires ChainEnd(f, start, one) && ChainEnd(f, start, two)
    ensures one == two
  {
    var s1: nat :| Walk(f, start, s1) == one;
    var s2: nat :| Walk(f, start, s2) == two;
    if s1 <= s2 {
      WalkSettled(f, start, s1, s2);
    } else {
      WalkSettled(f, start, s2, s1);
    }
  }

  /**
   * The mapping loop `while (map.containsKey(cell)) cell = map.get(cell)`.
   * It ends on a cell f does not map; walking back along the inverse g
   * gives the start again, which is what makes PMX children duplicate-free.
   */
  method FollowChain(f: map<Pos, Pos>, g: map<Pos, Pos>, start: Pos) returns (c: Pos, ghost steps: nat)
    requires Inverse(f, g) && start !in g
    ensures c !in f
    ensures c == start || c in g
    ensures start !in f ==> c == start
    ensures Walk(g, c, steps) == start && Walk(f, start, steps) == c
  {
    c := start;
    steps := 0;
    ghost var visited: set<Pos> := {};
    while c in f
      invariant Trail(f, start, c, visited)
      invariant c == start || c in g
      invariant Walk(g, c, steps) == start && Walk(f, start, steps) == c
      decreases f.Keys - visited
    {
      TrailStep(f, g, start, c, visited);
      WalkBack(f, g, c, steps);
      WalkForward(f, start, steps);
      visited := visited + {c};
      c := f[c];
      steps := steps + 1;
    }
  }

  function SegmentCells(cs: seq<Pos>, lo: int, hi: int): set<Pos>
    requires 0 <= lo <= hi <= |cs|
  {
    set k | lo <= k < hi :: cs[k]
  }

  /** m maps keys[k] to vals[k] for every k in [lo, hi), and has no other key. */
  ghost predicate Table(keys: seq<Pos>, vals: seq<Pos>, lo: int, hi: int, m: map<Pos, Pos>)
    requires 0 <= lo <= hi <= |keys| == |vals|
  {
    && m.Keys == SegmentCells(keys, lo, hi)
    && forall k :: lo <= k < hi ==> keys[k] in m && m[keys[k]] == vals[k]
  }

  /** mapOne and mapTwo after the segment loop has run over [lo, hi). */
  ghost predicate SegmentMaps(c1: seq<Pos>, c2: seq<Pos>, lo: int, hi: int, mapOne: map<Pos, Pos>, mapTwo: map<Pos, Pos>)
    requires 0 <= lo <= hi <= |c1| == |c2|
  {
    Table(c2, c1, lo, hi, mapOne) && Table(c1, c2, lo, hi, mapTwo)
  }

  /**
   * The table the segment loop builds: for i from lo up to hi, keys[i] is
   * put with value vals[i], a later put replacing an earlier one.
   */
  function SegmentTable(keys: seq<Pos>, vals: seq<Pos>, lo: int, hi: int): map<Pos, Pos>
    requires 0 <= lo <= hi <= |keys| == |vals|
    decreases hi - lo
  {
    if lo == hi then map[] else SegmentTable(keys, vals, lo, hi - 1)[keys[hi - 1] := vals[hi - 1]]
  }

  lemma PermKeepsDistinct(a: seq<Pos>, b: seq<Pos>)
    requires multiset(a) == multiset(b) && Distinct(a)
    ensures Distinct(b)
  {
    PermDistinct(a, b);
  }

  /** Over distinct keys, the table the segment loop builds maps each segment key to its value and has no other key. */
  lemma {:induction false} SegmentTableIsTable(keys: seq<Pos>, vals: seq<Pos>, lo: int, hi: int)
    requires 0 <= lo <= hi <= |keys| == |vals| && Distinct(keys)
    ensures Table(keys, vals, lo, hi, SegmentTable(keys, vals, lo, hi))
    decreases hi - lo
  {
    if lo < hi {
      SegmentTableIsTable(keys, vals, lo, hi - 1);
      TableStep(keys, vals, lo, hi - 1, SegmentTable(keys, vals, lo, hi - 1));
    }
  }

  /** A table over distinct keys gains the entry at position i. */
  lemma TableStep(keys: seq<Pos>, vals: seq<Pos>, lo: int, i: int, m: map<Pos, Pos>)
    requires 0 <= lo <= i < |keys| == |vals| && Distinct(keys)
    requires Table(keys, vals, lo, i, m)
    ensures Table(keys, vals, lo, i + 1, m[keys[i] := vals[i]])
  {
    SegmentCellsStep(keys, lo, i);
    var m' := m[keys[i] := vals[i]];
    forall k | lo <= k < i + 1 ensures keys[k] in m' && m'[keys[k]] == vals[k] {
      if k < i {
        assert keys[k] != keys[i];
      }
    }
  }

  /** The segment's cells are the cells of the slice. */
  lemma SliceCells(cs: seq<Pos>, lo: int, hi: int)
    requires 0 <= lo <= hi <= |cs|
    ensures forall c :: c in cs[lo..hi] <==> c in SegmentCells(cs, lo, hi)
  {
    forall c | c in cs[lo..hi] ensures c in SegmentCells(cs, lo, hi) {
      var j :| 0 <= j < hi - lo && cs[lo..hi][j] == c;
      assert cs[lo + j] == c;
    }
    forall c | c in SegmentCells(cs, lo, hi) ensures c in cs[lo..hi] {
      var k :| lo <= k < hi && cs[k] == c;
      assert cs[lo..hi][k - lo] == c;
    }
  }

  lemma SegmentCellsStep(cs: seq<Pos>, lo: int, i: int)
    requires 0 <= lo <= i < |cs|
    ensures SegmentCells(cs, lo, i + 1) == SegmentCells(cs, lo, i) + {cs[i]}
  {
  }

  lemma SegmentMapsInverse(c1: seq<Pos>, c2: seq<Pos>, lo: int, hi: int, mapOne: map<Pos, Pos>, mapTwo: map<Pos, Pos>)
    requires 0 <= lo <= hi <= |c1| == |c2|
    requires SegmentMaps(c1, c2, lo, hi, mapOne, mapTwo)
    ensures Inverse(mapOne, mapTwo)
  {
    forall c | c in mapOne ensures mapOne[c] in mapTwo && mapTwo[mapOne[c]] == c {
      var k :| lo <= k < hi && c2[k] == c;
    }
    forall c | c in mapTwo ensures mapTwo[c] in mapOne && mapOne[mapTwo[c]] == c {
      var k :| lo <= k < hi && c1[k] == c;
    }
  }

  /**
   * A PMX child on coordinates: parent `b` on the segment, elsewhere a cell
   * outside b's segment that walks back along g to parent `a`'s cell.  Such
   * a child is a permutation of `a`.
   */
  lemma {:induction false} ChildIsPermutation(a: seq<Pos>, b: seq<Pos>, lo: int, hi: int,
                                              f: map<Pos, Pos>, g: map<Pos, Pos>, child: seq<Pos>, steps: map<int, nat>)
    requires 0 <= lo <= hi <= |a| == |b| == |child|
    requires Distinct(a) && multiset(b) == multiset(a)
    requires f.Keys == SegmentCells(b, lo, hi) && g.Keys == SegmentCells(a, lo, hi) && Inverse(f, g)
    requires forall k :: lo <= k < hi ==> child[k] == b[k]
    requires forall k :: 0 <= k < |a| && (k < lo || k >= hi) ==>
      && child[k] !in f && (child[k] == a[k] || child[k] in g)
      && k in steps && Walk(g, child[k], steps[k]) == a[k]
    ensures Distinct(child) && multiset(child) == multiset(a)
  {
    PermDistinct(a, b);
    assert forall k :: 0 <= k < |a| && (k < lo || k >= hi) ==> a[k] !in g;
    forall p, q | 0 <= p < q < |child| ensures child[p] != child[q] {
      var pIn, qIn := lo <= p < hi, lo <= q < hi;
      if pIn && !qIn {
        assert child[p] in f;
      } else if !pIn && qIn {
        assert child[q] in f;
      } else if !pIn && !qIn && child[p] == child[q] {
        if steps[p] <= steps[q] {
          WalkSettled(g, child[p], steps[p], steps[q]);
        } else {
          WalkSettled(g, child[q], steps[q], steps[p]);
        }
      }
    }
    forall x | x in child ensures x in a {
      var k :| 0 <= k < |child| && child[k] == x;
      if lo <= k < hi {
        assert b[k] in b;
      } else if x != a[k] {
        assert x in g;
        var i :| lo <= i < hi && a[i] == x;
      }
    }
    SameElements(child, a);
  }

  /** The child's coordinates agree with b on [lo, hi). */
  ghost predicate CopiedOn(child: seq<CellVal>, b: seq<Pos>, lo: int, hi: int)
    requires 0 <= lo <= hi <= |child| == |b|
  {
    forall k :: lo <= k < hi ==> Coord(child[k]) == b[k]
  }

  lemma CopiedStep(child: seq<CellVal>, b: seq<Pos>, lo: int, i: int, cell: CellVal)
    requires 0 <= lo <= i < |child| == |b| && CopiedOn(child, b, lo, i) && Coord(cell) == b[i]
    ensures CopiedOn(child[i := cell], b, lo, i + 1)
  {
  }

  /**
   * The segment loop of applyCrossover: each child takes the other parent's
   * cells on [lo, hi), and the two mapping tables record the swap.
   */
  method FillSegment(childOne: array<CellVal>, childTwo: array<CellVal>, parentOne: Chromosome, parentTwo: Chromosome,
                     lo: int, hi: int)
    returns (mapOne: map<Pos, Pos>, mapTwo: map<Pos, Pos>)
    requires childOne != childTwo && Distinct(Coords(parentOne)) && Distinct(Coords(parentTwo))
    requires childOne.Length == childTwo.Length == |parentOne| == |parentTwo| && 0 <= lo <= hi <= |parentOne|
    modifies childOne, childTwo
    ensures SegmentMaps(Coords(parentOne), Coords(parentTwo), lo, hi, mapOne, mapTwo)
    ensures mapOne == SegmentTable(Coords(parentTwo), Coords(parentOne), lo, hi)
    ensures mapTwo == SegmentTable(Coords(parentOne), Coords(parentTwo), lo, hi)
    ensures CopiedOn(childOne[..], Coords(parentTwo), lo, hi)
    ensures CopiedOn(childTwo[..], Coords(parentOne), lo, hi)
  {
    var c1, c2 := Coords(parentOne), Coords(parentTwo);
    mapOne, mapTwo := map[], map[];
    for i := lo to hi
      invariant mapOne == SegmentTable(c2, c1, lo, i) && mapTwo == SegmentTable(c1, c2, lo, i)
      invariant CopiedOn(childOne[..], c2, lo, i)
      invariant CopiedOn(childTwo[..], c1, lo, i)
    {
      CopiedStep(childOne[..], c2, lo, i, parentTwo[i]);
      CopiedStep(childTwo[..], c1, lo, i, parentOne[i]);
      ghost var before := childOne[..];
      childOne[i] := parentTwo[i];
      assert childOne[..] == before[i := parentTwo[i]];
      before := childTwo[..];
      childTwo[i] := parentOne[i];
      assert childTwo[..] == before[i := parentOne[i]];
      mapTwo := mapTwo[c1[i] := c2[i]];
      mapOne := mapOne[c2[i] := c1[i]];
    }
    SegmentTableIsTable(c2, c1, lo, hi);
    SegmentTableIsTable(c1, c2, lo, hi);
  }

  /**
   * Position k of a child outside the segment: a cell f does not map that
   * is reached from parent a's cell along f, and walks back to it along g.
   */
  ghost predicate Settled(a: seq<Pos>, f: map<Pos, Pos>, g: map<Pos, Pos>, child: seq<CellVal>, steps: map<int, nat>, k: int)
    requires 0 <= k < |a| && k < |child|
  {
    var c := Coord(child[k]);
    && c !in f && (c == a[k] || c in g)
    && (a[k] !in f ==> c == a[k])
    && k in steps && Walk(g, c, steps[k]) == a[k] && Walk(f, a[k], steps[k]) == c
  }

  /**
   * A child array after the crossover loops have handled positions [0, i):
   * b's cells on the segment, settled cells outside it, and the half colours.
   */
  ghost predicate Filled(a: seq<Pos>, b: seq<Pos>, lo: int, hi: int, f: map<Pos, Pos>, g: map<Pos, Pos>,
                         child: seq<CellVal>, steps: map<int, nat>, i: int)
    requires |a| == |b| == |child| && 0 <= lo <= hi <= |a| && 0 <= i <= |a|
  {
    && CopiedOn(child, b, lo, hi)
    && (forall k :: 0 <= k < i ==> child[k].myColor == HalfColour(k, |child|))
    && (forall k :: 0 <= k < i && (k < lo || k >= hi) ==> Settled(a, f, g, child, steps, k))
  }

  /** The crossing-over of position i of one child: map the parent's cell outside the segment, then colour it. */
  method CrossPosition(child: array<CellVal>, parent: Chromosome, ghost b: seq<Pos>, lo: int, hi: int,
                       f: map<Pos, Pos>, g: map<Pos, Pos>, i: int, ghost steps: map<int, nat>)
    returns (ghost steps': map<int, nat>)
    requires child.Length == |parent| == |b| && 0 <= lo <= hi <= |b| && 0 <= i < |b|
    requires Distinct(Coords(parent)) && g.Keys == SegmentCells(Coords(parent), lo, hi) && Inverse(f, g)
    requires Filled(Coords(parent), b, lo, hi, f, g, child[..], steps, i)
    modifies child
    ensures Filled(Coords(parent), b, lo, hi, f, g, child[..], steps', i + 1)
  {
    ghost var a := Coords(parent);
    ghost var before := child[..];
    steps' := steps;
    if i < lo || i >= hi {
      assert a[i] !in g;
      var cell, s := FollowChain(f, g, Coord(parent[i]));
      child[i] := CellVal(cell.0, cell.1, parent[i].myColor);
      steps' := steps[i := s];
    }
    child[i] := child[i].(myColor := HalfColour(i, child.Length));
    ghost var after := child[..];
    assert Coord(after[i]) == Coord(before[i]) || (i < lo || i >= hi);
    forall k | 0 <= k < i && (k < lo || k >= hi)
      ensures Settled(a, f, g, after, steps', k)
    {
      assert Settled(a, f, g, before, steps, k);
      assert after[k] == before[k] && steps'[k] == steps[k];
    }
  }

  /**
   * The second loop of applyCrossover over every position: outside the
   * segment each child takes its parent's cell, mapped until it no longer
   * clashes, and every position takes its half colour.
   */
  method FillOutside(childOne: array<CellVal>, childTwo: array<CellVal>, parentOne: Chromosome, parentTwo: Chromosome,
                     lo: int, hi: int, mapOne: map<Pos, Pos>, mapTwo: map<Pos, Pos>)
    returns (ghost stepsOne: map<int, nat>, ghost stepsTwo: map<int, nat>)
    requires childOne != childTwo && Distinct(Coords(parentOne)) && Distinct(Coords(parentTwo))
    requires childOne.Length == childTwo.Length == |parentOne| == |parentTwo| && 0 <= lo <= hi <= |parentOne|
    requires SegmentMaps(Coords(parentOne), Coords(parentTwo), lo, hi, mapOne, mapTwo) && Inverse(mapOne, mapTwo)
    requires CopiedOn(childOne[..], Coords(parentTwo), lo, hi) && CopiedOn(childTwo[..], Coords(parentOne), lo, hi)
    modifies childOne, childTwo
    ensures Filled(Coords(parentOne), Coords(parentTwo), lo, hi, mapOne, mapTwo, childOne[..], stepsOne, |parentOne|)
    ensures Filled(Coords(parentTwo), Coords(parentOne), lo, hi, mapTwo, mapOne, childTwo[..], stepsTwo, |parentOne|)
  {
    ghost var c1, c2 := Coords(parentOne), Coords(parentTwo);
    stepsOne, stepsTwo := map[], map[];
    for i := 0 to childOne.Length
      invariant Filled(c1, c2, lo, hi, mapOne, mapTwo, childOne[..], stepsOne, i)
      invariant Filled(c2, c1, lo, hi, mapTwo, mapOne, childTwo[..], stepsTwo, i)
    {
      stepsOne := CrossPosition(childOne, parentOne, c2, lo, hi, mapOne, mapTwo, i, stepsOne);
      stepsTwo := CrossPosition(childTwo, parentTwo, c1, lo, hi, mapTwo, mapOne, i, stepsTwo);
    }
  }

  /**
   * What a PMX child promises with respect to its parents' coordinates a and
   * b and the segment [lo, hi): it is a permutation of a, coloured by index
   * half, equal to b on the segment, and outside the segment the end of
   * the chain that starts at a's cell and follows the table from b's
   * segment cells to a's (CrossedOutside spells out what that means).
   */
  ghost predicate CrossedChild(child: Chromosome, a: seq<Pos>, b: seq<Pos>, lo: int, hi: int)
    requires 0 <= lo <= hi <= |a| == |b|
  {
    && |child| == |a|
    && Halved(child)
    && multiset(Coords(child)) == multiset(a)
    && CopiedOn(child, b, lo, hi)
    && (forall k :: 0 <= k < |a| && (k < lo || k >= hi) ==> ChainEnd(SegmentTable(b, a, lo, hi), a[k], Coord(child[k])))
  }

  /** The table the segment loop builds has b's segment cells as its keys. */
  lemma {:induction false} SegmentTableKeys(keys: seq<Pos>, vals: seq<Pos>, lo: int, hi: int)
    requires 0 <= lo <= hi <= |keys| == |vals|
    ensures SegmentTable(keys, vals, lo, hi).Keys == SegmentCells(keys, lo, hi)
    decreases hi - lo
  {
    if lo < hi {
      SegmentTableKeys(keys, vals, lo, hi - 1);
      SegmentCellsStep(keys, lo, hi - 1);
    }
  }

  /**
   * Outside the segment a crossed child never holds one of b's segment
   * cells, and it keeps a's cell wherever that cell does not clash with
   * b's segment.
   */
  lemma CrossedOutside(child: Chromosome, a: seq<Pos>, b: seq<Pos>, lo: int, hi: int, k: int)
    requires 0 <= lo <= hi <= |a| == |b| && CrossedChild(child, a, b, lo, hi)
    requires 0 <= k < |a| && (k < lo || k >= hi)
    ensures Coord(child[k]) !in b[lo..hi]
    ensures a[k] !in b[lo..hi] ==> Coord(child[k]) == a[k]
  {
    var f := SegmentTable(b, a, lo, hi);
    SegmentTableKeys(b, a, lo, hi);
    SliceCells(b, lo, hi);
    assert ChainEnd(f, a[k], Coord(child[k]));
    if a[k] !in b[lo..hi] {
      var s: nat :| Walk(f, a[k], s) == Coord(child[k]);
      WalkSettled(f, a[k], 0, s);
    }
  }

  /** The crossover's promise leaves no freedom: two children that keep it are the same child. */
  lemma CrossedChildUnique(one: Chromosome, two: Chromosome, a: seq<Pos>, b: seq<Pos>, lo: int, hi: int)
    requires 0 <= lo <= hi <= |a| == |b|
    requires CrossedChild(one, a, b, lo, hi) && CrossedChild(two, a, b, lo, hi)
    ensures one == two
  {
    forall k | 0 <= k < |one| ensures one[k] == two[k] {
      if k < lo || k >= hi {
        ChainEndUnique(SegmentTable(b, a, lo, hi), a[k], Coord(one[k]), Coord(two[k]));
      }
    }
  }

  /**
   * An instance: parents A B C D and C D A B crossed on [1, 3), with A, B,
   * C, D the cells (0, 0), (0, 1), (1, 0), (1, 1).  The table maps D to B
   * and A to C, so child one's clashing first and last cells are C (from
   * A) and B (from D): the child is C D A B.
   */
  lemma CrossedChildExample(child: Chromosome)
    requires CrossedChild(child, [(0, 0), (0, 1), (1, 0), (1, 1)], [(1, 0), (1, 1), (0, 0), (0, 1)], 1, 3)
    ensures Coords(child) == [(1, 0), (1, 1), (0, 0), (0, 1)]
  {
    var java := [CellVal(1, 0, Red), CellVal(1, 1, Red), CellVal(0, 0, Blue), CellVal(0, 1, Blue)];
    ExampleChildCrossed();
    CrossedChildUnique(child, java, [(0, 0), (0, 1), (1, 0), (1, 1)], [(1, 0), (1, 1), (0, 0), (0, 1)], 1, 3);
    assert Coords(java) == [(1, 0), (1, 1), (0, 0), (0, 1)];
  }

  /** The child applyCrossover builds in the instance above keeps the crossover's promise. */
  lemma ExampleChildCrossed()
    ensures CrossedChild([CellVal(1, 0, Red), CellVal(1, 1, Red), CellVal(0, 0, Blue), CellVal(0, 1, Blue)],
                         [(0, 0), (0, 1), (1, 0), (1, 1)], [(1, 0), (1, 1), (0, 0), (0, 1)], 1, 3)
  {
    var a, b := [(0, 0), (0, 1), (1, 0), (1, 1)], [(1, 0), (1, 1), (0, 0), (0, 1)];
    var java := [CellVal(1, 0, Red), CellVal(1, 1, Red), CellVal(0, 0, Blue), CellVal(0, 1, Blue)];
    var table := SegmentTable(b, a, 1, 3);
    ExampleTable();
    assert Coords(java) == [(1, 0), (1, 1), (0, 0), (0, 1)];
    assert multiset(Coords(java)) == multiset(a);
    assert Walk(table, a[0], 1) == Coord(java[0]);
    assert Walk(table, a[3], 1) == Coord(java[3]);
  }

  /** The segment loop of the instance above puts D with B and A with C. */
  lemma ExampleTable()
    ensures SegmentTable([(1, 0), (1, 1), (0, 0), (0, 1)], [(0, 0), (0, 1), (1, 0), (1, 1)], 1, 3)
         == map[(1, 1) := (0, 1), (0, 0) := (1, 0)]
  {
    var b, a := [(1, 0), (1, 1), (0, 0), (0, 1)], [(0, 0), (0, 1), (1, 0), (1, 1)];
    assert SegmentTable(b, a, 1, 2) == map[(1, 1) := (0, 1)];
  }

  /** The segment facts and half colours of a filled child give the crossover's promises. */
  lemma FilledChild(a: seq<Pos>, b: seq<Pos>, lo: int, hi: int, f: map<Pos, Pos>, g: map<Pos, Pos>,
                    child: seq<CellVal>, steps: map<int, nat>)
    requires |a| == |b| == |child| && 0 <= lo <= hi <= |a|
    requires Distinct(a) && multiset(b) == multiset(a)
    requires f.Keys == SegmentCells(b, lo, hi) && g.Keys == SegmentCells(a, lo, hi) && Inverse(f, g)
    requires f == SegmentTable(b, a, lo, hi)
    requires Filled(a, b, lo, hi, f, g, child, steps, |a|)
    ensures CrossedChild(child, a, b, lo, hi)
  {
    var cs := Coords(child);
    forall k | 0 <= k < |a| && (k < lo || k >= hi)
      ensures && cs[k] !in f && (cs[k] == a[k] || cs[k] in g)
              && k in steps && Walk(g, cs[k], steps[k]) == a[k]
    {
      assert Settled(a, f, g, child, steps, k);
    }
    ChildIsPermutation(a, b, lo, hi, f, g, cs, steps);
    forall k | 0 <= k < |a| && (k < lo || k >= hi)
      ensures ChainEnd(f, a[k], Coord(child[k]))
    {
      assert Settled(a, f, g, child, steps, k);
    }
  }

  /** The two loops of applyCrossover over the arrays childOne and childTwo, for the segment [indexOne, indexTwo). */
  method Cross(parentOne: Chromosome, parentTwo: Chromosome, indexOne: int, indexTwo: int)
    returns (child1: Chromosome, child2: Chromosome)
    requires |parentTwo| == |parentOne| && 0 <= indexOne <= indexTwo <= |parentOne|
    requires Distinct(Coords(parentOne)) && multiset(Coords(parentTwo)) == multiset(Coords(parentOne))
    ensures CrossedChild(child1, Coords(parentOne), Coords(parentTwo), indexOne, indexTwo)
    ensures CrossedChild(child2, Coords(parentTwo), Coords(parentOne), indexOne, indexTwo)
  {
    ghost var c1, c2 := Coords(parentOne), Coords(parentTwo);
    PermKeepsDistinct(c1, c2);
    var size := |parentOne|;
    // The arrays start as Java's nulls; every entry is written below.
    var childOne := new CellVal[size](_ => CellVal(0, 0, Blank));
    var childTwo := new CellVal[size](_ => CellVal(0, 0, Blank));
    var mapOne, mapTwo := FillSegment(childOne, childTwo, parentOne, parentTwo, indexOne, indexTwo);
    SegmentMapsInverse(c1, c2, indexOne, indexTwo, mapOne, mapTwo);
    ghost var stepsOne, stepsTwo := FillOutside(childOne, childTwo, parentOne, parentTwo, indexOne, indexTwo, mapOne, mapTwo);
    child1, child2 := childOne[..], childTwo[..];
    FilledChild(c1, c2, indexOne, indexTwo, mapOne, mapTwo, child1, stepsOne);
    FilledChild(c2, c1, indexOne, indexTwo, mapTwo, mapOne, child2, stepsTwo);
  }

  /**
   * applyCrossover with the two draws of its random generator: two
   * children of the parents' length, each a permutation of the parents'
   * cells, coloured by index half; child one has parent two's cells on the
   * segment and child two parent one's, and outside the segment a parent's
   * cell is kept whenever it does not clash with the other parent's segment;
   * a clashing cell is replaced by the end of its chain through the segment
   * table, so each child is the one child the crossover allows.
   */
  method ApplyCrossover(parentOne: Chromosome, parentTwo: Chromosome, drawOne: nat, drawTwo: nat)
    returns (offspring: seq<Chromosome>)
    requires |parentOne| >= 2 && |parentTwo| == |parentOne|
    requires Distinct(Coords(parentOne)) && multiset(Coords(parentTwo)) == multiset(Coords(parentOne))
    ensures |offspring| == 2
    ensures var seg := Segment(|parentOne|, drawOne, drawTwo);
      && CrossedChild(offspring[0], Coords(parentOne), Coords(parentTwo), seg.0, seg.1)
      && CrossedChild(offspring[1], Coords(parentTwo), Coords(parentOne), seg.0, seg.1)
  {
    var (indexOne, indexTwo) := Segment(|parentOne|, drawOne, drawTwo);
    var child1, child2 := Cross(parentOne, parentTwo, indexOne, indexTwo);
    offspring := [child1, child2];
  }
}
