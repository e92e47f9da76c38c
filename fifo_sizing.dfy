/** Static sizing of an object FIFO on one tile (findObjectFifoSize): the
    depth is one more than the largest number of elements a single acquire on
    that tile asks for, so that the next element can be prefetched. */
module FifoSizing {
  import opened Common

  /** The number of elements `e` acquires of `fifo`, or 0 if it is no acquire of it. */
  function AcquiredBy(e: Event, fifo: FifoId): int {
    if e.Acquire? && e.fifo == fifo then e.count else 0
  }

  /** The largest acquire count on `fifo` in a program; 0 when no acquire
      of it asks for a positive number of elements. */
  function MaxAcquireIn(prog: seq<Event>, fifo: FifoId): (m: nat)
    ensures forall i :: 0 <= i < |prog| ==> AcquiredBy(prog[i], fifo) <= m
    ensures m == 0 || exists i :: 0 <= i < |prog| && AcquiredBy(prog[i], fifo) == m
  {
    if prog == [] then 0
    else
      var m := MaxAcquireIn(prog[..|prog| - 1], fifo);
      var c := AcquiredBy(prog[|prog| - 1], fifo);
      if c > m then c else m
  }

  /** Event `i` of core `k` exists and that core runs on `tile`. */
  predicate OnTile(cores: seq<Core>, tile: Tile, k: int, i: int) {
    0 <= k < |cores| && cores[k].tile == tile && 0 <= i < |cores[k].program|
  }

  /** The largest acquire count on `fifo` over every core running on `tile`. */
  function MaxAcquireOnTile(cores: seq<Core>, tile: Tile, fifo: FifoId): (m: nat)
    ensures forall k, i :: OnTile(cores, tile, k, i) ==> AcquiredBy(cores[k].program[i], fifo) <= m
    ensures m == 0 || exists k, i :: OnTile(cores, tile, k, i) && AcquiredBy(cores[k].program[i], fifo) == m
  {
    if cores == [] then 0
    else
      var m := MaxAcquireOnTile(cores[..|cores| - 1], tile, fifo);
      var last := cores[|cores| - 1];
      var c := if last.tile == tile then MaxAcquireIn(last.program, fifo) else 0;
      if c > m then c else m
  }

  /** The depth of `fifo` materialised on `tile`, for a declared size
      `declared`: 0 when the declared size is 0 or the tile never acquires an
      element of it; 1 when the tile acquires at most one element at a time
      of a fifo declared with one; otherwise one more than the largest single
      acquire (room to prefetch the next element). */
  function ObjectFifoSize(cores: seq<Core>, tile: Tile, fifo: FifoId, declared: int): (size: nat)
    ensures size == 0 <==>
              declared == 0 || (forall k, i :: OnTile(cores, tile, k, i) ==> AcquiredBy(cores[k].program[i], fifo) <= 0)
    ensures size == 1 <==> declared == 1 && MaxAcquireOnTile(cores, tile, fifo) == 1
    ensures declared != 0 ==> forall k, i :: OnTile(cores, tile, k, i) && AcquiredBy(cores[k].program[i], fifo) > 0 ==>
              AcquiredBy(cores[k].program[i], fifo) < size || (size == 1 && AcquiredBy(cores[k].program[i], fifo) == 1)
    ensures size > 1 ==> exists k, i :: OnTile(cores, tile, k, i) && AcquiredBy(cores[k].program[i], fifo) == size - 1
  {
    var m := MaxAcquireOnTile(cores, tile, fifo);
    if declared == 0 then 0
    else if m > 0 then (if m == 1 && declared == 1 then 1 else m + 1)
    else 0
  }

  /** The scan of one core's program: the largest acquire count on `fifo`
      seen so far, starting from `before`. */
  method ScanProgram(prog: seq<Event>, fifo: FifoId, before: nat) returns (maxAcquire: int)
    ensures maxAcquire == Max(before, MaxAcquireIn(prog, fifo))
  {
    maxAcquire := before;
    assert prog[..0] == [];
    for e := 0 to |prog|
      invariant maxAcquire == Max(before, MaxAcquireIn(prog[..e], fifo))
    {
      assert prog[..e + 1][..e] == prog[..e];
      if prog[e].Acquire? && prog[e].fifo == fifo && prog[e].count > maxAcquire {
        maxAcquire := prog[e].count;
      }
    }
    assert prog[..|prog|] == prog;
  }

  /** The pass's scan: every core on `tile`, every acquire of `fifo` in it,
      keeping the largest count seen, then the depth formula. */
  method FindObjectFifoSize(cores: seq<Core>, tile: Tile, fifo: FifoId, declared: int) returns (size: int)
    ensures size == ObjectFifoSize(cores, tile, fifo, declared)
  {
    if declared == 0 {
      return 0;
    }
    var maxAcquire := 0;
    for c := 0 to |cores|
      invariant maxAcquire == MaxAcquireOnTile(cores[..c], tile, fifo)
    {
      assert cores[..c + 1][..c] == cores[..c];
      if cores[c].tile == tile {
        maxAcquire := ScanProgram(cores[c].program, fifo, maxAcquire);
      }
    }
    assert cores[..|cores|] == cores;
    if maxAcquire > 0 {
      if maxAcquire == 1 && declared == 1 {
        return 1;
      }
      return maxAcquire + 1;
    }
    return 0;
  }
}
