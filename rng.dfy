/** The host platform's pseudo-random number generator (System.Random), reduced to
    what the generators observe of it: a fixed stream of raw draws, consumed one
    per call, in call order. Each call turns its draw into a value of the range it
    asks for; a draw outside that range counts as its nearest end. A seed selects
    the stream; how it does so is not modelled. */
module Rng {

  /** Number of distinct values a probability roll can take. Every probability
      the generators test is a whole percentage, so a roll in [0, 100) compared
      with a percentage keeps each test's outcome and its probability. */
  const RollScale := 100

  /** The value `Next(lo, hi)` yields for the raw draw `d`: `lo` when the range is
      empty (as System.Random does for `lo == hi`), otherwise a value of [lo, hi). */
  function Pick(lo: int, hi: int, d: int): (r: int)
    requires lo <= hi
    ensures lo == hi ==> r == lo
    ensures lo < hi ==> lo <= r < hi
  {
    if lo == hi || d < lo then lo else if d >= hi then hi - 1 else d
  }

  /** Every value of the range is the outcome of some draw, so the model does not
      rule out any choice the platform generator can make. */
  lemma PickReachesAll(lo: int, hi: int, v: int)
    requires lo <= v < hi
    ensures Pick(lo, hi, v) == v
  {
  }

  /** The value `NextDouble()` stands for, scaled to [0, RollScale). */
  function Roll(d: int): (r: int)
    ensures 0 <= r < RollScale
  {
    Pick(0, RollScale, d)
  }

  class Random {
    const draws: nat -> int
    var cursor: nat

    constructor (draws: nat -> int)
      ensures this.draws == draws && cursor == 0
    {
      this.draws := draws;
      cursor := 0;
    }

    /** System.Random.Next(minValue, maxValue); throws when maxValue < minValue. */
    method Next(lo: int, hi: int) returns (r: int)
      requires lo <= hi
      modifies this`cursor
      ensures r == Pick(lo, hi, draws(old(cursor)))
      ensures cursor == old(cursor) + 1
    {
      r := Pick(lo, hi, draws(cursor));
      cursor := cursor + 1;
    }

    /** System.Random.NextDouble(), as a percentage roll. */
    method NextRoll() returns (r: int)
      modifies this`cursor
      ensures r == Roll(draws(old(cursor)))
      ensures cursor == old(cursor) + 1
    {
      r := Roll(draws(cursor));
      cursor := cursor + 1;
    }
  }
}
