/**
 The pseudo-random source used by the generator (`java.util.Random`).

 The numbers it produces are not modelled: `draws` is a stream supplied by
 the caller, and `draws(k) % bound` stands for the result of the k-th
 `nextInt(bound)` call (every call in the source has bound 9); `pos` counts
 the calls made. Since the stream is arbitrary, this covers whatever
 `java.util.Random` would return, including its internal redraws. Nothing
 is claimed about the distribution.
 */
module Rand {

  class Random {
    const draws: nat -> nat
    var pos: nat

    constructor (draws: nat -> nat)
      ensures this.draws == draws && pos == 0
    {
      this.draws := draws;
      pos := 0;
    }

    /** The k-th raw value of the stream. */
    function Draw(k: nat): nat {
      draws(k)
    }

    /** `nextInt(bound)`: the next value of the stream, in 0..bound-1. */
    method NextInt(bound: int) returns (r: int)
      requires 0 < bound
      modifies this
      ensures 0 <= r < bound
      ensures r == Draw(old(pos)) % bound
      ensures pos == old(pos) + 1
    {
      r := Draw(pos) % bound;
      pos := pos + 1;
    }

    /** The cell (row, col) picked by the i-th pair of `nextInt(9)` calls starting at position k. */
    function Drawn(k: nat, i: nat): (int, int) {
      (Draw(k + 2 * i) % 9, Draw(k + 2 * i + 1) % 9)
    }

    /** Two `nextInt(9)` calls in a row: the cell picked by the next pair of draws. */
    method NextCell() returns (row: int, col: int)
      modifies this
      ensures (row, col) == Drawn(old(pos), 0)
      ensures pos == old(pos) + 2
    {
      row := NextInt(9);
      col := NextInt(9);
    }

    lemma DrawnShift(k: nat, i: nat)
      ensures Drawn(k, i) == Drawn(k + 2 * i, 0)
    {
    }

    ghost predicate DrawnLater(k: nat, r: int, c: int) {
      exists i: nat :: Drawn(k, i) == (r, c)
    }

    ghost predicate AllCellsLater(k: nat) {
      forall r, c :: 0 <= r < 9 && 0 <= c < 9 ==> DrawnLater(k, r, c)
    }

    /**
     From any position on, pairs of draws eventually pick every cell of the
     board. This is the condition under which the model proves the carving
     loop of the generator stops; the source's loop may also stop on other
     streams.
     */
    ghost predicate Fair() {
      forall k: nat :: AllCellsLater(k)
    }
  }
}
