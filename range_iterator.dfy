/**
 * The cursor handed out by a Range each time it is iterated
 * (packages/range/src/internals/_range-iterator.js).
 */
module RangeIterators {

  /**
   * A snapshot of a Range's (start, stop, step, length) plus a counter.
   * Only `index` ever changes; `stop` is stored but never read by Next.
   */
  class RangeIterator {
    var start: int
    var stop: int
    var step: int
    var length: int
    var index: int

    /** True once Next has reported `done` (or would report it on the next call). */
    predicate Exhausted()
      reads this
    {
      index >= length
    }

    constructor (start: int, stop: int, step: int, length: int)
      ensures this.start == start && this.stop == stop && this.step == step
      ensures this.length == length && index == 0
    {
      this.start := start;
      this.stop := stop;
      this.step := step;
      this.length := length;
      index := 0;
    }

    /** The iterator is its own iterable: iterating it again continues the same cursor. */
    method Iterator() returns (it: RangeIterator)
      ensures it == this
    {
      it := this;
    }

    /**
     * One step of the iteration protocol: the value at the current index,
     * whether the index has reached the length, and the index moves on by one
     * even after exhaustion.
     */
    method Next() returns (value: int, done: bool)
      modifies this`index
      ensures value == start + old(index) * step
      ensures done <==> old(index) >= length
      ensures index == old(index) + 1
      ensures old(Exhausted()) ==> done && Exhausted()
    {
      value := start + index * step;
      done := index >= length;
      index := index + 1;
    }
  }
}
