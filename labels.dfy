/** The label counter of src/compile/labels.rs: a `u64` that `take` hands
    out and then increments. Incrementing `u64::MAX` panics in a debug build
    and wraps to 0 in a release build, after which labels repeat; `Take`
    requires the stored value to be below it, so neither happens here. */
module Labels {

  newtype U64 = x: int | 0 <= x < 0x1_0000_0000_0000_0000

  const U64Max: U64 := 0xFFFF_FFFF_FFFF_FFFF

  class Counter {
    var count: U64

    /** `Counter::new`. */
    constructor ()
      ensures count == 0
    {
      count := 0;
    }

    /** `Counter::take`: the value held before the call, which then grows by one. */
    method Take() returns (r: U64)
      requires count < U64Max
      modifies this
      ensures r == old(count)
      ensures count == old(count) + 1
    {
      r := count;
      count := count + 1;
    }
  }

  /** `n` labels taken in a row from the same counter are the next `n` values
      in order. */
  method TakeMany(c: Counter, n: nat) returns (labels: seq<U64>)
    requires c.count as int + n <= U64Max as int
    modifies c
    ensures |labels| == n
    ensures forall i :: 0 <= i < n ==> labels[i] as int == old(c.count) as int + i
    ensures c.count as int == old(c.count) as int + n
  {
    labels := [];
    for i := 0 to n
      invariant |labels| == i
      invariant c.count as int == old(c.count) as int + i
      invariant forall j :: 0 <= j < i ==> labels[j] as int == old(c.count) as int + j
    {
      var l := c.Take();
      labels := labels + [l];
    }
  }

  /** A fresh counter hands out `0, 1, ..., n - 1`: distinct labels in
      increasing order. */
  method FreshLabels(n: nat) returns (labels: seq<U64>)
    requires n <= U64Max as int
    ensures |labels| == n
    ensures forall i :: 0 <= i < n ==> labels[i] as int == i
    ensures forall i, j :: 0 <= i < j < n ==> labels[i] < labels[j]
  {
    var c := new Counter();
    labels := TakeMany(c, n);
  }
}
