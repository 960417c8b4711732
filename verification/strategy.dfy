/** Capacity strategies and the constants they select. */
module Strategies {

  /** Unsigned 64-bit integers (C# `ulong`). */
  type ulong = x: int | 0 <= x < 0x1_0000_0000_0000_0000
  const ULONG_COUNT: int := 0x1_0000_0000_0000_0000
  const ULONG_MAX: ulong := 0xFFFF_FFFF_FFFF_FFFF
  /** Largest C# `int`. */
  const INT_MAX: int := 0x7FFF_FFFF

  type pos = x: int | 0 < x witness 1

  /** The optimisation strategy fixed at construction. */
  datatype Strategy = MaxPerformance | MaxElements

  /** Largest length of a native array; chunk capacity under MaxElements. */
  const MAX_CAPACITY_ARRAY: pos := 2_146_435_071
  /** 2^30; chunk capacity under MaxPerformance. */
  const MAX_CAPACITY_ARRAY_PERFORMANCE: pos := 1_073_741_824
  /** Element limit under MaxElements. */
  const MAX_NUMBER_ELEMENTS: ulong := 4_607_183_514_018_780_000
  /** Element limit under MaxPerformance. */
  const MAX_NUMBER_ELEMENTS_PERFORMANCE: ulong := 1_152_921_504_606_850_000

  /** Chunk capacity and element limit of one array. The constructor derives
      them from the strategy; keeping them as data lets a scaled-down
      capacity be studied with the same definitions. */
  datatype Limits = Limits(cap: pos, maxElements: ulong)

  function LimitsOf(s: Strategy): (l: Limits)
    ensures ValidLimits(l)
    ensures l.cap <= INT_MAX
    ensures l.cap * l.cap < l.maxElements < l.cap * (l.cap + 1)
  {
    match s
    case MaxPerformance => Limits(MAX_CAPACITY_ARRAY_PERFORMANCE, MAX_NUMBER_ELEMENTS_PERFORMANCE)
    case MaxElements => Limits(MAX_CAPACITY_ARRAY, MAX_NUMBER_ELEMENTS)
  }

  /** Limits a native array can hold, and under which `length + extendBy`
      (both at most the element limit) cannot wrap around in 64 bits. */
  predicate ValidLimits(l: Limits) {
    l.cap <= INT_MAX && l.maxElements <= 0x8000_0000_0000_0000
  }

  /** C# `ulong` addition: wraps modulo 2^64. */
  function WrapAdd(x: ulong, y: ulong): (r: ulong)
    ensures x + y < ULONG_COUNT ==> r == x + y
    ensures x + y >= ULONG_COUNT ==> r == x + y - ULONG_COUNT
  {
    (x + y) % ULONG_COUNT
  }

  /** C# `ulong` subtraction: wraps modulo 2^64. */
  function WrapSub(x: int, y: int): (r: ulong)
    ensures 0 <= y <= x < ULONG_COUNT ==> r == x - y
  {
    (x - y) % ULONG_COUNT
  }
}
