/**
 * The metrics library's counter: a `u64` that is incremented or set.
 *
 * `Counter` is a value owned by its measurement; its in-place `increment` and
 * `absolute` are modelled as functions returning the updated counter. The
 * `+=` of `increment` wraps modulo 2^64 here, as a release build does.
 */
module Counters {
  import Net

  const U64_MODULUS: nat := 0x1_0000_0000_0000_0000
  const U32_MODULUS: nat := 0x1_0000_0000

  type U64 = n: nat | n < U64_MODULUS
  type U32 = n: nat | n < U32_MODULUS
  type I32 = n: int | -0x8000_0000 <= n < 0x8000_0000

  datatype Counter = Counter(value: U64) {

    /** `primitive`: the value as a number. */
    function Primitive(): (r: U64)
      ensures r == value
    {
      value
    }

    /** `increment(v)`: adds `v`, wrapping past 2^64 - 1. */
    function Increment(v: U64): (r: Counter)
      ensures value + v < U64_MODULUS ==> r.value == value + v
      ensures value + v >= U64_MODULUS ==> r.value == value + v - U64_MODULUS
    {
      Counter((value + v) % U64_MODULUS)
    }

    /** `absolute(v)`: the counter now holds `v`. */
    function Absolute(v: U64): (r: Counter)
      ensures r.value == v
    {
      Counter(v)
    }

    /** The Prometheus text of a counter: its decimal value. */
    function ToPrometheus(): string
    {
      Net.Decimal(value)
    }
  }

  /** `Counter::default()`. */
  function Zero(): (r: Counter)
    ensures r.value == 0
  {
    Counter(0)
  }

  /** `From<u32>`: widening to `u64`, then `From<u64>`; the value is kept. */
  function FromU32(v: U32): (r: Counter)
    ensures r.value == v
  {
    FromU64(v)
  }

  /** `From<u64>`. */
  function FromU64(v: U64): (r: Counter)
    ensures r.value == v
  {
    Counter(v)
  }

  /** `From<i32>` through `as u64`: a negative value is sign-extended, i.e. taken modulo 2^64. */
  function FromI32(v: I32): (r: Counter)
    ensures v >= 0 ==> r.value == v
    ensures v < 0 ==> r.value == U64_MODULUS + v
  {
    if v < 0 then Counter(U64_MODULUS + v) else Counter(v)
  }

  /** `From<Counter> for u64`. */
  function ToU64(c: Counter): (r: U64)
    ensures r == c.Primitive()
  {
    c.value
  }

  /** Converting a `u64` into a counter and back is the identity, and so is the converse. */
  lemma U64RoundTrip(v: U64, c: Counter)
    ensures ToU64(FromU64(v)) == v
    ensures FromU64(ToU64(c)) == c
  {
  }

  /** Two increments add up, modulo 2^64. */
  lemma IncrementTwice(c: Counter, a: U64, b: U64)
    ensures c.Increment(a).Increment(b) == c.Increment((a + b) % U64_MODULUS)
  {
    var m := U64_MODULUS;
    var s := if a + b < m then a + b else a + b - m;
    assert (a + b) % m == s;
    var y := c.Increment(a).value;
    assert y == if c.value + a < m then c.value + a else c.value + a - m;
    var lhs := c.Increment(a).Increment(b).value;
    assert lhs == if y + b < m then y + b else y + b - m;
    var rhs := c.Increment(s).value;
    assert rhs == if c.value + s < m then c.value + s else c.value + s - m;
  }

  /** An increment followed by `absolute` leaves only the absolute value. */
  lemma AbsoluteOverwrites(c: Counter, a: U64, v: U64)
    ensures c.Increment(a).Absolute(v) == Counter(v)
  {
  }

  /** `From<i32>` keeps distinct values distinct, and agrees with `From<u32>` on non-negative values. */
  lemma FromI32Injective(a: I32, b: I32)
    ensures a != b ==> FromI32(a) != FromI32(b)
    ensures a >= 0 ==> FromI32(a) == FromU32(a)
  {
  }
}
