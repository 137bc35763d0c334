/** Fixed-width integers, the optional-value wrapper and grid coordinates shared by
    the block grid, the entity registry and the generator. */
module Common {

  /** 2^32 and 2^64: unsigned C++ arithmetic on uint32_t / uint64_t is modulo these. */
  const U32: int := 0x1_0000_0000
  const U64: int := 0x1_0000_0000_0000_0000

  type u16 = x: int | 0 <= x < 0x1_0000
  type u32 = x: int | 0 <= x < 0x1_0000_0000
  type u64 = x: int | 0 <= x < 0x1_0000_0000_0000_0000
  type i32 = x: int | -0x8000_0000 <= x < 0x8000_0000

  /** The largest uint32_t, written as (uint32_t)-1 in the source. */
  const U32_MAX: u32 := U32 - 1

  datatype Option<T> = None | Some(value: T)

  /** A grid position, sf::Vector2<uint32_t>. */
  datatype Coord = Coord(x: u32, y: u32)

  function Min(a: int, b: int): int { if a <= b then a else b }
  function Max(a: int, b: int): int { if a >= b then a else b }

  /** Truncation toward zero, what static_cast from a floating value to an integer does. */
  function Trunc(v: real): (r: int)
    ensures v >= 0.0 ==> r as real <= v < r as real + 1.0
    ensures v < 0.0 ==> r as real - 1.0 < v <= r as real
  {
    if v >= 0.0 then v.Floor else -((-v).Floor)
  }

  /** The smallest integer not below v, what ceilf computes. */
  function Ceil(v: real): (r: int)
    ensures r as real - 1.0 < v <= r as real
  {
    -((-v).Floor)
  }
}
