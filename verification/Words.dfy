// Machine integers, the saturating and checked operators of the host language, and results.

module Words {

  const U32_MAX: int := 0xFFFF_FFFF
  const U64_MAX: int := 0xFFFF_FFFF_FFFF_FFFF

  type u8 = x: int | 0 <= x < 256
  type u32 = x: int | 0 <= x <= U32_MAX
  type u64 = x: int | 0 <= x <= U64_MAX

  datatype Option<+T> = None | Some(value: T)

  datatype Result<+T, +E> = Ok(value: T) | Err(error: E)

  function Min(a: int, b: int): (r: int)
    ensures r <= a && r <= b && (r == a || r == b)
  {
    if a <= b then a else b
  }

  function Max(a: int, b: int): (r: int)
    ensures a <= r && b <= r && (r == a || r == b)
  {
    if a <= b then b else a
  }

  // Subtraction that stops at zero.
  function SatSub(a: u64, b: u64): (r: u64)
    ensures r >= a - b && (r == a - b || r == 0)
  {
    if a <= b then 0 else a - b
  }

  function SatAdd32(a: u32, b: u32): (r: u32)
    ensures r <= a + b && (r == a + b || r == U32_MAX)
  {
    Min(a + b, U32_MAX)
  }

  function SatAdd64(a: u64, b: u64): (r: u64)
    ensures r <= a + b && (r == a + b || r == U64_MAX)
  {
    Min(a + b, U64_MAX)
  }

  function SatMul64(a: u64, b: u64): (r: u64) {
    Product(a, b);
    Min(a * b, U64_MAX)
  }

  lemma Product(a: nat, b: nat)
    ensures 0 <= a * b
  {
  }
}
