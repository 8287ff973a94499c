/** Small shared vocabulary: optional values and the C integer widths the sources rely on. */
module Common {

  datatype Option<+T> = None | Some(value: T)

  const TWO31: int := 0x8000_0000
  const TWO32: int := 0x1_0000_0000
  const TWO63: int := 0x8000_0000_0000_0000
  const TWO64: int := 0x1_0000_0000_0000_0000

  predicate Distinct<T(==)>(s: seq<T>) {
    forall i, j :: 0 <= i < j < |s| ==> s[i] != s[j]
  }

  function Sum(vals: seq<int>): int {
    if vals == [] then 0 else Sum(vals[..|vals| - 1]) + vals[|vals| - 1]
  }

  type uint32 = x: int | 0 <= x < TWO32
  type uint64 = x: int | 0 <= x < TWO64

  /** Conversion to a 32-bit unsigned integer, as C does on assignment and after unsigned arithmetic. */
  function Wrap(x: int): uint32 {
    x % TWO32
  }

  /** Addition and subtraction of 32-bit unsigned integers, without a division. */
  function Add32(a: uint32, b: uint32): uint32 {
    if a + b >= TWO32 then a + b - TWO32 else a + b
  }

  function Sub32(a: uint32, b: uint32): uint32 {
    if a >= b then a - b else a - b + TWO32
  }

  lemma Arithmetic32(a: uint32, b: uint32)
    ensures Add32(a, b) == Wrap(a + b) && Sub32(a, b) == Wrap(a - b)
  {
  }

  /** The cast `(int)x` of a 32-bit unsigned value on a two's complement machine. */
  function ToInt32(x: uint32): int {
    if x < TWO31 then x else x - TWO32
  }
}
