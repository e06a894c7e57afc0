/** Fixed-width two's complement integers, as the generated code computes with them.
    A value carries its width; its bits are kept as the signed representative. */
module Words {

  datatype Option<+T> = None | Some(value: T)

  // W0 stands for `void`, WPtr for a code address (`i8*`).
  datatype Width = W0 | W1 | W8 | W16 | W32 | W64 | WPtr

  datatype Value = Value(width: Width, bits: int)

  function Size(w: Width): nat {
    match w
    case W0 => 0
    case W1 => 1
    case W8 => 8
    case W16 => 16
    case W32 => 32
    case W64 => 64
    case WPtr => 64
  }

  function Pow2(n: nat): (r: int)
    ensures r >= 1
  {
    if n == 0 then 1 else 2 * Pow2(n - 1)
  }

  /** Half of the number of values of width `w`: the values are -Half(w) .. Half(w)-1. */
  function Half(w: Width): int {
    match w
    case W0 => 0
    case W1 => 1
    case W8 => 0x80
    case W16 => 0x8000
    case W32 => 0x8000_0000
    case W64 => 0x8000_0000_0000_0000
    case WPtr => 0x8000_0000_0000_0000
  }

  predicate InRange(w: Width, n: int) {
    -Half(w) <= n < Half(w) || (w == W0 && n == 0)
  }

  /** The signed representative of `n` modulo 2^Size(w). */
  function Wrap(w: Width, n: int): (r: int)
    ensures InRange(w, r)
    ensures InRange(w, n) ==> r == n
  {
    if w == W0 then 0
    else
      var m := 2 * Half(w);
      var r := n % m;
      if r >= Half(w) then r - m else r
  }

  function Abs(n: int): int {
    if n < 0 then -n else n
  }

  /** Division truncating toward zero. */
  function TruncDiv(a: int, b: int): int
    requires b != 0
  {
    if (a < 0) == (b < 0) then Abs(a) / Abs(b) else -(Abs(a) / Abs(b))
  }

  datatype BitOp = And | Or | Xor

  function Bit(op: BitOp, a: int, b: int): int {
    match op
    case And => if a == 1 && b == 1 then 1 else 0
    case Or => if a == 1 || b == 1 then 1 else 0
    case Xor => if a != b then 1 else 0
  }

  /** Applies `op` to the lowest `n` bits of `a` and `b`. */
  function Bitwise(op: BitOp, n: nat, a: int, b: int): int {
    if n == 0 then 0
    else Bit(op, a % 2, b % 2) + 2 * Bitwise(op, n - 1, a / 2, b / 2)
  }

  function Truth(b: bool): Value {
    Value(W1, if b then -1 else 0)
  }
}
