/** What the integer types and the operators on them mean, in numbers: nothing here refers to the
    widths and the wrapping that semantics and generated code are defined with, except to say
    what they amount to. */
module Arithmetic {
  import opened Words
  import opened Ir
  import opened ExpressionLowering
  import opened Lowering
  import L = Llvm
  import S = Semantics

  /** The number of values of a type. */
  function Modulus(b: BuiltinType): Option<int> {
    match b
    case Boolean => Some(2)
    case Byte => Some(256)
    case Word => Some(65536)
    case Integer => Some(4294967296)
    case Dword => Some(4294967296)
    case DoubleInteger => Some(18446744073709551616)
    case _ => None
  }

  /** The number of its bits. */
  function BitCount(b: BuiltinType): nat {
    match b
    case Boolean => 1
    case Byte => 8
    case Word => 16
    case Integer => 32
    case Dword => 32
    case DoubleInteger => 64
    case _ => 0
  }

  /** `n` is in the signed range of the type. */
  predicate IsValueOf(b: BuiltinType, n: int) {
    Modulus(b).Some? && var m := Modulus(b).value; -m <= 2 * n < m
  }

  predicate Congruent(b: BuiltinType, x: int, y: int) {
    Modulus(b).Some? && (x - y) % Modulus(b).value == 0
  }

  /** `r` is the value of the type that `n` is reduced to. */
  predicate Reduced(b: BuiltinType, r: int, n: int) {
    IsValueOf(b, r) && Congruent(b, r, n)
  }

  lemma RemainderOf(n: int, m: int)
    requires m > 0
    ensures (n % m - n) % m == 0 && (n % m - m - n) % m == 0
  {
    var q := n / m;
    assert n % m - n == -q * m;
    MultipleOf(-q, m);
    assert n % m - m - n == (-q - 1) * m;
    MultipleOf(-q - 1, m);
  }

  lemma MultipleOf(k: int, m: int)
    requires m > 0
    ensures (k * m) % m == 0
  {
    var q, r := (k * m) / m, (k * m) % m;
    assert (k - q) * m == r;
    MultipleIsFar(k - q, m);
  }

  lemma MultipleIsFar(k: int, m: int)
    requires m > 0
    ensures (k >= 1 ==> k * m >= m) && (k <= -1 ==> k * m <= -m)
  {
  }

  /** The types that have a width are those with a number of values, and both agree. */
  lemma WidthMeaning(b: BuiltinType)
    ensures WidthOf(Builtin(b)).Some? <==> Modulus(b).Some?
    ensures HasValues(Builtin(b)) <==> Modulus(b).Some?
    ensures Modulus(b).Some? ==> var w := WidthOf(Builtin(b)).value;
      w != W0 && 2 * Half(w) == Modulus(b).value && Size(w) == BitCount(b)
    ensures forall n :: Modulus(b).Some? ==> (InRange(WidthOf(Builtin(b)).value, n) <==> IsValueOf(b, n))
  {
  }

  lemma WrapMeaning(b: BuiltinType, n: int)
    requires Modulus(b).Some?
    ensures WidthOf(Builtin(b)).Some? && Reduced(b, Wrap(WidthOf(Builtin(b)).value, n), n)
  {
    WidthMeaning(b);
    RemainderOf(n, Modulus(b).value);
  }

  // Values stay in the range of their type.

  ghost predicate MemoryInRange(memory: L.Memory) {
    forall v <- memory :: v.typ.Builtin? && Modulus(v.typ.builtin).Some? ==> IsValueOf(v.typ.builtin, memory[v])
  }

  lemma {:induction false} EvaluatesInRange(world: L.World, e: Expression, memory: L.Memory, trace: L.Trace)
    requires Formed(e) && MemoryInRange(memory) && S.Evaluate(world, e, memory, trace).Evaluated?
    ensures var v := S.Evaluate(world, e, memory, trace).value; InRange(v.width, v.bits)
    decreases e
  {
    match e
    case Cast(inner, _) => EvaluatesInRange(world, inner, memory, trace);
    case VarRef(v) => WidthMeaning(v.typ.builtin);
    case Binary(op, left, right) =>
      var l := S.Evaluate(world, left, memory, trace);
      AppliesInRange(op, l.value, S.Evaluate(world, right, memory, l.trace).value);
    case _ =>
  }

  lemma AppliesInRange(op: BinaryOp, x: Value, y: Value)
    requires S.Apply(op, x, y).Some?
    ensures var v := S.Apply(op, x, y).value; InRange(v.width, v.bits)
  {
    hide Wrap, TruncDiv, Pow2, Bitwise;
  }

  /** The value of an expression of an integer type is in the range of the type. */
  lemma ValueInRange(world: L.World, e: Expression, memory: L.Memory, trace: L.Trace, b: BuiltinType)
    requires Formed(e) && MemoryInRange(memory) && S.Evaluate(world, e, memory, trace).Evaluated?
    requires GetType(e) == Some(Builtin(b))
    ensures IsValueOf(b, S.Evaluate(world, e, memory, trace).value.bits)
  {
    EvaluatesInRange(world, e, memory, trace);
    ValueHasStaticWidth(world, e, memory, trace);
    WidthMeaning(b);
  }

  // Literals and casts.

  lemma LiteralMeaning(world: L.World, b: BuiltinType, n: int, memory: L.Memory, trace: L.Trace)
    requires Modulus(b).Some?
    ensures var r := S.Evaluate(world, Literal(b, n), memory, trace);
      r.Evaluated? && Reduced(b, r.value.bits, n)
  {
    WrapMeaning(b, n);
  }

  /** A cast reduces the value to the range of the type. */
  lemma CastMeaning(world: L.World, e: Expression, b: BuiltinType, memory: L.Memory, trace: L.Trace)
    requires Formed(Cast(e, Builtin(b))) && MemoryInRange(memory)
    requires S.Evaluate(world, Cast(e, Builtin(b)), memory, trace).Evaluated?
    ensures S.Evaluate(world, e, memory, trace).Evaluated?
    ensures Reduced(b, S.Evaluate(world, Cast(e, Builtin(b)), memory, trace).value.bits, S.Evaluate(world, e, memory, trace).value.bits)
  {
    WidthMeaning(b);
    WrapMeaning(b, S.Evaluate(world, e, memory, trace).value.bits);
    EvaluatesInRange(world, e, memory, trace);
  }

  /** So does the code emitted for it. */
  lemma CastMeaningInCode(f: L.Cfg, world: L.World, m: L.Machine, n: nat, e: Expression, b: BuiltinType)
    requires Lowerable(Cast(e, Builtin(b))) && MemoryInRange(m.memory)
    requires CodeAt(f, m, CompileExpression(n, Cast(e, Builtin(b))).code)
    requires S.Evaluate(world, e, m.memory, m.trace).Evaluated?
    ensures var c := CompileExpression(n, Cast(e, Builtin(b)));
      var out := L.Run(f, world, m, |c.code|);
      && out.Running? && L.Read(out.state.regs, c.result).Some?
      && Reduced(b, L.Read(out.state.regs, c.result).value.bits, S.Evaluate(world, e, m.memory, m.trace).value.bits)
  {
    hide CodeAt, L.Run;
    WidthMeaning(b);
    LowerableRuns(f, world, m, n, Cast(e, Builtin(b)));
    CastMeaning(world, e, b, m.memory, m.trace);
  }

  /** 300 as a byte is 44. */
  lemma ByteOf300(f: L.Cfg, world: L.World, m: L.Machine)
    requires MemoryInRange(m.memory) && CodeAt(f, m, CompileExpression(0, Cast(Literal(Integer, 300), Builtin(Byte))).code)
    ensures var c := CompileExpression(0, Cast(Literal(Integer, 300), Builtin(Byte)));
      var out := L.Run(f, world, m, |c.code|);
      out.Running? && L.Read(out.state.regs, c.result).Some? && L.Read(out.state.regs, c.result).value.bits == 44
  {
    hide CodeAt, L.Run, CompileExpression;
    LiteralMeaning(world, Integer, 300, m.memory, m.trace);
    CastMeaningInCode(f, world, m, 0, Literal(Integer, 300), Byte);
  }

  // Operators. Operands are in the range of their type.

  predicate Operands(b: BuiltinType, x: Value, y: Value) {
    Modulus(b).Some? && WidthOf(Builtin(b)) == Some(x.width) && x.width == y.width && IsValueOf(b, x.bits) && IsValueOf(b, y.bits)
  }

  lemma SumMeaning(b: BuiltinType, x: Value, y: Value)
    requires Operands(b, x, y)
    ensures S.Apply(Add, x, y).Some? && Reduced(b, S.Apply(Add, x, y).value.bits, x.bits + y.bits)
    ensures S.Apply(Sub, x, y).Some? && Reduced(b, S.Apply(Sub, x, y).value.bits, x.bits - y.bits)
    ensures S.Apply(Mul, x, y).Some? && Reduced(b, S.Apply(Mul, x, y).value.bits, x.bits * y.bits)
  {
    hide S.Apply, Wrap, Reduced;
    SumsAreWrapped(x, y);
    WrapMeaning(b, x.bits + y.bits);
    WrapMeaning(b, x.bits - y.bits);
    WrapMeaning(b, x.bits * y.bits);
  }

  lemma SumsAreWrapped(x: Value, y: Value)
    requires x.width == y.width
    ensures S.Apply(Add, x, y) == Some(Value(x.width, Wrap(x.width, x.bits + y.bits)))
    ensures S.Apply(Sub, x, y) == Some(Value(x.width, Wrap(x.width, x.bits - y.bits)))
    ensures S.Apply(Mul, x, y) == Some(Value(x.width, Wrap(x.width, x.bits * y.bits)))
  {
    hide Wrap;
  }

  lemma NegateMeaning(world: L.World, e: Expression, b: BuiltinType, memory: L.Memory, trace: L.Trace)
    requires Formed(Unary(Negate, e)) && GetType(e) == Some(Builtin(b)) && S.Evaluate(world, e, memory, trace).Evaluated?
    ensures var r := S.Evaluate(world, Unary(Negate, e), memory, trace);
      r.Evaluated? && Reduced(b, r.value.bits, -S.Evaluate(world, e, memory, trace).value.bits)
  {
    hide Wrap, Reduced;
    var v := S.Evaluate(world, e, memory, trace).value;
    ValueHasStaticWidth(world, e, memory, trace);
    WrapMeaning(b, -v.bits);
  }

  lemma AtLeast(q: int, p: int, n: int)
    requires q >= 0 && p >= n
    ensures q * p >= q * n
  {
    assert q * p == q * n + q * (p - n);
    if q > 0 && p > n {
      MultipleIsFar(p - n, q);
    }
  }

  lemma DivisionIsEuclidean(a: int, b: int)
    requires a >= 0 && b > 0
    ensures a == (a / b) * b + a % b && 0 <= a % b < b && 0 <= a / b <= a
  {
    AtLeast(a / b, b, 1);
  }

  lemma SignsOut(d: int, q: int)
    ensures (-d) * q == -(d * q) && d * (-q) == -(d * q) && (-d) * (-q) == d * q
  {
  }

  /** Division rounds toward zero: what is missing has the sign of the dividend. */
  lemma TruncDivMeaning(x: int, y: int)
    requires y != 0
    ensures var r := x - TruncDiv(x, y) * y;
      -Abs(y) < r < Abs(y) && (r > 0 ==> x > 0) && (r < 0 ==> x < 0)
    ensures -Abs(x) <= TruncDiv(x, y) <= Abs(x)
  {
    var p, q := Abs(x), Abs(y);
    var d, rest := p / q, p % q;
    DivisionIsEuclidean(p, q);
    SignsOut(d, q);
    assert TruncDiv(x, y) == d || TruncDiv(x, y) == -d;
    assert TruncDiv(x, y) * y == if x < 0 then -(d * q) else d * q by {
      if x < 0 {
        assert TruncDiv(x, y) == if y < 0 then d else -d;
      } else {
        assert TruncDiv(x, y) == if x == 0 && y < 0 then -d else if y < 0 then -d else d;
      }
    }
    assert x - TruncDiv(x, y) * y == if x < 0 then -rest else rest;
  }

  /** The quotient fits unless the least value is divided by -1. */
  lemma QuotientFits(b: BuiltinType, x: int, y: int)
    requires IsValueOf(b, x) && IsValueOf(b, y) && y != 0
    ensures IsValueOf(b, TruncDiv(x, y)) <==> !(2 * x == -Modulus(b).value && y == -1)
  {
    TruncDivMeaning(x, y);
    if y == -1 {
      assert Abs(x) / 1 == Abs(x);
    } else if 2 * x == -Modulus(b).value && y != 1 {
      HalfIsLess(Abs(x), Abs(y));
    }
  }

  lemma HalfIsLess(p: int, q: int)
    requires p >= 1 && q >= 2
    ensures p / q < p
  {
    DivisionIsEuclidean(p, q);
    AtLeast(p / q, q, 2);
  }

  lemma DivisionMeaning(b: BuiltinType, x: Value, y: Value)
    requires Operands(b, x, y)
    ensures S.Apply(Div, x, y).Some? <==> y.bits != 0 && !(2 * x.bits == -Modulus(b).value && y.bits == -1)
    ensures S.Apply(Mod, x, y).Some? <==> S.Apply(Div, x, y).Some?
    ensures S.Apply(Div, x, y).Some? ==>
      var q, r := S.Apply(Div, x, y).value.bits, S.Apply(Mod, x, y).value.bits;
      && x.bits == q * y.bits + r && (if y.bits > 0 then -y.bits < r < y.bits else y.bits < r < -y.bits)
      && (r > 0 ==> x.bits > 0) && (r < 0 ==> x.bits < 0)
  {
    WidthMeaning(b);
    hide TruncDiv;
    if y.bits != 0 {
      QuotientFits(b, x.bits, y.bits);
      TruncDivMeaning(x.bits, y.bits);
      var r := x.bits - TruncDiv(x.bits, y.bits) * y.bits;
      assert r == x.bits - y.bits * TruncDiv(x.bits, y.bits);
      assert IsValueOf(b, r);
    }
  }

  // Shifts, one place after the other.

  lemma Doubled(x: int, n: nat)
    requires n > 0
    ensures x * Pow2(n) == 2 * (x * Pow2(n - 1))
  {
    assert Pow2(n) == 2 * Pow2(n - 1);
    hide Pow2;
  }

  lemma ShiftLeftMeaning(b: BuiltinType, x: Value, y: Value)
    requires Operands(b, x, y)
    ensures S.Apply(ShiftLeft, x, y).Some? <==> 0 <= y.bits < BitCount(b)
    ensures y.bits == 0 ==> S.Apply(ShiftLeft, x, y) == Some(x)
    ensures 0 < y.bits < BitCount(b) ==>
      Reduced(b, S.Apply(ShiftLeft, x, y).value.bits, 2 * S.Apply(ShiftLeft, x, y.(bits := y.bits - 1)).value.bits)
  {
    WidthMeaning(b);
    if 0 < y.bits < BitCount(b) {
      Doubled(x.bits, y.bits);
      var p := x.bits * Pow2(y.bits - 1);
      WrapMeaning(b, p);
      WrapMeaning(b, 2 * p);
      hide Wrap, Pow2;
      var q := S.Apply(ShiftLeft, x, y.(bits := y.bits - 1)).value.bits;
      CongruentTwice(b, S.Apply(ShiftLeft, x, y).value.bits, p, q);
    }
  }

  lemma CongruentTwice(b: BuiltinType, r: int, p: int, q: int)
    requires Congruent(b, r, 2 * p) && Congruent(b, q, p)
    ensures Congruent(b, r, 2 * q)
  {
    var m := Modulus(b).value;
    var k, l := (r - 2 * p) / m, (q - p) / m;
    assert r - 2 * q == k * m - 2 * (l * m) == (k - 2 * l) * m;
    MultipleOf(k - 2 * l, m);
  }

  lemma HalfTheQuotient(a: int, p: int)
    requires p > 0
    ensures a / (2 * p) == (a / p) / 2
  {
    var q := a / p;
    var h := q / 2;
    var rest := a - h * (2 * p);
    assert rest == (q % 2) * p + a % p;
    assert 0 <= rest < 2 * p by {
      if q % 2 == 1 {
        assert rest == p + a % p;
      } else {
        assert q % 2 == 0 && rest == a % p;
      }
    }
    QuotientIs(a, 2 * p, h, rest);
  }

  lemma QuotientIs(a: int, m: int, q: int, r: int)
    requires m > 0 && a == q * m + r && 0 <= r < m
    ensures a / m == q
  {
    assert (a / m - q) * m == r - a % m;
    MultipleIsFar(a / m - q, m);
  }

  /** Shifts to the right keep the sign. */
  lemma ShiftRightMeaning(b: BuiltinType, x: Value, y: Value)
    requires Operands(b, x, y)
    ensures S.Apply(ShiftRight, x, y).Some? <==> 0 <= y.bits < BitCount(b)
    ensures y.bits == 0 ==> S.Apply(ShiftRight, x, y) == Some(x)
    ensures 0 < y.bits < BitCount(b) ==>
      S.Apply(ShiftRight, x, y).value.bits == S.Apply(ShiftRight, x, y.(bits := y.bits - 1)).value.bits / 2
  {
    WidthMeaning(b);
    assert x.bits / Pow2(0) == x.bits;
    if 0 < y.bits < BitCount(b) {
      HalfTheQuotient(x.bits, Pow2(y.bits - 1));
      QuotientInRange(b, x.bits, Pow2(y.bits - 1));
      QuotientInRange(b, x.bits, Pow2(y.bits));
      hide Wrap;
    }
  }

  lemma QuotientInRange(b: BuiltinType, x: int, p: int)
    requires IsValueOf(b, x) && p >= 1
    ensures IsValueOf(b, x / p)
  {
    QuotientIsNearer(x, p);
  }

  lemma QuotientIsNearer(x: int, p: int)
    requires p >= 1
    ensures if x >= 0 then 0 <= x / p <= x else x <= x / p < 0
  {
    var q := x / p;
    assert x == q * p + x % p;
    MultipleIsFar(q, p);
    if x >= 0 {
      DivisionIsEuclidean(x, p);
    } else {
      AtLeast(-q - 1, p, 1);
      assert (-q - 1) * p == -(q * p) - p;
    }
  }

  // Bitwise operators, bit by bit.

  /** Bit `i` of the two's complement of `x`. */
  function BitAt(x: int, i: nat): int
    decreases i
  {
    if i == 0 then x % 2 else BitAt(x / 2, i - 1)
  }

  lemma {:induction false} BitAtBitwise(op: BitOp, n: nat, x: int, y: int, i: nat)
    requires i < n
    ensures BitAt(Bitwise(op, n, x, y), i) == Bit(op, BitAt(x, i), BitAt(y, i))
    decreases i
  {
    var r := Bitwise(op, n, x, y);
    assert r % 2 == Bit(op, x % 2, y % 2) && r / 2 == Bitwise(op, n - 1, x / 2, y / 2);
    if i > 0 {
      BitAtBitwise(op, n - 1, x / 2, y / 2, i - 1);
    }
  }

  lemma {:induction false} BitAtBelow(x: int, k: int, n: nat, i: nat)
    requires i < n
    ensures BitAt(x + k * Pow2(n), i) == BitAt(x, i)
    decreases i
  {
    var p := Pow2(n - 1);
    var z := x + k * Pow2(n);
    assert z == x + 2 * (k * p);
    assert z % 2 == x % 2 && z / 2 == x / 2 + k * p;
    if i > 0 {
      BitAtBelow(x / 2, k, n - 1, i - 1);
    }
  }

  lemma {:induction false} BitAtNot(x: int, i: nat)
    ensures BitAt(-1 - x, i) == 1 - BitAt(x, i)
    decreases i
  {
    if i > 0 {
      assert (-1 - x) / 2 == -1 - x / 2;
      BitAtNot(x / 2, i - 1);
    }
  }

  lemma {:induction false} Pow2Sum(a: nat, b: nat)
    ensures Pow2(a + b) == Pow2(a) * Pow2(b)
    decreases a
  {
    if a > 0 {
      Pow2Sum(a - 1, b);
      assert a + b - 1 == (a - 1) + b;
    }
  }

  lemma Squared(n: nat, v: int)
    requires Pow2(n) == v
    ensures Pow2(n + n) == v * v
  {
    hide Pow2;
    Pow2Sum(n, n);
  }

  lemma PowersOfTwo(n: nat)
    requires n == 1
    ensures Pow2(n) == 2 && Pow2(8 * n) == 256 && Pow2(16 * n) == 65536
    ensures Pow2(32 * n) == 4294967296 && Pow2(64 * n) == 18446744073709551616
  {
    assert Pow2(n) == 2 * Pow2(n - 1);
    assert Pow2(n - 1) == 1;
    hide Pow2;
    Squared(n, 2);
    Squared(2 * n, 4);
    Squared(4 * n, 16);
    Squared(8 * n, 256);
    Squared(16 * n, 65536);
    Squared(32 * n, 4294967296);
  }

  lemma ModulusIsPower(b: BuiltinType)
    requires Modulus(b).Some?
    ensures Modulus(b).value == Pow2(BitCount(b)) && BitCount(b) > 0
  {
    hide Pow2;
    PowersOfTwo(1);
  }

  /** Reducing a number does not change its lowest bits. */
  lemma ReducedBits(b: BuiltinType, r: int, n: int, i: nat)
    requires Congruent(b, r, n) && i < BitCount(b)
    ensures BitAt(r, i) == BitAt(n, i)
  {
    ModulusIsPower(b);
    var m := Modulus(b).value;
    var k := (r - n) / m;
    assert r == n + k * m;
    BitAtBelow(n, k, BitCount(b), i);
  }

  lemma BitsMeaning(b: BuiltinType, x: Value, y: Value, op: BinaryOp)
    requires Operands(b, x, y) && op in {BitwiseAnd, BitwiseOr, BitwiseXor, BitwiseNot}
    ensures S.Apply(op, x, y).Some? && IsValueOf(b, S.Apply(op, x, y).value.bits)
    ensures forall i: nat :: i < BitCount(b) ==>
      var p, q, r := BitAt(x.bits, i), BitAt(y.bits, i), BitAt(S.Apply(op, x, y).value.bits, i);
      && (op == BitwiseAnd ==> (r == 1 <==> p == 1 && q == 1))
      && (op == BitwiseOr ==> (r == 1 <==> p == 1 || q == 1))
      && (op == BitwiseXor ==> (r == 1 <==> p != q))
      && (op == BitwiseNot ==> (r == 1 <==> p != 1))
  {
    WidthMeaning(b);
    var r := S.Apply(op, x, y).value.bits;
    if op == BitwiseNot {
      WrapMeaning(b, -1 - x.bits);
    } else {
      WrapMeaning(b, Bitwise(BitOpOf(op), BitCount(b), x.bits, y.bits));
    }
    hide Wrap, Bitwise;
    forall i: nat | i < BitCount(b)
      ensures BitAt(r, i) == if op == BitwiseNot then 1 - BitAt(x.bits, i) else Bit(BitOpOf(op), BitAt(x.bits, i), BitAt(y.bits, i))
      ensures 0 <= BitAt(x.bits, i) <= 1 && 0 <= BitAt(y.bits, i) <= 1
    {
      BitIsBit(x.bits, i);
      BitIsBit(y.bits, i);
      if op == BitwiseNot {
        ReducedBits(b, r, -1 - x.bits, i);
        BitAtNot(x.bits, i);
      } else {
        ReducedBits(b, r, Bitwise(BitOpOf(op), BitCount(b), x.bits, y.bits), i);
        BitAtBitwise(BitOpOf(op), BitCount(b), x.bits, y.bits, i);
      }
    }
  }

  lemma {:induction false} BitIsBit(x: int, i: nat)
    ensures 0 <= BitAt(x, i) <= 1
    decreases i
  {
    if i > 0 {
      BitIsBit(x / 2, i - 1);
    }
  }

  function BitOpOf(op: BinaryOp): BitOp {
    match op
    case BitwiseAnd => And
    case BitwiseOr => Or
    case _ => Xor
  }

  // Comparisons and connectives; true is -1, the only value of one bit but zero.

  lemma ComparisonMeaning(b: BuiltinType, x: Value, y: Value)
    requires Operands(b, x, y)
    ensures S.Apply(LessThan, x, y) == Some(Value(W1, if x.bits < y.bits then -1 else 0))
    ensures S.Apply(LessEqual, x, y) == Some(Value(W1, if x.bits <= y.bits then -1 else 0))
    ensures S.Apply(GreaterThan, x, y) == Some(Value(W1, if x.bits > y.bits then -1 else 0))
    ensures S.Apply(GreaterEqual, x, y) == Some(Value(W1, if x.bits >= y.bits then -1 else 0))
    ensures S.Apply(Equal, x, y) == Some(Value(W1, if x.bits == y.bits then -1 else 0))
    ensures S.Apply(NotEqual, x, y) == Some(Value(W1, if x.bits != y.bits then -1 else 0))
  {
  }

  lemma ConnectiveMeaning(x: Value, y: Value)
    requires Operands(Boolean, x, y)
    ensures S.Apply(LogicalAnd, x, y) == Some(Value(W1, if x.bits != 0 && y.bits != 0 then -1 else 0))
    ensures S.Apply(LogicalOr, x, y) == Some(Value(W1, if x.bits != 0 || y.bits != 0 then -1 else 0))
  {
    assert Bitwise(And, 1, x.bits, y.bits) == Bit(And, x.bits % 2, y.bits % 2) + 2 * Bitwise(And, 0, x.bits / 2, y.bits / 2);
    assert Bitwise(Or, 1, x.bits, y.bits) == Bit(Or, x.bits % 2, y.bits % 2) + 2 * Bitwise(Or, 0, x.bits / 2, y.bits / 2);
  }
}
