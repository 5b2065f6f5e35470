/** What expressions are worth, in terms of integers: the C rules for arithmetic, comparisons, shifts and bits
    (sections 6.3.1.8 and 6.5 of C17) on a machine with 32-bit int and 64-bit long. */
module ExprLaws {
  import opened Bits
  import opened Outcome
  import opened Expr

  // ----- types and their ranges

  predicate IsCType(ty: CType) {
    ty == BOOL || ty.bits in {8, 16, 32, 64}
  }

  /** How many values a type has. */
  function Span(ty: CType): int
    requires IsCType(ty)
  {
    match ty.bits
    case 1 => 2
    case 8 => 0x100
    case 16 => 0x1_0000
    case 32 => 0x1_0000_0000
    case _ => 0x1_0000_0000_0000_0000
  }

  predicate InType(ty: CType, n: int)
    requires IsCType(ty)
  {
    if ty.signed then -Span(ty) <= 2 * n < Span(ty) else 0 <= n < Span(ty)
  }

  /** The value of the type that n is converted to. */
  predicate Converted(ty: CType, n: int, x: int)
    requires IsCType(ty)
  {
    InType(ty, x) && (x - n) % Span(ty) == 0
  }

  /** The usual arithmetic conversions: the wider type, at least int; unsigned if an operand of that width is. */
  predicate IsCommon(ty: CType, a: CType, b: CType) {
    && ty.bits == Max(32, Max(a.bits, b.bits))
    && (ty.signed <==> !(a.bits == ty.bits && !a.signed) && !(b.bits == ty.bits && !b.signed))
  }

  /** The integer promotions. */
  predicate IsPromoted(ty: CType, a: CType) {
    IsCommon(ty, a, a)
  }

  function Max(m: nat, n: nat): nat { if m >= n then m else n }

  lemma {:induction false} Doubled(n: nat, p: nat)
    requires Pow2(n) == p
    ensures Pow2(2 * n) == p * p
  {
    Pow2Add(n, n);
  }

  lemma {:induction false} SpanIs(ty: CType)
    requires IsCType(ty)
    ensures Span(ty) == Pow2(ty.bits)
  {
    Doubled(2, 4);
    Doubled(4, 0x10);
    Doubled(8, 0x100);
    Doubled(16, 0x1_0000);
    Doubled(32, 0x1_0000_0000);
  }

  lemma {:induction false} CommonIs(a: CType, b: CType)
    requires IsCType(a) && IsCType(b)
    ensures IsCType(Common(a, b)) && IsCommon(Common(a, b), a, b) && Common(a, b).bits >= 32
    ensures forall ty :: IsCommon(ty, a, b) ==> ty == Common(a, b)
    ensures a == b ==> Common(a, b) == Promote(a)
  {
  }

  // ----- conversions

  lemma {:induction false} DivModIs(q: int, d: int, r: int)
    requires 0 <= r < d
    ensures (q * d + r) % d == r && (q * d + r) / d == q
  {
    var n := q * d + r;
    assert n == (n / d) * d + n % d;
    assert (n / d - q) * d == r - n % d;
    SmallMultiple(n / d - q, d);
  }

  lemma {:induction false} SameRest(x: int, n: int, m: int)
    requires m > 0
    ensures (x - n) % m == 0 <==> x % m == n % m
  {
    if (x - n) % m == 0 {
      var q := (x - n) / m;
      assert x - n == q * m && n == (n / m) * m + n % m;
      assert x == (n / m + q) * m + n % m;
      DivModIs(n / m + q, m, n % m);
    }
    if x % m == n % m {
      assert x == (x / m) * m + x % m && n == (n / m) * m + n % m;
      assert x - n == (x / m - n / m) * m + 0;
      DivModIs(x / m - n / m, m, 0);
    }
  }

  lemma {:induction false} SmallRest(x: int, m: int)
    requires m > 0
    ensures 0 <= x < m ==> x % m == x
    ensures -m <= x < 0 ==> x % m == x + m
  {
    if -m <= x < 0 {
      DivModIs(-1, m, x + m);
    }
  }

  lemma {:induction false} WrapOf(ty: CType, n: int, m: int) returns (u: int)
    requires IsCType(ty) && ty.bits > 1 && m == Span(ty)
    ensures u == n % m && 0 <= u < m && Wrap(ty, n) == if ty.signed && 2 * u >= m then u - m else u
  {
    u := n % m;
  }

  lemma {:induction false} OneRest(n: int, m: int, u: int, w: int)
    requires m > 0 && u == n % m && (w == u || w == u - m)
    ensures (w - n) % m == 0
  {
    SmallRest(w, m);
    SameRest(w, n, m);
  }

  lemma {:induction false} SameNumber(n: int, m: int, x: int, y: int)
    requires m > 0 && (x - n) % m == 0 && (y - n) % m == 0 && -m < x - y < m
    ensures x == y
  {
    SameRest(x, n, m);
    SameRest(y, n, m);
    SameRest(x, y, m);
    SmallRest(x - y, m);
  }

  lemma {:induction false} WrapIs(ty: CType, n: int)
    requires IsCType(ty) && ty.bits > 1
    ensures Converted(ty, n, Wrap(ty, n))
  {
    var m := Span(ty);
    var u := WrapOf(ty, n, m);
    OneRest(n, m, u, Wrap(ty, n));
  }

  lemma {:induction false} WrapOnly(ty: CType, n: int, x: int)
    requires IsCType(ty) && ty.bits > 1 && Converted(ty, n, x)
    ensures x == Wrap(ty, n)
  {
    WrapIs(ty, n);
    SameNumber(n, Span(ty), x, Wrap(ty, n));
  }

  lemma {:induction false} WrapSelf(ty: CType, n: int)
    requires IsCType(ty) && ty.bits > 1 && InType(ty, n)
    ensures Wrap(ty, n) == n
  {
    SmallRest(0, Span(ty));
    WrapOnly(ty, n, n);
  }

  lemma {:induction false} FitIs(ty: CType, n: int)
    requires IsCType(ty) && ty.bits > 1
    ensures InType(ty, n) ==> Fit(ty, n) == Some(CVal(ty, n))
    ensures !ty.signed ==> Fit(ty, n).Some? && Fit(ty, n).value.ty == ty && Converted(ty, n, Fit(ty, n).value.n)
    ensures ty.signed && !InType(ty, n) ==> Fit(ty, n) == None
  {
    WrapIs(ty, n);
    if InType(ty, n) {
      WrapSelf(ty, n);
    }
  }

  /** A derived value or a cast: a bool says whether the value is not zero, another type holds the number that
      is congruent to it. */
  lemma {:induction false} ConvertIs(ty: CType, v: CVal)
    requires IsCType(ty)
    ensures Convert(ty, v).ty == ty && InType(ty, Convert(ty, v).n)
    ensures ty == BOOL ==> Convert(ty, v).n == if v.n == 0 then 0 else 1
    ensures ty != BOOL ==> (Convert(ty, v).n - v.n) % Span(ty) == 0
    ensures ty != BOOL && InType(ty, v.n) ==> Convert(ty, v).n == v.n
  {
    if ty != BOOL {
      WrapIs(ty, v.n);
      if InType(ty, v.n) {
        WrapSelf(ty, v.n);
      }
    }
  }

  /** The number that a value is cut down to, one of m. */
  predicate CutTo(x: Option<nat>, n: int, m: int)
    requires m > 0
  {
    x.Some? && x.value < m && (x.value - n) % m == 0 && (0 <= n < m ==> x.value == n)
  }

  /** Lengths are the value modulo 2^64, counts modulo 2^32, and conditions whether it is not zero. */
  lemma {:induction false} UsesAre(e: Expr, env: Env, n: int)
    requires Eval(e, env).Some? && Eval(e, env).value.n == n
    ensures CutTo(Size(e, env), n, 0x1_0000_0000_0000_0000)
    ensures CutTo(Count(e, env), n, 0x1_0000_0000)
    ensures Truth(e, env) == Some(n != 0)
  {
    SizeOf(e, env, n, 0x1_0000_0000_0000_0000);
    CutIs(Size(e, env), n, 0x1_0000_0000_0000_0000);
    CountOf(e, env, n, 0x1_0000_0000);
    CutIs(Count(e, env), n, 0x1_0000_0000);
  }

  /** All are undefined together. */
  lemma {:induction false} UsesUndefined(e: Expr, env: Env)
    ensures Size(e, env).None? <==> Eval(e, env).None?
    ensures Count(e, env).None? <==> Eval(e, env).None?
    ensures Truth(e, env).None? <==> Eval(e, env).None?
  {
  }

  lemma {:induction false} SizeOf(e: Expr, env: Env, n: int, m: int)
    requires Eval(e, env).Some? && Eval(e, env).value.n == n && m == 0x1_0000_0000_0000_0000
    ensures Size(e, env) == Some(n % m)
  {
  }

  lemma {:induction false} CountOf(e: Expr, env: Env, n: int, m: int)
    requires Eval(e, env).Some? && Eval(e, env).value.n == n && m == 0x1_0000_0000
    ensures Count(e, env) == Some(n % m)
  {
  }

  lemma {:induction false} CutIs(x: Option<nat>, n: int, m: int)
    requires m > 0 && x == Some(n % m)
    ensures CutTo(x, n, m)
  {
    Reduced(n, m);
  }

  lemma {:induction false} Reduced(n: int, m: int)
    requires m > 0
    ensures 0 <= n % m < m && (n % m - n) % m == 0 && (0 <= n < m ==> n % m == n)
  {
    SmallRest(n, m);
    SmallRest(n % m, m);
    SameRest(n % m, n, m);
  }

  // ----- arithmetic

  /** The operands of an operator, with their values converted to the common type. */
  predicate Operands(l: Expr, r: Expr, env: Env, a: CVal, b: CVal, ty: CType, x: int, y: int) {
    && Eval(l, env) == Some(a) && Eval(r, env) == Some(b) && IsCType(a.ty) && IsCType(b.ty)
    && IsCType(ty) && IsCommon(ty, a.ty, b.ty) && Converted(ty, a.n, x) && Converted(ty, b.n, y)
  }

  lemma {:induction false} OperandsAre(l: Expr, r: Expr, env: Env, a: CVal, b: CVal, ty: CType, x: int, y: int)
    requires Operands(l, r, env, a, b, ty, x, y)
    ensures ty == Common(a.ty, b.ty) && ty.bits >= 32 && x == Wrap(ty, a.n) && y == Wrap(ty, b.n)
  {
    CommonIs(a.ty, b.ty);
    WrapOnly(ty, a.n, x);
    WrapOnly(ty, b.n, y);
  }

  /** Every operand has such a value, itself if it lies in the common type. */
  lemma {:induction false} OperandsExist(l: Expr, r: Expr, env: Env) returns (ty: CType, x: int, y: int)
    requires Eval(l, env).Some? && Eval(r, env).Some?
    requires IsCType(Eval(l, env).value.ty) && IsCType(Eval(r, env).value.ty)
    ensures var a, b := Eval(l, env).value, Eval(r, env).value;
            && Operands(l, r, env, a, b, ty, x, y)
            && (InType(ty, a.n) ==> x == a.n) && (InType(ty, b.n) ==> y == b.n)
  {
    var a, b := Eval(l, env).value, Eval(r, env).value;
    CommonIs(a.ty, b.ty);
    ty := Common(a.ty, b.ty);
    WrapIs(ty, a.n);
    WrapIs(ty, b.n);
    if InType(ty, a.n) {
      WrapSelf(ty, a.n);
    }
    if InType(ty, b.n) {
      WrapSelf(ty, b.n);
    }
    x, y := Wrap(ty, a.n), Wrap(ty, b.n);
  }

  /** A value is what it says, or its remainder in an unsigned type; in a signed type there is none beyond the
      range. */
  predicate Yields(v: Option<CVal>, ty: CType, exact: int)
    requires IsCType(ty)
  {
    if InType(ty, exact) then v == Some(CVal(ty, exact))
    else if ty.signed then v == None
    else v.Some? && v.value.ty == ty && Converted(ty, exact, v.value.n)
  }

  lemma {:induction false} FitYields(v: Option<CVal>, ty: CType, n: int)
    requires IsCType(ty) && ty.bits > 1 && v == Fit(ty, n)
    ensures Yields(v, ty, n)
  {
    FitIs(ty, n);
  }

  predicate IsSum(op: BinOp, x: int, y: int, n: int) {
    (op.Add? && n == x + y) || (op.Sub? && n == x - y) || (op.Mul? && n == x * y)
  }

  lemma {:induction false} EvalOf(op: BinOp, l: Expr, r: Expr, env: Env, a: CVal, b: CVal)
    requires Eval(l, env) == Some(a) && Eval(r, env) == Some(b) && op !in {LogAnd, LogOr}
    ensures Eval(Bin(op, l, r), env) == Arith(op, a, b)
  {
  }

  lemma {:induction false} SumOf(op: BinOp, a: CVal, b: CVal, ty: CType, x: int, y: int, n: int)
    requires ty == Common(a.ty, b.ty) && x == Wrap(ty, a.n) && y == Wrap(ty, b.n) && IsSum(op, x, y, n)
    ensures Arith(op, a, b) == Fit(ty, n)
  {
  }

  /** Addition, subtraction and multiplication: n is the sum, the difference or the product. */
  lemma {:induction false} SumIs(op: BinOp, l: Expr, r: Expr, env: Env, a: CVal, b: CVal, ty: CType, x: int, y: int, n: int)
    requires Operands(l, r, env, a, b, ty, x, y)
    requires IsSum(op, x, y, n)
    ensures Yields(Eval(Bin(op, l, r), env), ty, n)
  {
    OperandsAre(l, r, env, a, b, ty, x, y);
    EvalOf(op, l, r, env, a, b);
    SumOf(op, a, b, ty, x, y, n);
    FitYields(Eval(Bin(op, l, r), env), ty, n);
  }

  lemma {:induction false} Signs(d: int, e: int)
    ensures (-d) * e == -(d * e) && d * (-e) == -(d * e) && (-d) * (-e) == d * e
  {
  }

  /** The quotient of the magnitudes, negated where the signs differ. */
  lemma {:induction false} Truncated(a: int, b: int)
    requires b != 0
    ensures var q := TruncDiv(a, b);
            var m := a - b * q;
            a == b * q + m && Abs(m) < Abs(b) && (m != 0 ==> (m < 0 <==> a < 0))
            && (a >= 0 && b > 0 ==> 0 <= q <= a)
  {
    var p, d := Abs(a), Abs(b);
    var e: int, m: int := p / d, p % d;
    assert p == d * e + m && 0 <= m < d;
    assert TruncDiv(a, b) == if (a < 0) == (b < 0) then e else 0 - e;
    Signs(d, e);
    QuotientSmaller(p, d, e, m);
  }

  lemma {:induction false} QuotientSmaller(p: int, d: int, e: int, m: int)
    requires p >= 0 && d > 0 && p == d * e + m && 0 <= m < d
    ensures 0 <= e <= p
  {
    if e < 0 {
      MulMono(e, -1, d);
    } else {
      MulMono(1, d, e);
    }
  }

  lemma {:induction false} QuotientOf(a: CVal, b: CVal, ty: CType, x: int, y: int)
    requires ty == Common(a.ty, b.ty) && x == Wrap(ty, a.n) && y == Wrap(ty, b.n)
    ensures y == 0 ==> Arith(Div, a, b) == None && Arith(Mod, a, b) == None
    ensures y != 0 ==>
              && Arith(Div, a, b) == Fit(ty, TruncDiv(x, y))
              && (Fit(ty, TruncDiv(x, y)).None? ==> Arith(Mod, a, b) == None)
              && (Fit(ty, TruncDiv(x, y)).Some? ==> Arith(Mod, a, b) == Fit(ty, x - y * TruncDiv(x, y)))
  {
  }

  /** Quotient and remainder: a multiple of the divisor and a smaller rest with the sign of the dividend. They
      have no value for a zero divisor, or when the quotient does not fit. */
  lemma {:induction false} QuotientIs(l: Expr, r: Expr, env: Env, a: CVal, b: CVal, ty: CType, x: int, y: int)
      returns (q: int, m: int)
    requires Operands(l, r, env, a, b, ty, x, y)
    ensures y == 0 ==> Eval(Bin(Div, l, r), env) == None && Eval(Bin(Mod, l, r), env) == None
    ensures y != 0 ==>
              && x == y * q + m && Abs(m) < Abs(y) && (m != 0 ==> (m < 0 <==> x < 0))
              && Eval(Bin(Div, l, r), env) == (if InType(ty, q) then Some(CVal(ty, q)) else None)
              && Eval(Bin(Mod, l, r), env) == (if InType(ty, q) then Some(CVal(ty, m)) else None)
              && (InType(ty, q) ==> InType(ty, m))
  {
    OperandsAre(l, r, env, a, b, ty, x, y);
    EvalOf(Div, l, r, env, a, b);
    EvalOf(Mod, l, r, env, a, b);
    QuotientOf(a, b, ty, x, y);
    q, m := 0, 0;
    if y != 0 {
      Truncated(x, y);
      q, m := TruncDiv(x, y), x - y * TruncDiv(x, y);
      QuotientFits(ty, x, y, q, m);
    }
  }

  lemma {:induction false} QuotientFits(ty: CType, x: int, y: int, q: int, m: int)
    requires IsCType(ty) && ty.bits > 1 && InType(ty, x) && InType(ty, y) && y != 0
    requires Abs(m) < Abs(y) && (m != 0 ==> (m < 0 <==> x < 0)) && (x >= 0 && y > 0 ==> 0 <= q <= x)
    ensures Fit(ty, m) == Some(CVal(ty, m)) && InType(ty, m)
    ensures Fit(ty, q) == if InType(ty, q) then Some(CVal(ty, q)) else None
  {
    FitIs(ty, q);
    FitIs(ty, m);
  }

  predicate Compares(op: BinOp, x: int, y: int)
    requires op in {Eq, Ne, Lt, Le, Gt, Ge}
  {
    match op
    case Eq => x == y
    case Ne => x != y
    case Lt => x < y
    case Le => x < y || x == y
    case Gt => y < x
    case _ => y < x || x == y
  }

  lemma {:induction false} OrderOf(op: BinOp, a: CVal, b: CVal, ty: CType, x: int, y: int)
    requires ty == Common(a.ty, b.ty) && x == Wrap(ty, a.n) && y == Wrap(ty, b.n) && op in {Eq, Ne, Lt, Le, Gt, Ge}
    ensures Arith(op, a, b) == Some(CVal(INT, if Compares(op, x, y) then 1 else 0))
  {
  }

  /** Comparisons are the order of the converted operands. */
  lemma {:induction false} ComparisonIs(op: BinOp, l: Expr, r: Expr, env: Env, a: CVal, b: CVal, ty: CType, x: int, y: int)
    requires Operands(l, r, env, a, b, ty, x, y) && op in {Eq, Ne, Lt, Le, Gt, Ge}
    ensures Eval(Bin(op, l, r), env) == Some(CVal(INT, if Compares(op, x, y) then 1 else 0))
  {
    OperandsAre(l, r, env, a, b, ty, x, y);
    EvalOf(op, l, r, env, a, b);
    OrderOf(op, a, b, ty, x, y);
  }

  predicate Shiftable(l: Expr, r: Expr, env: Env, a: CVal, b: CVal, ty: CType) {
    Eval(l, env) == Some(a) && Eval(r, env) == Some(b) && IsCType(a.ty) && IsCType(ty) && IsPromoted(ty, a.ty)
  }

  lemma {:induction false} ShiftsBy(l: Expr, r: Expr, env: Env, a: CVal, b: CVal, ty: CType)
    requires Eval(l, env) == Some(a) && Eval(r, env) == Some(b) && ty == Promote(a.ty)
    ensures !(0 <= b.n < ty.bits) ==> Eval(Bin(Shl, l, r), env) == None && Eval(Bin(Shr, l, r), env) == None
    ensures 0 <= b.n < ty.bits ==>
              && Eval(Bin(Shl, l, r), env) == (if ty.signed && a.n < 0 then None else Fit(ty, a.n * Pow2(b.n)))
              && Eval(Bin(Shr, l, r), env) == Some(CVal(ty, a.n / Pow2(b.n)))
  {
  }

  /** A shift to the left, by less than the width of the promoted left operand, of a number that is not negative,
      is the product with a power of two. */
  lemma {:induction false} LeftShiftIs(l: Expr, r: Expr, env: Env, a: CVal, b: CVal, ty: CType, n: int)
    requires Shiftable(l, r, env, a, b, ty) && n == a.n * Pow2(if b.n > 0 then b.n else 0)
    ensures !(0 <= b.n < ty.bits) || (ty.signed && a.n < 0) ==> Eval(Bin(Shl, l, r), env) == None
    ensures 0 <= b.n < ty.bits && (!ty.signed || a.n >= 0) ==> Yields(Eval(Bin(Shl, l, r), env), ty, n)
  {
    CommonIs(a.ty, a.ty);
    ShiftsBy(l, r, env, a, b, ty);
    if 0 <= b.n < ty.bits && (!ty.signed || a.n >= 0) {
      FitYields(Eval(Bin(Shl, l, r), env), ty, n);
    }
  }

  /** The quotient rounded down. */
  predicate IsFloor(q: int, n: int, p: int) {
    q * p <= n < (q + 1) * p
  }

  /** A shift to the right is the quotient by a power of two, rounded down. */
  lemma {:induction false} RightShiftIs(l: Expr, r: Expr, env: Env, a: CVal, b: CVal, ty: CType) returns (q: int)
    requires Shiftable(l, r, env, a, b, ty)
    ensures !(0 <= b.n < ty.bits) ==> Eval(Bin(Shr, l, r), env) == None
    ensures 0 <= b.n < ty.bits ==>
              Eval(Bin(Shr, l, r), env) == Some(CVal(ty, q)) && IsFloor(q, a.n, Pow2(b.n))
  {
    CommonIs(a.ty, a.ty);
    ShiftsBy(l, r, env, a, b, ty);
    q := 0;
    if 0 <= b.n < ty.bits {
      q := a.n / Pow2(b.n);
      Floor(a.n, Pow2(b.n));
    }
  }

  lemma {:induction false} Floor(n: int, p: int)
    requires p > 0
    ensures IsFloor(n / p, n, p)
  {
  }

  // ----- bits

  /** Bit k of a number in two's complement. */
  function BitAt(n: int, k: nat): bool
    decreases k
  {
    if k == 0 then n % 2 == 1 else BitAt(n / 2, k - 1)
  }

  lemma {:induction false} ZeroBits(k: nat)
    ensures !BitAt(0, k)
  {
    if k > 0 {
      ZeroBits(k - 1);
    }
  }

  lemma {:induction false} AndBits(a: nat, b: nat, k: nat)
    ensures BitAt(And(a, b), k) == (BitAt(a, k) && BitAt(b, k))
    decreases k
  {
    ZeroBits(k);
    if a != 0 && b != 0 && k > 0 {
      AndBits(a / 2, b / 2, k - 1);
    }
  }

  lemma {:induction false} OrBits(a: nat, b: nat, k: nat)
    ensures BitAt(Or(a, b), k) == (BitAt(a, k) || BitAt(b, k))
    decreases k
  {
    ZeroBits(k);
    if a != 0 && b != 0 && k > 0 {
      OrBits(a / 2, b / 2, k - 1);
    }
  }

  lemma {:induction false} XorHalf(a: nat, b: nat)
    requires a != 0 && b != 0
    ensures Xor(a, b) / 2 == Xor(a / 2, b / 2) && Xor(a, b) % 2 == (a + b) % 2
  {
    DivModIs(Xor(a / 2, b / 2), 2, (a + b) % 2);
  }

  lemma {:induction false} XorBits(a: nat, b: nat, k: nat)
    ensures BitAt(Xor(a, b), k) == (BitAt(a, k) != BitAt(b, k))
    decreases k
  {
    ZeroBits(k);
    if a != 0 && b != 0 {
      XorHalf(a, b);
      if k > 0 {
        XorBits(a / 2, b / 2, k - 1);
      }
    }
  }

  lemma {:induction false} HalveRest(n: int, m: int)
    requires m > 0
    ensures (n % (2 * m)) % 2 == n % 2 && (n % (2 * m)) / 2 == (n / 2) % m
  {
    var q, r := n / (2 * m), n % (2 * m);
    assert n == q * (2 * m) + r && 0 <= r < 2 * m;
    assert n == 2 * (q * m) + r;
    assert n / 2 == q * m + r / 2;
    DivModIs(q, m, r / 2);
  }

  /** The low bits depend on the number modulo a power of two only. */
  lemma {:induction false} LowBits(n: int, bits: nat, k: nat)
    requires k < bits
    ensures BitAt(n % Pow2(bits), k) == BitAt(n, k)
    decreases k
  {
    HalveRest(n, Pow2(bits - 1));
    if k > 0 {
      LowBits(n / 2, bits - 1, k - 1);
    }
  }

  lemma {:induction false} ConvertedBits(ty: CType, n: int, x: int, k: nat)
    requires IsCType(ty) && Converted(ty, n, x) && k < ty.bits
    ensures BitAt(x, k) == BitAt(n, k)
  {
    SpanIs(ty);
    SameRest(x, n, Pow2(ty.bits));
    LowBits(x, ty.bits, k);
    LowBits(n, ty.bits, k);
  }

  predicate Combines(op: BinOp, p: bool, q: bool, r: bool) {
    (op.BitAnd? && r == (p && q)) || (op.BitOr? && r == (p || q)) || (op.BitXor? && r == (p != q))
  }

  /** And, or and exclusive or, bit by bit. */
  lemma {:induction false} BitsAre(op: BinOp, l: Expr, r: Expr, env: Env, a: CVal, b: CVal, ty: CType, x: int, y: int, k: nat)
    requires Operands(l, r, env, a, b, ty, x, y) && k < ty.bits && op in {BitAnd, BitOr, BitXor}
    ensures var v := Eval(Bin(op, l, r), env);
            && v.Some? && v.value.ty == ty && InType(ty, v.value.n)
            && Combines(op, BitAt(x, k), BitAt(y, k), BitAt(v.value.n, k))
  {
    OperandsAre(l, r, env, a, b, ty, x, y);
    EvalOf(op, l, r, env, a, b);
    BitwiseOf(op, a, b, ty, x, y);
    BitwiseBits(op, ty, x, y, k);
  }

  lemma {:induction false} BitwiseOf(op: BinOp, a: CVal, b: CVal, ty: CType, x: int, y: int)
    requires ty == Common(a.ty, b.ty) && x == Wrap(ty, a.n) && y == Wrap(ty, b.n) && op in {BitAnd, BitOr, BitXor}
    ensures Arith(op, a, b) == Some(Bitwise(op, ty, x, y))
  {
  }

  lemma {:induction false} BitwiseBits(op: BinOp, ty: CType, x: int, y: int, k: nat)
    requires op in {BitAnd, BitOr, BitXor} && IsCType(ty) && ty.bits > 1 && k < ty.bits
    ensures var v := Bitwise(op, ty, x, y);
            v.ty == ty && InType(ty, v.n) && Combines(op, BitAt(x, k), BitAt(y, k), BitAt(v.n, k))
  {
    SpanIs(ty);
    var m := Span(ty);
    var p: nat, q: nat := x % m, y % m;
    LowBits(x, ty.bits, k);
    LowBits(y, ty.bits, k);
    match op
    case BitAnd => AndBits(p, q, k); WrappedBits(ty, And(p, q), k);
    case BitOr => OrBits(p, q, k); WrappedBits(ty, Or(p, q), k);
    case _ => XorBits(p, q, k); WrappedBits(ty, Xor(p, q), k);
  }

  lemma {:induction false} WrappedBits(ty: CType, n: nat, k: nat)
    requires IsCType(ty) && ty.bits > 1 && k < ty.bits
    ensures InType(ty, Wrap(ty, n)) && BitAt(Wrap(ty, n), k) == BitAt(n, k)
  {
    WrapIs(ty, n);
    ConvertedBits(ty, n, Wrap(ty, n), k);
  }

  // ----- the other operators

  /** Negation in the promoted type. */
  lemma {:induction false} NegationIs(e: Expr, env: Env, a: CVal, ty: CType)
    requires Eval(e, env) == Some(a) && IsCType(a.ty) && IsCType(ty) && IsPromoted(ty, a.ty)
    ensures Yields(Eval(Neg(e), env), ty, -a.n)
  {
    CommonIs(a.ty, a.ty);
    UnaryOf(e, env, a, ty);
    FitYields(Eval(Neg(e), env), ty, -a.n);
  }

  /** The complement of all bits in the promoted type. */
  lemma {:induction false} ComplementIs(e: Expr, env: Env, a: CVal, ty: CType) returns (n: int)
    requires Eval(e, env) == Some(a) && IsCType(a.ty) && IsCType(ty) && IsPromoted(ty, a.ty)
    ensures Eval(Compl(e), env) == Some(CVal(ty, n)) && Converted(ty, -1 - a.n, n)
  {
    CommonIs(a.ty, a.ty);
    UnaryOf(e, env, a, ty);
    n := Wrap(ty, -1 - a.n);
    WrapIs(ty, -1 - a.n);
  }

  lemma {:induction false} UnaryOf(e: Expr, env: Env, a: CVal, ty: CType)
    requires Eval(e, env) == Some(a) && ty == Promote(a.ty)
    ensures Eval(Neg(e), env) == Fit(ty, -a.n)
    ensures Eval(Compl(e), env) == Some(CVal(ty, Wrap(ty, -1 - a.n)))
  {
  }

  /** The logical not, and `&&` and `||` where the left operand decides. */
  lemma {:induction false} DecidedLeft(l: Expr, r: Expr, env: Env, a: CVal)
    requires Eval(l, env) == Some(a)
    ensures Eval(Expr.Not(l), env) == Some(CVal(INT, if a.n == 0 then 1 else 0))
    ensures a.n == 0 ==> Eval(Bin(LogAnd, l, r), env) == Some(CVal(INT, 0))
    ensures a.n != 0 ==> Eval(Bin(LogOr, l, r), env) == Some(CVal(INT, 1))
  {
  }

  /** Where the left operand of `&&` or `||` does not decide, the right one does. */
  lemma {:induction false} DecidedRight(op: BinOp, l: Expr, r: Expr, env: Env, a: CVal)
    requires Eval(l, env) == Some(a) && ((op.LogAnd? && a.n != 0) || (op.LogOr? && a.n == 0))
    ensures Eval(r, env).None? ==> Eval(Bin(op, l, r), env) == None
    ensures Eval(r, env).Some? ==> Eval(Bin(op, l, r), env) == Some(CVal(INT, if Eval(r, env).value.n == 0 then 0 else 1))
  {
  }

  /** An operand without a value leaves the expression without one, but for the right operand of a decided
      `&&` or `||`. */
  lemma {:induction false} NothingFromNothing(op: BinOp, l: Expr, r: Expr, env: Env)
    ensures Eval(l, env).None? ==>
              && Eval(Bin(op, l, r), env).None? && Eval(Neg(l), env).None?
              && Eval(Compl(l), env).None? && Eval(Expr.Not(l), env).None?
    ensures Eval(r, env).None? && op !in {LogAnd, LogOr} ==> Eval(Bin(op, l, r), env).None?
  {
  }

  /** Names and `??`. The scope's own names are hidden by those of the enclosing header or tag. */
  lemma {:induction false} NamesAre(name: string, d: Expr, env: Env)
    ensures var bound := if name in env.header then Some(env.header[name])
                         else if name in env.local then Some(env.local[name]) else None;
            && Eval(Ref(name), env) == (if bound.Some? && bound.value.Bound? then Some(bound.value.v) else None)
            && Eval(Coalesce(name, d), env) == (if bound.None? then None else if bound.value.Bound? then Some(bound.value.v) else Eval(d, env))
  {
  }

  /** A literal has its own value, in int below 2^16 and in unsigned 64 bits from there; a negative one, in int if that
      holds its magnitude and else in 64 bits. */
  lemma {:induction false} LiteralIs(n: int, env: Env)
    ensures Eval(Lit(n), env) == Some(CVal(if n >= 0x1_0000 then ULONG else if n >= -0x7FFF_FFFF then INT else LONG, n))
    ensures -0x8000_0000_0000_0000 <= n < 0x1_0000_0000_0000_0000 ==> TypedValue(Eval(Lit(n), env))
  {
  }

  // ----- values stay in their types

  predicate TypedBinding(b: Binding) {
    b.Bound? ==> IsCType(b.v.ty) && InType(b.v.ty, b.v.n)
  }

  predicate Typed(env: Env) {
    && (forall x :: x in env.header ==> TypedBinding(env.header[x]))
    && (forall x :: x in env.local ==> TypedBinding(env.local[x]))
  }

  /** Literals are 64-bit numbers. */
  predicate LiteralsFit(e: Expr) {
    match e
    case Lit(n) => -0x8000_0000_0000_0000 <= n < 0x1_0000_0000_0000_0000
    case Ref(_) => true
    case Bin(_, l, r) => LiteralsFit(l) && LiteralsFit(r)
    case Neg(x) => LiteralsFit(x)
    case Not(x) => LiteralsFit(x)
    case Compl(x) => LiteralsFit(x)
    case Coalesce(_, d) => LiteralsFit(d)
  }

  predicate TypedValue(v: Option<CVal>) {
    v.Some? ==> IsCType(v.value.ty) && InType(v.value.ty, v.value.n)
  }

  lemma {:induction false} FlagsTyped(n: int)
    requires n == 0 || n == 1
    ensures TypedValue(Some(CVal(INT, n)))
  {
  }

  lemma {:induction false} YieldsTyped(v: Option<CVal>, ty: CType, exact: int)
    requires IsCType(ty) && Yields(v, ty, exact)
    ensures TypedValue(v)
  {
  }

  lemma {:induction false} SumTyped(op: BinOp, l: Expr, r: Expr, env: Env, a: CVal, b: CVal, ty: CType, x: int, y: int)
    requires Operands(l, r, env, a, b, ty, x, y) && op in {Add, Sub, Mul}
    ensures TypedValue(Eval(Bin(op, l, r), env))
  {
    var n := if op.Add? then x + y else if op.Sub? then x - y else x * y;
    SumIs(op, l, r, env, a, b, ty, x, y, n);
    YieldsTyped(Eval(Bin(op, l, r), env), ty, n);
  }

  lemma {:induction false} QuotientTyped(op: BinOp, l: Expr, r: Expr, env: Env, a: CVal, b: CVal, ty: CType, x: int, y: int)
    requires Operands(l, r, env, a, b, ty, x, y) && op in {Div, Mod}
    ensures TypedValue(Eval(Bin(op, l, r), env))
  {
    var q, m := QuotientIs(l, r, env, a, b, ty, x, y);
  }

  lemma {:induction false} OrderTyped(op: BinOp, l: Expr, r: Expr, env: Env, a: CVal, b: CVal, ty: CType, x: int, y: int)
    requires Operands(l, r, env, a, b, ty, x, y) && op in {Eq, Ne, Lt, Le, Gt, Ge}
    ensures TypedValue(Eval(Bin(op, l, r), env))
  {
    ComparisonIs(op, l, r, env, a, b, ty, x, y);
    FlagsTyped(0);
    FlagsTyped(1);
  }

  lemma {:induction false} BitsTyped(op: BinOp, l: Expr, r: Expr, env: Env, a: CVal, b: CVal, ty: CType, x: int, y: int)
    requires Operands(l, r, env, a, b, ty, x, y) && op in {BitAnd, BitOr, BitXor}
    ensures TypedValue(Eval(Bin(op, l, r), env))
  {
    OperandsAre(l, r, env, a, b, ty, x, y);
    BitsAre(op, l, r, env, a, b, ty, x, y, 0);
  }

  lemma {:induction false} BinTyped(op: BinOp, l: Expr, r: Expr, env: Env)
    requires Eval(l, env).Some? && Eval(r, env).Some? && TypedValue(Eval(l, env)) && TypedValue(Eval(r, env))
    requires op !in {LogAnd, LogOr}
    ensures TypedValue(Eval(Bin(op, l, r), env))
  {
    var a, b := Eval(l, env).value, Eval(r, env).value;
    var ty, x, y := OperandsExist(l, r, env);
    match op
    case Add | Sub | Mul => SumTyped(op, l, r, env, a, b, ty, x, y);
    case Div | Mod => QuotientTyped(op, l, r, env, a, b, ty, x, y);
    case BitAnd | BitOr | BitXor => BitsTyped(op, l, r, env, a, b, ty, x, y);
    case Shl | Shr => CommonIs(a.ty, a.ty); ShiftTyped(op, l, r, env, a, b, Promote(a.ty));
    case _ => OrderTyped(op, l, r, env, a, b, ty, x, y);
  }

  lemma {:induction false} ShiftTyped(op: BinOp, l: Expr, r: Expr, env: Env, a: CVal, b: CVal, ty: CType)
    requires Shiftable(l, r, env, a, b, ty) && ty == Promote(a.ty) && InType(a.ty, a.n) && op in {Shl, Shr}
    ensures TypedValue(Eval(Bin(op, l, r), env))
  {
    if op.Shl? {
      var n := a.n * Pow2(if b.n > 0 then b.n else 0);
      LeftShiftIs(l, r, env, a, b, ty, n);
      if 0 <= b.n < ty.bits && (!ty.signed || a.n >= 0) {
        YieldsTyped(Eval(Bin(Shl, l, r), env), ty, n);
      }
    } else {
      var q := RightShiftIs(l, r, env, a, b, ty);
      if 0 <= b.n < ty.bits {
        Promoted(a.ty, a.n);
        Halved(ty, a.n, Pow2(b.n), q);
      }
    }
  }

  lemma {:induction false} Promoted(ty: CType, n: int)
    requires IsCType(ty) && InType(ty, n)
    ensures IsCType(Promote(ty)) && InType(Promote(ty), n)
  {
  }

  lemma {:induction false} Halved(ty: CType, n: int, p: nat, q: int)
    requires IsCType(ty) && InType(ty, n) && p >= 1 && IsFloor(q, n, p)
    ensures InType(ty, q)
  {
    QuotientNearer(n, p, q);
  }

  lemma {:induction false} QuotientNearer(n: int, p: int, q: int)
    requires p >= 1 && IsFloor(q, n, p)
    ensures 0 <= n ==> 0 <= q <= n
    ensures n < 0 ==> n <= q < 0
  {
    if n >= 0 {
      if q < 0 {
        MulMono(q + 1, 0, p);
      }
      MulMono(1, p, q);
    } else {
      if q >= 0 {
        MulMono(0, q, p);
      }
      if q < n {
        MulMono(1, p, -(q + 1));
      }
    }
  }

  /** Where names hold values of their types, every expression does. */
  lemma {:induction false} EvalTyped(e: Expr, env: Env)
    requires Typed(env) && LiteralsFit(e)
    ensures TypedValue(Eval(e, env))
  {
    match e
    case Ref(name) =>
    case Lit(n) => LiteralIs(n, env);
    case Bin(op, l, r) =>
      EvalTyped(l, env);
      EvalTyped(r, env);
      BinTypedAny(op, l, r, env);
    case Neg(x) => EvalTyped(x, env); NegationTyped(x, env);
    case Not(x) => NotTyped(x, env);
    case Compl(x) => EvalTyped(x, env); ComplementTyped(x, env);
    case Coalesce(_, d) => EvalTyped(d, env);
  }

  lemma {:induction false} LogicTyped(op: BinOp, l: Expr, r: Expr, env: Env)
    requires Eval(l, env).Some? && op in {LogAnd, LogOr}
    ensures TypedValue(Eval(Bin(op, l, r), env))
  {
    FlagsTyped(0);
    FlagsTyped(1);
    var a := Eval(l, env).value;
    DecidedLeft(l, r, env, a);
    if (op.LogAnd? && a.n != 0) || (op.LogOr? && a.n == 0) {
      DecidedRight(op, l, r, env, a);
    }
  }

  lemma {:induction false} BinTypedAny(op: BinOp, l: Expr, r: Expr, env: Env)
    requires TypedValue(Eval(l, env)) && TypedValue(Eval(r, env))
    ensures TypedValue(Eval(Bin(op, l, r), env))
  {
    NothingFromNothing(op, l, r, env);
    if Eval(l, env).Some? {
      if op in {LogAnd, LogOr} {
        LogicTyped(op, l, r, env);
      } else if Eval(r, env).Some? {
        BinTyped(op, l, r, env);
      }
    }
  }

  lemma {:induction false} NegationTyped(x: Expr, env: Env)
    requires TypedValue(Eval(x, env))
    ensures TypedValue(Eval(Neg(x), env))
  {
    NothingFromNothing(Add, x, x, env);
    if Eval(x, env).Some? {
      var a := Eval(x, env).value;
      CommonIs(a.ty, a.ty);
      NegationIs(x, env, a, Promote(a.ty));
      YieldsTyped(Eval(Neg(x), env), Promote(a.ty), -a.n);
    }
  }

  lemma {:induction false} ComplementTyped(x: Expr, env: Env)
    requires TypedValue(Eval(x, env))
    ensures TypedValue(Eval(Compl(x), env))
  {
    NothingFromNothing(Add, x, x, env);
    if Eval(x, env).Some? {
      var a := Eval(x, env).value;
      CommonIs(a.ty, a.ty);
      var n := ComplementIs(x, env, a, Promote(a.ty));
    }
  }

  lemma {:induction false} NotTyped(x: Expr, env: Env)
    ensures TypedValue(Eval(Expr.Not(x), env))
  {
    NothingFromNothing(Add, x, x, env);
    if Eval(x, env).Some? {
      DecidedLeft(x, x, env, Eval(x, env).value);
      FlagsTyped(0);
      FlagsTyped(1);
    }
  }

  // ----- lengths of the example protocols

  /** A 16-bit length less the 8 bytes of a header: of a shorter length, a size no buffer has. */
  lemma {:induction false} LengthLessHeader(env: Env, n: nat)
    requires env.Lookup("length") == Some(Bound(CVal(CType(16, false), n))) && n < 0x1_0000
    ensures Size(Bin(Sub, Ref("length"), Lit(8)), env) == Some(if n >= 8 then n - 8 else 0x1_0000_0000_0000_0000 - (8 - n))
  {
    var l, r := Ref("length"), Lit(8);
    SumIs(Sub, l, r, env, CVal(CType(16, false), n), CVal(INT, 8), INT, n, 8, n - 8);
    SizeIs(Bin(Sub, l, r), env, n - 8);
  }

  /** The options of a TCP header by its length in words. */
  lemma {:induction false} OptionsLength(env: Env, n: nat)
    requires env.Lookup("data_offset") == Some(Bound(CVal(CType(8, false), n))) && n < 16
    ensures Size(Bin(Sub, Bin(Mul, Ref("data_offset"), Lit(4)), Lit(20)), env)
         == Some(if n >= 5 then 4 * n - 20 else 0x1_0000_0000_0000_0000 - (20 - 4 * n))
  {
    var d, p := Ref("data_offset"), Bin(Mul, Ref("data_offset"), Lit(4));
    var v := CVal(CType(8, false), n);
    SumIs(Mul, d, Lit(4), env, v, CVal(INT, 4), INT, n, 4, 4 * n);
    SumIs(Sub, p, Lit(20), env, CVal(INT, 4 * n), CVal(INT, 20), INT, 4 * n, 20, 4 * n - 20);
    SizeIs(Bin(Sub, p, Lit(20)), env, 4 * n - 20);
  }

  /** The options are only read where they have a length. */
  lemma {:induction false} OptionsRequired(env: Env, n: nat)
    requires env.Lookup("data_offset") == Some(Bound(CVal(CType(8, false), n))) && n < 16
    ensures Truth(Bin(Ge, Ref("data_offset"), Lit(5)), env) == Some(n >= 5)
  {
    ComparisonIs(Ge, Ref("data_offset"), Lit(5), env, CVal(CType(8, false), n), CVal(INT, 5), INT, n, 5);
  }

  lemma {:induction false} SizeIs(e: Expr, env: Env, n: int)
    requires Eval(e, env).Some? && Eval(e, env).value.n == n && -0x8000_0000 <= n < 0x8000_0000
    ensures Size(e, env) == Some(if n >= 0 then n else 0x1_0000_0000_0000_0000 + n)
  {
    UsesAre(e, env, n);
    if n < 0 {
      SameNumber(n, 0x1_0000_0000_0000_0000, Size(e, env).value, 0x1_0000_0000_0000_0000 + n);
    }
  }
}
