/** Expressions over earlier fields, with the meaning the C backend's text has: integer promotions,
    usual arithmetic conversions and casts on a machine with 32-bit int and 64-bit long. */
module Expr {
  import opened Bits
  import opened Outcome

  /** An integer type; one bit is bool. */
  datatype CType = CType(bits: nat, signed: bool)

  const BOOL: CType := CType(1, false)
  const INT: CType := CType(32, true)
  const UINT: CType := CType(32, false)
  const LONG: CType := CType(64, true)
  const ULONG: CType := CType(64, false)

  datatype CVal = CVal(ty: CType, n: int)

  datatype BinOp = Add | Sub | Mul | Div | Mod | BitAnd | BitOr | BitXor | Shl | Shr
                 | Eq | Ne | Lt | Le | Gt | Ge | LogAnd | LogOr

  datatype Expr =
    | Ref(name: string)
    | Lit(n: int)
    | Bin(op: BinOp, left: Expr, right: Expr)
    | Neg(operand: Expr)
    | Not(operand: Expr)
    | Compl(operand: Expr)
    | Coalesce(field: string, default: Expr)

  /** A name in scope: its value, or an optional field that is not present. */
  datatype Binding = Bound(v: CVal) | Missing

  /** Names of the enclosing header or frame tag take precedence over the scope's own. */
  datatype Env = Env(header: map<string, Binding>, local: map<string, Binding>) {
    function Lookup(name: string): Option<Binding> {
      if name in header then Some(header[name])
      else if name in local then Some(local[name])
      else None
    }
  }

  const NO_NAMES: Env := Env(map[], map[])

  // ----- conversions

  function Modulus(bits: nat): (m: int)
    ensures m >= 1
  {
    if bits == 1 then 2
    else if bits <= 8 then 0x100
    else if bits <= 16 then 0x1_0000
    else if bits <= 32 then 0x1_0000_0000
    else 0x1_0000_0000_0000_0000
  }

  function Wrap(ty: CType, n: int): int {
    var u := n % Modulus(ty.bits);
    if ty.signed && u >= Modulus(ty.bits) / 2 then u - Modulus(ty.bits) else u
  }

  function Convert(ty: CType, v: CVal): CVal {
    if ty == BOOL then CVal(BOOL, if v.n != 0 then 1 else 0) else CVal(ty, Wrap(ty, v.n))
  }

  /** A result of the type, or nothing where C leaves signed overflow undefined. */
  function Fit(ty: CType, n: int): Option<CVal> {
    if !ty.signed then Some(CVal(ty, Wrap(ty, n)))
    else if Wrap(ty, n) == n then Some(CVal(ty, n))
    else None
  }

  function Promote(ty: CType): CType {
    if ty.bits < 32 then INT else ty
  }

  function Common(a: CType, b: CType): CType {
    var x, y := Promote(a), Promote(b);
    if x == ULONG || y == ULONG then ULONG
    else if x == LONG || y == LONG then LONG
    else if x == UINT || y == UINT then UINT
    else INT
  }

  /** A negative literal is a minus sign before its magnitude, which must be an int for the whole to be one. */
  function LiteralType(n: int): CType {
    if n > 0xFFFF then ULONG
    else if n < -0x7FFF_FFFF then LONG
    else INT
  }

  function FromBool(b: bool): CVal { CVal(INT, if b then 1 else 0) }

  // ----- operators

  function Abs(n: int): nat { if n < 0 then -n else n }

  /** Division truncates toward zero. */
  function TruncDiv(a: int, b: int): int
    requires b != 0
  {
    var q: int := Abs(a) / Abs(b);
    if (a < 0) == (b < 0) then q else -q
  }

  function Bitwise(op: BinOp, ty: CType, a: int, b: int): CVal
    requires op in {BitAnd, BitOr, BitXor}
  {
    var x: nat, y: nat := a % Modulus(ty.bits), b % Modulus(ty.bits);
    var r := match op case BitAnd => And(x, y) case BitOr => Or(x, y) case _ => Xor(x, y);
    CVal(ty, Wrap(ty, r))
  }

  function Shift(op: BinOp, v: CVal, count: CVal): Option<CVal>
    requires op in {Shl, Shr}
  {
    var ty := Promote(v.ty);
    if !(0 <= count.n < ty.bits) then None
    else if op.Shr? then Some(CVal(ty, v.n / Pow2(count.n)))
    else if ty.signed && v.n < 0 then None
    else Fit(ty, v.n * Pow2(count.n))
  }

  function Arith(op: BinOp, l: CVal, r: CVal): Option<CVal> {
    var ty := Common(l.ty, r.ty);
    var a, b := Wrap(ty, l.n), Wrap(ty, r.n);
    match op
    case Add => Fit(ty, a + b)
    case Sub => Fit(ty, a - b)
    case Mul => Fit(ty, a * b)
    case Div => if b == 0 then None else Fit(ty, TruncDiv(a, b))
    case Mod => if b == 0 || Fit(ty, TruncDiv(a, b)).None? then None else Fit(ty, a - b * TruncDiv(a, b))
    case BitAnd => Some(Bitwise(BitAnd, ty, a, b))
    case BitOr => Some(Bitwise(BitOr, ty, a, b))
    case BitXor => Some(Bitwise(BitXor, ty, a, b))
    case Shl => Shift(Shl, l, r)
    case Shr => Shift(Shr, l, r)
    case Eq => Some(FromBool(a == b))
    case Ne => Some(FromBool(a != b))
    case Lt => Some(FromBool(a < b))
    case Le => Some(FromBool(a <= b))
    case Gt => Some(FromBool(a > b))
    case Ge => Some(FromBool(a >= b))
    case LogAnd => Some(FromBool(l.n != 0 && r.n != 0))
    case LogOr => Some(FromBool(l.n != 0 || r.n != 0))
  }

  /** The value of an expression, or nothing where the C text has no defined value: an unbound name,
      an absent optional read without `??`, division by zero, signed overflow, a bad shift count. */
  function Eval(e: Expr, env: Env): Option<CVal> {
    match e
    case Ref(name) =>
      (match env.Lookup(name) case Some(Bound(v)) => Some(v) case _ => None)
    case Lit(n) => Some(CVal(LiteralType(n), n))
    case Bin(op, l, r) =>
      (match Eval(l, env)
       case None => None
       case Some(a) =>
         if (op.LogAnd? && a.n == 0) || (op.LogOr? && a.n != 0) then Some(FromBool(op.LogOr?))
         else match Eval(r, env) case None => None case Some(b) => Arith(op, a, b))
    case Neg(x) =>
      (match Eval(x, env) case None => None case Some(a) => Fit(Promote(a.ty), -a.n))
    case Not(x) =>
      (match Eval(x, env) case None => None case Some(a) => Some(FromBool(a.n == 0)))
    case Compl(x) =>
      (match Eval(x, env) case None => None case Some(a) => Some(CVal(Promote(a.ty), Wrap(Promote(a.ty), -a.n - 1))))
    case Coalesce(field, d) =>
      match env.Lookup(field)
      case Some(Bound(v)) => Some(v)
      case Some(Missing) => Eval(d, env)
      case None => None
  }

  /** `if (e)`. */
  function Truth(e: Expr, env: Env): Option<bool> {
    match Eval(e, env) case None => None case Some(v) => Some(v.n != 0)
  }

  /** `(size_t)e`. */
  function Size(e: Expr, env: Env): Option<nat> {
    match Eval(e, env) case None => None case Some(v) => Some(v.n % 0x1_0000_0000_0000_0000)
  }

  /** `(uint32_t)e`. */
  function Count(e: Expr, env: Env): Option<nat> {
    match Eval(e, env) case None => None case Some(v) => Some(v.n % 0x1_0000_0000)
  }

  // ----- which names an expression depends on

  predicate Mentions(e: Expr, name: string) {
    match e
    case Ref(x) => x == name
    case Lit(_) => false
    case Bin(_, l, r) => Mentions(l, name) || Mentions(r, name)
    case Neg(x) => Mentions(x, name)
    case Not(x) => Mentions(x, name)
    case Compl(x) => Mentions(x, name)
    case Coalesce(f, d) => f == name || Mentions(d, name)
  }

  /** Two environments that differ at most in one name of the local scope. */
  predicate AgreeExcept(a: Env, b: Env, name: string) {
    a.header == b.header && a.local - {name} == b.local - {name}
  }

  lemma {:induction false} EvalIgnores(e: Expr, a: Env, b: Env, name: string)
    requires AgreeExcept(a, b, name) && !Mentions(e, name)
    ensures Eval(e, a) == Eval(e, b)
  {
    match e
    case Ref(x) => LookupAgrees(a, b, name, x);
    case Lit(_) =>
    case Bin(_, l, r) => EvalIgnores(l, a, b, name); EvalIgnores(r, a, b, name);
    case Neg(x) => EvalIgnores(x, a, b, name);
    case Not(x) => EvalIgnores(x, a, b, name);
    case Compl(x) => EvalIgnores(x, a, b, name);
    case Coalesce(f, d) => LookupAgrees(a, b, name, f); EvalIgnores(d, a, b, name);
  }

  lemma {:induction false} LookupAgrees(a: Env, b: Env, name: string, x: string)
    requires AgreeExcept(a, b, name) && x != name
    ensures a.Lookup(x) == b.Lookup(x)
  {
    assert x in a.local <==> x in a.local - {name};
    assert x in b.local <==> x in b.local - {name};
    if x in a.local {
      assert a.local[x] == (a.local - {name})[x] == (b.local - {name})[x];
    }
  }
}
