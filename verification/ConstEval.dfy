/**
  The integer part of the constant evaluator of jita/cheader/convert.py: C arithmetic on `_Int`
  values, whose types are those of C11 with int, long and long long of 32 or 64 bits.
 */
module ConstEval {
  import opened Bits
  import opened Wrappers

  /** An `_Int`: a value with its width and signedness. */
  datatype CInt = CInt(value: int, bits: nat, unsigned: bool)

  datatype CType = CType(bits: nat, unsigned: bool)

  predicate IsType(t: CType)
  {
    t.bits == 32 || t.bits == 64
  }

  predicate Represents(t: CType, v: int)
    requires 0 < t.bits
  {
    if t.unsigned then 0 <= v < Pow2(t.bits) else -Pow2(t.bits - 1) <= v < Pow2(t.bits - 1)
  }

  function TypeOfInt(a: CInt): CType
  {
    CType(a.bits, a.unsigned)
  }

  predicate IsInt(a: CInt)
  {
    IsType(TypeOfInt(a)) && Represents(TypeOfInt(a), a.value)
  }

  /** `_Int(value, bits, unsigned)` */
  function NewInt(value: int, bits: nat, unsigned: bool): CInt
  {
    hide Pow2;
    var width := if bits < 32 then 32 else bits;
    var v := value % Pow2(width);
    CInt(if !unsigned && v / Pow2(width - 1) != 0 then v - Pow2(width) else v, width, unsigned)
  }

  predicate Congruent(a: int, b: int, bits: nat)
  {
    (a - b) % Pow2(bits) == 0
  }

  lemma TypePowers(bits: nat)
    requires bits == 32 || bits == 64
    ensures Pow2(bits) == (if bits == 32 then 0x1_0000_0000 else 0x1_0000_0000_0000_0000)
    ensures Pow2(bits - 1) == (if bits == 32 then 0x8000_0000 else 0x8000_0000_0000_0000)
  {
    PowTable();
  }

  /** The constructor gives the one value of the type that is congruent to the number. */
  lemma NewIntFits(value: int, bits: nat, unsigned: bool)
    requires bits <= 32 || bits == 64
    ensures var r := NewInt(value, bits, unsigned);
      && IsInt(r) && r.bits == (if bits < 32 then 32 else bits) && r.unsigned == unsigned
      && Congruent(r.value, value, r.bits)
      && (Represents(TypeOfInt(r), value) ==> r.value == value)
  {
    hide Pow2;
    var width := if bits < 32 then 32 else bits;
    TypePowers(width);
    if width == 32 {
      Reduced(value, 0x8000_0000);
    } else {
      Reduced(value, 0x8000_0000_0000_0000);
    }
  }

  lemma Reduced(value: int, half: int)
    requires half == 0x8000_0000 || half == 0x8000_0000_0000_0000
    ensures var v := value % (2 * half);
      && (v / half != 0 <==> half <= v)
      && (v - value) % (2 * half) == 0 && (v - 2 * half - value) % (2 * half) == 0
      && (0 <= value < 2 * half ==> v == value) && (-half <= value < 0 ==> v - 2 * half == value)
  {
    var q := value / (2 * half);
    DivModUnique(value % (2 * half) - value, 2 * half, -q, 0);
    DivModUnique(value % (2 * half) - 2 * half - value, 2 * half, -q - 1, 0);
  }

  // ----- Types -----

  /** `_common` */
  function Common(a: CType, b: CType): CType
  {
    if a.unsigned == b.unsigned then CType(if a.bits < b.bits then b.bits else a.bits, a.unsigned)
    else
      var s, u := if a.unsigned then b else a, if a.unsigned then a else b;
      if u.bits >= s.bits then CType(u.bits, true) else CType(s.bits, false)
  }

  /** Every value of t is a value of u. */
  ghost predicate Includes(u: CType, t: CType)
    requires IsType(u) && IsType(t)
  {
    forall v: int | Represents(t, v) :: Represents(u, v)
  }

  /**
    The usual arithmetic conversions of C11 6.3.1.8, with widths for ranks: the common type is one of
    the two; it is signed exactly if a signed operand's type includes the other, and then values
    stay as they are. The order of the operands does not matter.
   */
  lemma UsualConversions(a: CType, b: CType)
    requires IsType(a) && IsType(b)
    ensures IsType(Common(a, b)) && Common(a, b) == Common(b, a)
    ensures Common(a, b) == a || Common(a, b) == b
    ensures a.bits <= Common(a, b).bits && b.bits <= Common(a, b).bits
    ensures !Common(a, b).unsigned <==> (!a.unsigned && Includes(a, b)) || (!b.unsigned && Includes(b, a))
    ensures !Common(a, b).unsigned ==> Includes(Common(a, b), a) && Includes(Common(a, b), b)
  {
    hide Pow2;
    TypePowers(32);
    TypePowers(64);
    if a.unsigned && !b.unsigned && a.bits >= b.bits {
      assert Represents(a, Pow2(a.bits) - 1) && !Represents(b, Pow2(a.bits) - 1);
    }
    if b.unsigned && !a.unsigned && b.bits >= a.bits {
      assert Represents(b, Pow2(b.bits) - 1) && !Represents(a, Pow2(b.bits) - 1);
    }
    if a.unsigned && b.unsigned {
    } else if !a.unsigned && !b.unsigned {
      assert Includes(Common(a, b), a) && Includes(Common(a, b), b);
    }
  }

  // ----- Expressions -----

  datatype UnOp = Neg | Plus | Compl | Not

  datatype BinOp =
    | Add | Sub | Mul | Div | Rem | BitwiseAnd | BitwiseOr | BitwiseXor | Shl | Shr
    | Lt | Gt | Le | Ge | Eq | Ne | AndAnd | OrOr

  /** A cast's target: `_Bool`, or an integer type of 8 to 64 bits. */
  datatype CastType = Bool | Integer(bits: nat, unsigned: bool)

  datatype Expr =
    | Const(value: CInt)
    | Unary(op: UnOp, expr: Expr)
    | Binary(bin: BinOp, left: Expr, right: Expr)
    | Ternary(cond: Expr, iftrue: Expr, iffalse: Expr)
    | Cast(to: CastType, from: Expr)

  datatype Reason = DivisionByZero | NegativeShift

  datatype Outcome = Ok(value: CInt) | Unsupported(reason: Reason)

  predicate IsExpr(e: Expr)
  {
    match e
    case Const(v) => IsInt(v)
    case Unary(_, x) => IsExpr(x)
    case Binary(_, l, r) => IsExpr(l) && IsExpr(r)
    case Ternary(c, t, f) => IsExpr(c) && IsExpr(t) && IsExpr(f)
    case Cast(to, x) => IsExpr(x) && (to.Integer? ==> to.bits == 8 || to.bits == 16 || to.bits == 32 || to.bits == 64)
  }

  function Truth(b: bool): CInt
  {
    NewInt(if b then 1 else 0, 32, false)
  }

  function UnaryOf(op: UnOp, a: CInt): CInt
  {
    match op
    case Neg => NewInt(-a.value, a.bits, a.unsigned)
    case Plus => a
    case Compl => NewInt(-a.value - 1, a.bits, a.unsigned)
    case Not => Truth(a.value == 0)
  }

  /** The quotient of the absolute values, negated if the signs differ. */
  function Quotient(x: int, y: int): int
    requires y != 0
  {
    Abs(x) / Abs(y) * (if (x < 0) == (y < 0) then 1 else -1)
  }

  /** What the truncated quotient leaves over. */
  function Remainder(x: int, y: int): int
    requires y != 0
  {
    x - Quotient(x, y) * y
  }

  function Abs(x: int): nat
  {
    if x < 0 then -x else x
  }

  predicate Compared(op: BinOp, x: int, y: int)
  {
    match op
    case Lt => x < y
    case Gt => x > y
    case Le => x <= y
    case Ge => x >= y
    case Eq => x == y
    case _ => x != y
  }

  function BitOp(op: BinOp, p: bool, q: bool): bool
  {
    if op.BitwiseAnd? then p && q else if op.BitwiseOr? then p || q else p != q
  }

  /** How far an integer is from 0 or -1, the two that halving leaves alone. */
  function Size(x: int): nat
  {
    if x < 0 then -x - 1 else x
  }

  /** Python's `&`, `|` and `^` on integers of any size and sign, from the last bit up. */
  function Bitwise(op: BinOp, x: int, y: int): int
    decreases Size(x) + Size(y)
  {
    if Size(x) == 0 && Size(y) == 0 then if BitOp(op, x == -1, y == -1) then -1 else 0
    else (if BitOp(op, x % 2 == 1, y % 2 == 1) then 1 else 0) + 2 * Bitwise(op, x / 2, y / 2)
  }

  function Shifted(op: BinOp, x: int, n: nat): int
  {
    if op.Shl? then x * Pow2(n) else x / Pow2(n)
  }

  function BinaryOf(op: BinOp, a: CInt, b: CInt, dead: bool): Outcome
  {
    hide Pow2, Bitwise, NewInt;
    if op.AndAnd? then Ok(Truth(a.value != 0 && b.value != 0))
    else if op.OrOr? then Ok(Truth(a.value != 0 || b.value != 0))
    else if op.Shl? || op.Shr? then
      if b.value < 0 then if dead then Ok(NewInt(0, a.bits, a.unsigned)) else Unsupported(NegativeShift)
      else
        Ok(NewInt(Shifted(op, a.value, b.value), a.bits, a.unsigned))
    else
      var t := Common(TypeOfInt(a), TypeOfInt(b));
      var x, y := NewInt(a.value, t.bits, t.unsigned).value, NewInt(b.value, t.bits, t.unsigned).value;
      if op.Lt? || op.Gt? || op.Le? || op.Ge? || op.Eq? || op.Ne? then Ok(Truth(Compared(op, x, y)))
      else if op.Div? || op.Rem? then
        if y == 0 then if dead then Ok(NewInt(0, t.bits, t.unsigned)) else Unsupported(DivisionByZero)
        else
          Ok(NewInt(if op.Div? then Quotient(x, y) else Remainder(x, y), t.bits, t.unsigned))
      else
        var r := match op case Add => x + y case Sub => x - y case Mul => x * y case _ => Bitwise(op, x, y);
        Ok(NewInt(r, t.bits, t.unsigned))
  }

  function CastOf(to: CastType, a: CInt): CInt
  {
    hide Pow2;
    match to
    case Bool => Truth(a.value != 0)
    case Integer(bits, unsigned) =>
      if bits < 32 then
        var n := NewInt(a.value % Pow2(bits), 32, false);
        if !unsigned && 0 < bits && n.value / Pow2(bits - 1) != 0 then NewInt(n.value - Pow2(bits), 32, false) else n
      else NewInt(a.value, bits, unsigned)
  }

  /** `const`; `dead`: inside a branch of a conditional that is not taken. */
  function Eval(e: Expr, dead: bool): Outcome
  {
    match e
    case Const(v) => Ok(v)
    case Unary(op, x) =>
      (match Eval(x, dead)
       case Unsupported(why) => Unsupported(why)
       case Ok(a) => Ok(UnaryOf(op, a)))
    case Binary(op, l, r) =>
      (match Eval(l, dead)
       case Unsupported(why) => Unsupported(why)
       case Ok(a) =>
         match Eval(r, dead)
         case Unsupported(why) => Unsupported(why)
         case Ok(b) => BinaryOf(op, a, b, dead))
    case Ternary(c, t, f) =>
      (match Eval(c, dead)
       case Unsupported(why) => Unsupported(why)
       case Ok(cond) =>
         var taken := cond.value != 0;
         match Eval(if taken then f else t, true)
         case Unsupported(why) => Unsupported(why)
         case Ok(other) =>
           match Eval(if taken then t else f, dead)
           case Unsupported(why) => Unsupported(why)
           case Ok(chosen) =>
             var u := Common(TypeOfInt(if taken then chosen else other), TypeOfInt(if taken then other else chosen));
             Ok(NewInt(chosen.value, u.bits, u.unsigned)))
    case Cast(to, x) =>
      (match Eval(x, dead)
       case Unsupported(why) => Unsupported(why)
       case Ok(a) => Ok(CastOf(to, a)))
  }

  // ----- Range and type -----

  /** The C type of an expression, from the types of its operands alone (C11 6.3.1.1, 6.3.1.8, 6.5.15). */
  function StaticType(e: Expr): CType
  {
    match e
    case Const(v) => TypeOfInt(v)
    case Unary(op, x) => if op.Not? then CType(32, false) else StaticType(x)
    case Binary(op, l, r) =>
      (match op
       case Shl => StaticType(l)
       case Shr => StaticType(l)
       case Add => Common(StaticType(l), StaticType(r))
       case Sub => Common(StaticType(l), StaticType(r))
       case Mul => Common(StaticType(l), StaticType(r))
       case Div => Common(StaticType(l), StaticType(r))
       case Rem => Common(StaticType(l), StaticType(r))
       case BitwiseAnd => Common(StaticType(l), StaticType(r))
       case BitwiseOr => Common(StaticType(l), StaticType(r))
       case BitwiseXor => Common(StaticType(l), StaticType(r))
       case _ => CType(32, false))
    case Ternary(_, t, f) => Common(StaticType(t), StaticType(f))
    case Cast(to, _) => if to.Bool? || to.bits < 32 then CType(32, false) else CType(to.bits, to.unsigned)
  }

  lemma UnaryTyped(op: UnOp, a: CInt)
    requires IsInt(a)
    ensures IsInt(UnaryOf(op, a)) && TypeOfInt(UnaryOf(op, a)) == if op.Not? then CType(32, false) else TypeOfInt(a)
  {
    hide Pow2, NewInt, Represents;
    NewIntFits(-a.value, a.bits, a.unsigned);
    NewIntFits(-a.value - 1, a.bits, a.unsigned);
    TruthTyped(a.value == 0);
  }

  lemma TruthTyped(b: bool)
    ensures IsInt(Truth(b)) && TypeOfInt(Truth(b)) == CType(32, false) && Truth(b).value == if b then 1 else 0
  {
    hide Pow2, NewInt;
    TypePowers(32);
    NewIntFits(if b then 1 else 0, 32, false);
  }

  function BinaryType(op: BinOp, a: CType, b: CType): CType
  {
    if op.Shl? || op.Shr? then a
    else if op.Add? || op.Sub? || op.Mul? || op.Div? || op.Rem? || op.BitwiseAnd? || op.BitwiseOr? || op.BitwiseXor?
    then Common(a, b)
    else CType(32, false)
  }

  lemma BinaryTyped(op: BinOp, a: CInt, b: CInt, dead: bool)
    requires IsInt(a) && IsInt(b) && BinaryOf(op, a, b, dead).Ok?
    ensures IsInt(BinaryOf(op, a, b, dead).value)
    ensures TypeOfInt(BinaryOf(op, a, b, dead).value) == BinaryType(op, TypeOfInt(a), TypeOfInt(b))
  {
    hide Pow2, NewInt, Represents, Bitwise, Quotient, Remainder, Truth, Compared, Common, IsInt, Shifted;
    TruthTyped(true);
    TruthTyped(false);
    CommonIsType(a, b);
    var t := Common(TypeOfInt(a), TypeOfInt(b));
    forall v: int
      ensures IsInt(NewInt(v, t.bits, t.unsigned)) && TypeOfInt(NewInt(v, t.bits, t.unsigned)) == t
      ensures IsInt(NewInt(v, a.bits, a.unsigned)) && TypeOfInt(NewInt(v, a.bits, a.unsigned)) == TypeOfInt(a)
    {
      NewIntFits(v, t.bits, t.unsigned);
      NewIntFits(v, a.bits, a.unsigned);
    }
  }

  lemma CommonIsType(a: CInt, b: CInt)
    requires IsInt(a) && IsInt(b)
    ensures IsType(TypeOfInt(a)) && IsType(TypeOfInt(b)) && IsType(Common(TypeOfInt(a), TypeOfInt(b)))
  {
    UsualConversions(TypeOfInt(a), TypeOfInt(b));
  }

  lemma CastTyped(to: CastType, a: CInt)
    requires to.Integer? ==> to.bits == 8 || to.bits == 16 || to.bits == 32 || to.bits == 64
    ensures IsInt(CastOf(to, a))
    ensures TypeOfInt(CastOf(to, a)) == if to.Bool? || to.bits < 32 then CType(32, false)
      else CType(to.bits, to.unsigned)
  {
    hide Pow2, NewInt, Represents, Truth;
    TruthTyped(a.value != 0);
    if to.Integer? {
      if to.bits < 32 {
        var n := NewInt(a.value % Pow2(to.bits), 32, false);
        NewIntFits(a.value % Pow2(to.bits), 32, false);
        NewIntFits(n.value - Pow2(to.bits), 32, false);
      } else {
        NewIntFits(a.value, to.bits, to.unsigned);
      }
    }
  }

  lemma {:induction false} StaticIsType(e: Expr)
    requires IsExpr(e)
    ensures IsType(StaticType(e))
  {
    match e {
      case Const(_) =>
      case Unary(_, x) => StaticIsType(x);
      case Binary(_, l, r) => StaticIsType(l); StaticIsType(r);
      case Ternary(_, t, f) => StaticIsType(t); StaticIsType(f);
      case Cast(_, _) =>
    }
  }

  /** Every value is in the range of its type, and the type depends on the operands' types alone. */
  lemma {:induction false} EvalTyped(e: Expr, dead: bool)
    requires IsExpr(e) && Eval(e, dead).Ok?
    ensures IsInt(Eval(e, dead).value) && TypeOfInt(Eval(e, dead).value) == StaticType(e)
  {
    hide BinaryOf, UnaryOf, CastOf, NewInt, Represents, IsInt, Common;
    match e {
      case Const(v) =>
      case Unary(op, x) => EvalTyped(x, dead); UnaryTyped(op, Eval(x, dead).value);
      case Binary(op, l, r) =>
        EvalTyped(l, dead);
        EvalTyped(r, dead);
        BinaryTyped(op, Eval(l, dead).value, Eval(r, dead).value, dead);
      case Ternary(c, t, f) =>
        EvalTyped(c, dead);
        var taken := Eval(c, dead).value.value != 0;
        EvalTyped(if taken then f else t, true);
        EvalTyped(if taken then t else f, dead);
        StaticIsType(t);
        StaticIsType(f);
        TernaryTyped(Eval(if taken then t else f, dead).value, StaticType(t), StaticType(f));
      case Cast(to, x) => EvalTyped(x, dead); CastTyped(to, Eval(x, dead).value);
    }
  }

  lemma TernaryTyped(chosen: CInt, t: CType, f: CType)
    requires IsType(t) && IsType(f)
    ensures var u := Common(t, f);
      IsInt(NewInt(chosen.value, u.bits, u.unsigned)) && TypeOfInt(NewInt(chosen.value, u.bits, u.unsigned)) == u
  {
    hide Pow2, NewInt, Represents;
    UsualConversions(t, f);
    NewIntFits(chosen.value, Common(t, f).bits, Common(t, f).unsigned);
  }

  // ----- Dead branches -----

  /** Nothing is an error in a dead branch, and what succeeds live has the same value and type there. */
  lemma {:induction false} DeadAgrees(e: Expr)
    ensures Eval(e, true).Ok?
    ensures Eval(e, false).Ok? ==> Eval(e, true) == Eval(e, false)
  {
    hide UnaryOf, CastOf, NewInt, Common;
    match e {
      case Const(_) =>
      case Unary(_, x) => DeadAgrees(x);
      case Binary(op, l, r) =>
        DeadAgrees(l);
        DeadAgrees(r);
        hide Eval;
        BinaryDead(op, Eval(l, true).value, Eval(r, true).value);
      case Ternary(c, t, f) => DeadAgrees(c); DeadAgrees(t); DeadAgrees(f);
      case Cast(_, x) => DeadAgrees(x);
    }
  }

  lemma BinaryDead(op: BinOp, a: CInt, b: CInt)
    ensures BinaryOf(op, a, b, true).Ok?
    ensures BinaryOf(op, a, b, false).Ok? ==> BinaryOf(op, a, b, true) == BinaryOf(op, a, b, false)
  {
    hide NewInt, Common, Bitwise, Quotient, Truth, Compared;
  }

  // ----- What the operations compute -----

  lemma CongruentUnique(t: CType, a: int, b: int)
    requires IsType(t) && Represents(t, a) && Represents(t, b) && Congruent(a, b, t.bits)
    ensures a == b
  {
    hide Pow2;
    TypePowers(t.bits);
  }

  lemma CongruentSums(a: int, x: int, b: int, y: int, m: int)
    requires 0 < m && (x - a) % m == 0 && (y - b) % m == 0
    ensures ((x + y) - (a + b)) % m == 0 && ((x - y) - (a - b)) % m == 0 && (x * y - a * b) % m == 0
  {
    var p, q := (x - a) / m, (y - b) / m;
    assert x == a + p * m && y == b + q * m;
    Distributes(p, q, m);
    DivModUnique((x + y) - (a + b), m, p + q, 0);
    DivModUnique((x - y) - (a - b), m, p - q, 0);
    ProductDifference(a, b, p, q, m);
    DivModUnique(x * y - a * b, m, p * y + a * q, 0);
  }

  lemma Distributes(p: int, q: int, m: int)
    ensures (p + q) * m == p * m + q * m && (p - q) * m == p * m - q * m
  {
  }

  lemma ProductDifference(a: int, b: int, p: int, q: int, m: int)
    ensures (a + p * m) * (b + q * m) - a * b == (p * (b + q * m) + a * q) * m
  {
    var y := b + q * m;
    assert (a + p * m) * y == a * y + (p * m) * y;
    assert (p * m) * y == (p * y) * m;
    assert a * y == a * b + (a * q) * m;
    Distributes(p * y, a * q, m);
  }

  lemma CongruentChain(a: int, b: int, c: int, m: int)
    requires 0 < m && (a - b) % m == 0 && (b - c) % m == 0
    ensures (a - c) % m == 0
  {
    var p, q := (a - b) / m, (b - c) / m;
    DivModUnique(a - c, m, p + q, 0) by { assert (p + q) * m == p * m + q * m; }
  }

  function Mathematical(op: BinOp, a: int, b: int): int
  {
    match op case Add => a + b case Sub => a - b case _ => a * b
  }

  /**
    +, - and * give the mathematical result reduced to the common type, and the result itself if
    the type can represent it.
   */
  lemma ArithmeticMeans(op: BinOp, a: CInt, b: CInt, dead: bool)
    requires IsInt(a) && IsInt(b) && (op.Add? || op.Sub? || op.Mul?)
    ensures BinaryOf(op, a, b, dead).Ok?
    ensures var r := BinaryOf(op, a, b, dead).value;
      && Congruent(r.value, Mathematical(op, a.value, b.value), r.bits)
      && 0 < r.bits
      && (Represents(TypeOfInt(r), Mathematical(op, a.value, b.value)) ==>
          r.value == Mathematical(op, a.value, b.value))
  {
    hide Pow2, NewInt, Represents, Common;
    var t := Common(TypeOfInt(a), TypeOfInt(b));
    UsualConversions(TypeOfInt(a), TypeOfInt(b));
    var x, y := NewInt(a.value, t.bits, t.unsigned).value, NewInt(b.value, t.bits, t.unsigned).value;
    NewIntFits(a.value, t.bits, t.unsigned);
    NewIntFits(b.value, t.bits, t.unsigned);
    CongruentSums(a.value, x, b.value, y, Pow2(t.bits));
    NewIntFits(Mathematical(op, x, y), t.bits, t.unsigned);
    var r := BinaryOf(op, a, b, dead).value;
    CongruentChain(r.value, Mathematical(op, x, y), Mathematical(op, a.value, b.value), Pow2(t.bits));
    if Represents(TypeOfInt(r), Mathematical(op, a.value, b.value)) {
      CongruentUnique(t, r.value, Mathematical(op, a.value, b.value));
    }
  }

  lemma Signs(d: int, n: int)
    ensures -d * n == -(d * n) && d * -n == -(d * n) && -d * -n == d * n
  {
  }

  lemma SignedParts(x: int, y: int)
    requires y != 0
    ensures Quotient(x, y) == if (x < 0) == (y < 0) then Abs(x) / Abs(y) else -(Abs(x) / Abs(y))
    ensures Remainder(x, y) == if x < 0 then -(Abs(x) % Abs(y)) else Abs(x) % Abs(y)
  {
    var m, n := Abs(x), Abs(y);
    Signs(m / n, n);
    assert m == m / n * n + m % n;
  }

  lemma DivisionBounds(m: nat, n: nat)
    requires 0 < n
    ensures 0 <= m % n < n && m % n <= m && 0 <= m / n
    ensures n == 1 ==> m / n == m
    ensures n >= 2 ==> 2 * (m / n) <= m
  {
    SplitBounds(m, n, m / n, m % n);
  }

  lemma SplitBounds(m: int, n: int, d: int, r: int)
    requires 0 <= m && 0 <= r < n && 0 <= d && m == d * n + r
    ensures r <= m && (n == 1 ==> d == m) && (n >= 2 ==> 2 * d <= m)
  {
    assert d * n == d + d * (n - 1);
    assert d * (n - 1) >= 0;
    assert n >= 2 ==> d * (n - 1) >= d;
  }

  /** The quotient truncates toward zero, and the remainder takes the sign of the dividend (C11 6.5.5). */
  lemma Truncates(x: int, y: int)
    requires y != 0
    ensures x == Quotient(x, y) * y + Remainder(x, y)
    ensures Abs(Remainder(x, y)) < Abs(y) && (Remainder(x, y) > 0 ==> x > 0) && (Remainder(x, y) < 0 ==> x < 0)
    ensures Quotient(x, y) != 0 ==> ((Quotient(x, y) < 0) <==> (x < 0) != (y < 0))
  {
    SignedParts(x, y);
    DivisionBounds(Abs(x), Abs(y));
    assert x == Quotient(x, y) * y + Remainder(x, y);
    hide Quotient, Remainder;
  }

  /** `/` and `%` on the converted operands: exact, but for the one quotient that is out of range. */
  lemma DivisionMeans(a: CInt, b: CInt, dead: bool)
    requires IsInt(a) && IsInt(b)
    ensures var t := Common(TypeOfInt(a), TypeOfInt(b));
      var x, y := NewInt(a.value, t.bits, t.unsigned).value, NewInt(b.value, t.bits, t.unsigned).value;
      && (y == 0 && !dead ==>
            && BinaryOf(Div, a, b, dead) == Unsupported(DivisionByZero)
            && BinaryOf(Rem, a, b, dead) == Unsupported(DivisionByZero))
      && (y == 0 && dead ==>
            && BinaryOf(Div, a, b, dead) == Ok(CInt(0, t.bits, t.unsigned))
            && BinaryOf(Rem, a, b, dead) == Ok(CInt(0, t.bits, t.unsigned)))
      && (y != 0 ==>
            && BinaryOf(Div, a, b, dead).Ok? && BinaryOf(Rem, a, b, dead).Ok?
            && BinaryOf(Rem, a, b, dead).value.value == Remainder(x, y)
            && (IsType(t) && BinaryOf(Div, a, b, dead).value.value
                  == if !t.unsigned && y == -1 && x == -Pow2(t.bits - 1) then x else Quotient(x, y)))
  {
    hide Pow2, NewInt, Common, Quotient, Remainder;
    var t := Common(TypeOfInt(a), TypeOfInt(b));
    UsualConversions(TypeOfInt(a), TypeOfInt(b));
    var x, y := NewInt(a.value, t.bits, t.unsigned).value, NewInt(b.value, t.bits, t.unsigned).value;
    NewIntFits(a.value, t.bits, t.unsigned);
    NewIntFits(b.value, t.bits, t.unsigned);
    NewIntFits(0, t.bits, t.unsigned);
    TypePowers(t.bits);
    if y != 0 {
      var q := Quotient(x, y);
      NewIntFits(q, t.bits, t.unsigned);
      NewIntFits(Remainder(x, y), t.bits, t.unsigned);
      QuotientRange(t, x, y);
      if q == Pow2(t.bits - 1) && !t.unsigned {
        Lowest(t.bits);
      }
    }
  }

  /** Only the lowest value over -1 leaves the range, to just above it. */
  lemma QuotientRange(t: CType, x: int, y: int)
    requires IsType(t) && Represents(t, x) && Represents(t, y) && y != 0
    ensures Represents(t, Remainder(x, y))
    ensures if !t.unsigned && y == -1 && x == -Pow2(t.bits - 1) then Quotient(x, y) == Pow2(t.bits - 1)
            else Represents(t, Quotient(x, y))
  {
    hide Pow2, Quotient, Remainder;
    TypePowers(t.bits);
    SignedParts(x, y);
    DivisionBounds(Abs(x), Abs(y));
    Spread(Abs(x), Abs(y), Abs(x) / Abs(y), Abs(x) % Abs(y), t, x, y);
  }

  /** The range argument on the absolute quotient and remainder alone. */
  lemma Spread(m: int, n: int, d: int, r: int, t: CType, x: int, y: int)
    requires IsType(t) && Represents(t, x) && Represents(t, y) && m == Abs(x) && n == Abs(y) && 0 < n
    requires 0 <= r < n && r <= m && 0 <= d && (n == 1 ==> d == m) && (n >= 2 ==> 2 * d <= m)
    ensures Represents(t, if x < 0 then -r else r)
    ensures !t.unsigned && y == -1 && x == -Pow2(t.bits - 1) ==> d == Pow2(t.bits - 1)
    ensures !(!t.unsigned && y == -1 && x == -Pow2(t.bits - 1)) ==> Represents(t, if (x < 0) == (y < 0) then d else -d)
  {
    hide Pow2;
    TypePowers(t.bits);
  }

  lemma Lowest(bits: nat)
    requires bits == 32 || bits == 64
    ensures NewInt(Pow2(bits - 1), bits, false).value == -Pow2(bits - 1)
  {
    hide Pow2;
    TypePowers(bits);
  }

  /**
    `<<` multiplies, reduced to the left operand's type; `>>` divides and rounds down; a negative
    count is an error.
   */
  lemma ShiftMeans(a: CInt, b: CInt, dead: bool)
    requires IsInt(a) && IsInt(b)
    ensures b.value < 0 && !dead ==>
      BinaryOf(Shl, a, b, dead) == BinaryOf(Shr, a, b, dead) == Unsupported(NegativeShift)
    ensures b.value < 0 && dead ==>
      BinaryOf(Shl, a, b, dead) == BinaryOf(Shr, a, b, dead) == Ok(CInt(0, a.bits, a.unsigned))
    ensures b.value >= 0 ==>
      && BinaryOf(Shl, a, b, dead).Ok? && BinaryOf(Shr, a, b, dead).Ok?
      && Congruent(BinaryOf(Shl, a, b, dead).value.value, a.value * Pow2(b.value), a.bits)
      && BinaryOf(Shr, a, b, dead).value.value == a.value / Pow2(b.value)
  {
    hide Pow2, NewInt;
    NewIntFits(0, a.bits, a.unsigned);
    TypePowers(a.bits);
    if b.value >= 0 {
      NewIntFits(a.value * Pow2(b.value), a.bits, a.unsigned);
      NewIntFits(a.value / Pow2(b.value), a.bits, a.unsigned);
      ShiftRange(a, b.value);
    }
  }

  lemma ShiftRange(a: CInt, n: nat)
    requires IsInt(a)
    ensures Represents(TypeOfInt(a), a.value / Pow2(n))
  {
    hide Pow2;
    TypePowers(a.bits);
    PowMonotone(0, n);
    assert Pow2(0) == 1 by { PowTable(); }
    FloorBounds(a.value, Pow2(n));
  }

  lemma FloorBounds(x: int, p: int)
    requires 1 <= p
    ensures x >= 0 ==> 0 <= x / p <= x
    ensures x < 0 ==> x <= x / p < 0
  {
    assert x == x / p * p + x % p;
    FloorParts(x, p, x / p, x % p);
  }

  lemma FloorParts(x: int, p: int, d: int, r: int)
    requires 1 <= p && 0 <= r < p && x == d * p + r
    ensures x >= 0 ==> 0 <= d <= x
    ensures x < 0 ==> x <= d < 0
  {
    if d >= 0 {
      Product(d, p - 1, d * p);
    } else {
      Product(-d - 1, p - 1, d * p);
      Product(-d - 1, p, d * p);
    }
  }

  lemma Product(a: int, b: int, dp: int)
    requires 0 <= a && 0 <= b
    ensures dp == a * (b + 1) ==> dp >= a
    ensures dp == (-a - 1) * (b + 1) ==> a + 1 + b + dp <= 0
    ensures dp == (-a - 1) * b ==> dp <= -b
  {
    assert a * b >= 0;
    assert a * (b + 1) == a * b + a;
    assert (-a - 1) * (b + 1) == -(a * b) - a - b - 1;
    assert (-a - 1) * b == -(a * b) - b;
  }

  /** Bit i of an integer in two's complement without end. */
  predicate Bit(v: int, i: nat)
    decreases i
  {
    if i == 0 then v % 2 == 1 else Bit(v / 2, i - 1)
  }

  lemma {:induction false} BitwiseBit(op: BinOp, x: int, y: int, i: nat)
    ensures Bit(Bitwise(op, x, y), i) == BitOp(op, Bit(x, i), Bit(y, i))
    decreases i
  {
    var low, high := if BitOp(op, x % 2 == 1, y % 2 == 1) then 1 else 0, Bitwise(op, x / 2, y / 2);
    assert Bitwise(op, x, y) == low + 2 * high;
    hide Bitwise;
    DivModUnique(low + 2 * high, 2, high, low);
    if i > 0 {
      BitwiseBit(op, x / 2, y / 2, i - 1);
    }
  }

  lemma {:induction false} CongruentBit(v: int, w: int, n: nat, i: nat)
    requires Congruent(v, w, n) && i < n
    ensures Bit(v, i) == Bit(w, i)
    decreases i
  {
    var d := v - w;
    HalveSplit(d, n);
    hide Pow2;
    assert d % 2 == 0 && (d / 2) % Pow2(n - 1) == 0;
    DivModUnique(v, 2, w / 2 + d / 2, w % 2);
    if i > 0 {
      CongruentBit(v / 2, w / 2, n - 1, i - 1);
    }
  }

  /** `&`, `|` and `^` work bit by bit on two's complement within the common width, for negative numbers too. */
  lemma BitwiseMeans(op: BinOp, a: CInt, b: CInt, dead: bool, i: nat)
    requires IsInt(a) && IsInt(b) && (op.BitwiseAnd? || op.BitwiseOr? || op.BitwiseXor?)
    ensures BinaryOf(op, a, b, dead).Ok?
    ensures var r := BinaryOf(op, a, b, dead).value;
      && TypeOfInt(r) == Common(TypeOfInt(a), TypeOfInt(b))
      && (i < r.bits ==>
            && (op.BitwiseAnd? ==> Bit(r.value, i) == (Bit(a.value, i) && Bit(b.value, i)))
            && (op.BitwiseOr? ==> Bit(r.value, i) == (Bit(a.value, i) || Bit(b.value, i)))
            && (op.BitwiseXor? ==> Bit(r.value, i) == (Bit(a.value, i) != Bit(b.value, i))))
  {
    hide Pow2, NewInt, Common, Bitwise, Bit, Congruent;
    var t := Common(TypeOfInt(a), TypeOfInt(b));
    UsualConversions(TypeOfInt(a), TypeOfInt(b));
    var x, y := NewInt(a.value, t.bits, t.unsigned).value, NewInt(b.value, t.bits, t.unsigned).value;
    NewIntFits(a.value, t.bits, t.unsigned);
    NewIntFits(b.value, t.bits, t.unsigned);
    var z := Bitwise(op, x, y);
    NewIntFits(z, t.bits, t.unsigned);
    if i < t.bits {
      CongruentBit(x, a.value, t.bits, i);
      CongruentBit(y, b.value, t.bits, i);
      CongruentBit(NewInt(z, t.bits, t.unsigned).value, z, t.bits, i);
      BitwiseBit(op, x, y, i);
    }
  }

  /** A cast to an integer type gives the one value of that type congruent to the operand, then promoted. */
  lemma CastMeans(bits: nat, unsigned: bool, a: CInt)
    requires bits == 8 || bits == 16 || bits == 32 || bits == 64
    ensures Represents(CType(bits, unsigned), CastOf(Integer(bits, unsigned), a).value)
    ensures Congruent(CastOf(Integer(bits, unsigned), a).value, a.value, bits)
  {
    hide NewInt, Pow2;
    TypePowers(32);
    if bits < 32 {
      PowTable();
      var m := a.value % Pow2(bits);
      NewIntFits(m, 32, false);
      NewIntFits(m - Pow2(bits), 32, false);
      NarrowMod(a.value, Pow2(bits));
      NarrowTop(m, Pow2(bits - 1));
    } else {
      NewIntFits(a.value, bits, unsigned);
    }
  }

  lemma NarrowMod(v: int, m: int)
    requires 0 < m
    ensures (v % m - v) % m == 0 && (v % m - m - v) % m == 0
  {
    DivModUnique(v % m - v, m, -(v / m), 0);
    DivModUnique(v % m - m - v, m, -(v / m) - 1, 0);
  }

  lemma NarrowTop(v: int, half: int)
    requires 0 < half && 0 <= v < 2 * half
    ensures v / half != 0 <==> half <= v
  {
    if v < half {
      DivModUnique(v, half, 0, v);
    } else {
      DivModUnique(v, half, 1, v - half);
    }
  }

  /** A conditional needs its condition and the branch taken to evaluate, nothing of the other branch but its type. */
  lemma ConditionalMeans(c: Expr, t: Expr, f: Expr)
    requires IsExpr(Ternary(c, t, f))
    ensures Eval(Ternary(c, t, f), false).Ok? <==>
      Eval(c, false).Ok? && Eval(if Eval(c, false).value.value != 0 then t else f, false).Ok?
    ensures Eval(Ternary(c, t, f), false).Ok? ==>
      var chosen := Eval(if Eval(c, false).value.value != 0 then t else f, false).value.value;
      var r := Eval(Ternary(c, t, f), false).value;
      && 0 < r.bits && Congruent(r.value, chosen, r.bits) && (Represents(TypeOfInt(r), chosen) ==> r.value == chosen)
      && TypeOfInt(r) == Common(StaticType(t), StaticType(f))
  {
    hide NewInt, Common, Represents, IsInt, Congruent;
    DeadAgrees(t);
    DeadAgrees(f);
    if Eval(Ternary(c, t, f), false).Ok? {
      EvalTyped(Ternary(c, t, f), false);
      StaticIsType(Ternary(c, t, f));
      var taken := Eval(c, false).value.value != 0;
      EvalTyped(if taken then t else f, false);
      EvalTyped(if taken then f else t, true);
      var u := Common(StaticType(t), StaticType(f));
      NewIntFits(Eval(if taken then t else f, false).value.value, u.bits, u.unsigned);
    }
  }

  // ----- Values in C -----

  /** The one value of the type that is congruent to the number (C11 6.3.1.3). */
  function Converted(v: int, t: CType): CInt
  {
    var all := Pow2(t.bits);
    CInt(if t.unsigned then v % all else (v + all / 2) % all - all / 2, t.bits, t.unsigned)
  }

  /** An int that is 1 or 0. */
  function Flag(b: bool): CInt
  {
    CInt(if b then 1 else 0, 32, false)
  }

  /** The constructor converts. */
  lemma Reduces(v: int, t: CType)
    requires IsType(t)
    ensures NewInt(v, t.bits, t.unsigned) == Converted(v, t)
  {
    hide Pow2;
    NewIntFits(v, t.bits, t.unsigned);
    TypePowers(t.bits);
    ConvertedFits(v, t);
    CongruentChain(NewInt(v, t.bits, t.unsigned).value, v, Converted(v, t).value, Pow2(t.bits));
    CongruentUnique(t, NewInt(v, t.bits, t.unsigned).value, Converted(v, t).value);
  }

  lemma ConvertedFits(v: int, t: CType)
    requires IsType(t)
    ensures Represents(t, Converted(v, t).value) && Congruent(v, Converted(v, t).value, t.bits)
  {
    hide Pow2;
    TypePowers(t.bits);
    var half := Pow2(t.bits - 1);
    if t.unsigned {
      DivModUnique(v - v % (2 * half), 2 * half, v / (2 * half), 0);
    } else {
      DivModUnique(v - Converted(v, t).value, 2 * half, (v + half) / (2 * half), 0);
    }
  }

  lemma TruthIsFlag(b: bool)
    ensures Truth(b) == Flag(b)
  {
    hide NewInt, Truth;
    TruthTyped(b);
  }

  lemma {:induction false} ComplementBit(v: int, i: nat)
    ensures Bit(-v - 1, i) == !Bit(v, i)
    decreases i
  {
    DivModUnique(-v - 1, 2, -(v / 2) - 1, 1 - v % 2);
    if i > 0 {
      ComplementBit(v / 2, i - 1);
    }
  }

  /**
    `-` gives the negated number reduced to the operand's type, and itself if the type can represent
    it; `+` the operand; `~` each bit the other way; `!` 1 exactly for 0.
   */
  lemma UnaryMeans(a: CInt, i: nat)
    requires IsInt(a)
    ensures var neg := UnaryOf(Neg, a);
      && TypeOfInt(neg) == TypeOfInt(a) && Congruent(neg.value, -a.value, a.bits)
      && (Represents(TypeOfInt(a), -a.value) ==> neg.value == -a.value)
    ensures UnaryOf(Plus, a) == a
    ensures TypeOfInt(UnaryOf(Compl, a)) == TypeOfInt(a)
    ensures i < a.bits ==> Bit(UnaryOf(Compl, a).value, i) == !Bit(a.value, i)
    ensures UnaryOf(Not, a) == CInt(if a.value == 0 then 1 else 0, 32, false)
  {
    hide Pow2, NewInt, Bit, Represents, Congruent;
    NewIntFits(-a.value, a.bits, a.unsigned);
    NewIntFits(-a.value - 1, a.bits, a.unsigned);
    TruthIsFlag(a.value == 0);
    if i < a.bits {
      CongruentBit(UnaryOf(Compl, a).value, -a.value - 1, a.bits, i);
      ComplementBit(a.value, i);
    }
  }

  /** Comparisons are those of the operands converted to the common type; of the numbers, if it has them both. */
  lemma ComparedMeans(a: CInt, b: CInt, dead: bool)
    requires IsInt(a) && IsInt(b)
    ensures var t := Common(TypeOfInt(a), TypeOfInt(b));
      && IsType(t)
      && var x, y := Converted(a.value, t).value, Converted(b.value, t).value;
      && BinaryOf(Lt, a, b, dead) == Ok(CInt(if x < y then 1 else 0, 32, false))
      && BinaryOf(Gt, a, b, dead) == Ok(CInt(if y < x then 1 else 0, 32, false))
      && BinaryOf(Le, a, b, dead) == Ok(CInt(if x <= y then 1 else 0, 32, false))
      && BinaryOf(Ge, a, b, dead) == Ok(CInt(if y <= x then 1 else 0, 32, false))
      && BinaryOf(Eq, a, b, dead) == Ok(CInt(if x == y then 1 else 0, 32, false))
      && BinaryOf(Ne, a, b, dead) == Ok(CInt(if x == y then 0 else 1, 32, false))
      && (Represents(t, a.value) ==> x == a.value) && (Represents(t, b.value) ==> y == b.value)
  {
    hide Pow2, NewInt, Common, Converted, Represents, IsInt, Truth;
    var t := Common(TypeOfInt(a), TypeOfInt(b));
    CommonIsType(a, b);
    Reduces(a.value, t);
    Reduces(b.value, t);
    NewIntFits(a.value, t.bits, t.unsigned);
    NewIntFits(b.value, t.bits, t.unsigned);
    TruthIsFlag(true);
    TruthIsFlag(false);
  }

  /** `&&` and `||` of two evaluated operands, and the cast to `_Bool`, go by whether they are 0. */
  lemma LogicalMeans(a: CInt, b: CInt, dead: bool)
    ensures BinaryOf(AndAnd, a, b, dead) == Ok(CInt(if a.value == 0 || b.value == 0 then 0 else 1, 32, false))
    ensures BinaryOf(OrOr, a, b, dead) == Ok(CInt(if a.value == 0 && b.value == 0 then 0 else 1, 32, false))
    ensures CastOf(Bool, a) == CInt(if a.value == 0 then 0 else 1, 32, false)
  {
    hide Truth;
    TruthIsFlag(true);
    TruthIsFlag(false);
  }

  function CUnary(op: UnOp, a: CInt): CInt
  {
    match op
    case Neg => Converted(0 - a.value, TypeOfInt(a))
    case Plus => a
    case Compl => Converted(-1 - a.value, TypeOfInt(a))
    case Not => Flag(a.value == 0)
  }

  /** An operator that evaluates both operands, on what they give. */
  function CBinary(op: BinOp, a: CInt, b: CInt): Outcome
  {
    var t := Common(TypeOfInt(a), TypeOfInt(b));
    var x, y := Converted(a.value, t).value, Converted(b.value, t).value;
    match op
    case Add => Ok(Converted(a.value + b.value, t))
    case Sub => Ok(Converted(a.value - b.value, t))
    case Mul => Ok(Converted(a.value * b.value, t))
    case Div => if y == 0 then Unsupported(DivisionByZero) else Ok(Converted(Quotient(x, y), t))
    case Rem => if y == 0 then Unsupported(DivisionByZero) else Ok(Converted(Remainder(x, y), t))
    case Shl =>
      if b.value < 0 then Unsupported(NegativeShift) else Ok(Converted(a.value * Pow2(b.value), TypeOfInt(a)))
    case Shr =>
      if b.value < 0 then Unsupported(NegativeShift) else Ok(Converted(a.value / Pow2(b.value), TypeOfInt(a)))
    case Lt => Ok(Flag(x < y))
    case Gt => Ok(Flag(y < x))
    case Le => Ok(Flag(x <= y))
    case Ge => Ok(Flag(y <= x))
    case Eq => Ok(Flag(x == y))
    case Ne => Ok(Flag(x != y))
    case AndAnd => Ok(Flag(a.value != 0 && b.value != 0))
    case OrOr => Ok(Flag(a.value != 0 || b.value != 0))
    case _ => Ok(Converted(Bitwise(op, x, y), t))
  }

  /** A cast to `_Bool`, or to an integer type; types below int are promoted after it. */
  function CCast(to: CastType, a: CInt): CInt
  {
    match to
    case Bool => Flag(a.value != 0)
    case Integer(bits, unsigned) =>
      var v := Converted(a.value, CType(bits, unsigned));
      if bits < 32 then v.(bits := 32, unsigned := false) else v
  }

  lemma UnaryIsC(op: UnOp, a: CInt)
    requires IsInt(a)
    ensures UnaryOf(op, a) == CUnary(op, a)
  {
    hide Pow2, NewInt, Converted, Truth;
    Reduces(0 - a.value, TypeOfInt(a));
    Reduces(-1 - a.value, TypeOfInt(a));
    TruthIsFlag(a.value == 0);
  }

  lemma BinaryIsC(op: BinOp, a: CInt, b: CInt)
    requires IsInt(a) && IsInt(b)
    ensures BinaryOf(op, a, b, false) == CBinary(op, a, b)
  {
    hide Pow2, NewInt, Converted, Common, Bitwise, Quotient, Remainder, IsInt, Represents, Truth;
    var t := Common(TypeOfInt(a), TypeOfInt(b));
    CommonIsType(a, b);
    forall v: int
      ensures NewInt(v, t.bits, t.unsigned) == Converted(v, t)
      ensures NewInt(v, a.bits, a.unsigned) == Converted(v, TypeOfInt(a))
    {
      Reduces(v, t);
      Reduces(v, TypeOfInt(a));
    }
    TruthIsFlag(true);
    TruthIsFlag(false);
    if op.Add? || op.Sub? || op.Mul? {
      SumsConvert(op, a, b, t);
    }
  }

  /** Sums and products of converted operands convert to those of the operands. */
  lemma SumsConvert(op: BinOp, a: CInt, b: CInt, t: CType)
    requires IsType(t) && (op.Add? || op.Sub? || op.Mul?)
    ensures Converted(Mathematical(op, Converted(a.value, t).value, Converted(b.value, t).value), t)
         == Converted(Mathematical(op, a.value, b.value), t)
  {
    hide Pow2, Converted, Represents;
    var x, y := Converted(a.value, t).value, Converted(b.value, t).value;
    var r, s := Mathematical(op, x, y), Mathematical(op, a.value, b.value);
    ConvertedFits(a.value, t);
    ConvertedFits(b.value, t);
    ConvertedFits(r, t);
    ConvertedFits(s, t);
    CongruentSums(x, a.value, y, b.value, Pow2(t.bits));
    CongruentChain(s, r, Converted(r, t).value, Pow2(t.bits));
    Backwards(s, Converted(s, t).value, Pow2(t.bits));
    CongruentChain(Converted(s, t).value, s, Converted(r, t).value, Pow2(t.bits));
    CongruentUnique(t, Converted(s, t).value, Converted(r, t).value);
    SameConverted(r, s, t);
  }

  lemma Backwards(a: int, b: int, m: int)
    requires 0 < m && (a - b) % m == 0
    ensures (b - a) % m == 0
  {
    DivModUnique(b - a, m, -((a - b) / m), 0);
  }

  lemma SameConverted(r: int, s: int, t: CType)
    requires Converted(r, t).value == Converted(s, t).value
    ensures Converted(r, t) == Converted(s, t)
  {
  }

  lemma CastIsC(to: CastType, a: CInt)
    requires to.Integer? ==> to.bits == 8 || to.bits == 16 || to.bits == 32 || to.bits == 64
    ensures CastOf(to, a) == CCast(to, a)
  {
    hide Pow2, NewInt, Converted, Represents, Truth, CastOf;
    if to.Bool? {
      LogicalMeans(a, a, false);
    } else {
      CastMeans(to.bits, to.unsigned, a);
      CastTyped(to, a);
      NarrowConverted(CastOf(to, a).value, a.value, CType(to.bits, to.unsigned));
    }
  }

  lemma NarrowConverted(w: int, v: int, t: CType)
    requires t.bits == 8 || t.bits == 16 || t.bits == 32 || t.bits == 64
    requires Represents(t, w) && Congruent(w, v, t.bits)
    ensures Converted(v, t) == CInt(w, t.bits, t.unsigned)
  {
    var half := Pow2(t.bits - 1);
    assert Pow2(t.bits) == 2 * half;
    hide Pow2;
    Only(w, v, half);
  }

  lemma Only(w: int, v: int, half: int)
    requires 0 < half && (w - v) % (2 * half) == 0
    ensures 0 <= w < 2 * half ==> v % (2 * half) == w
    ensures -half <= w < half ==> Wrap(v, half) == w
  {
    var q := (w - v) / (2 * half);
    assert w - v == q * (2 * half);
    assert -q * (2 * half) == -(q * (2 * half));
    if 0 <= w < 2 * half {
      DivModUnique(v, 2 * half, -q, w);
    }
    if -half <= w < half {
      DivModUnique(v + half, 2 * half, -q, w + half);
    }
  }

  // ----- The evaluator and C -----

  predicate Logical(op: BinOp)
  {
    op.AndAnd? || op.OrOr?
  }

  /** The left operand alone settles `&&` or `||`, so C does not evaluate the right one (C11 6.5.13, 6.5.14). */
  predicate Decides(op: BinOp, left: CInt)
  {
    (op.AndAnd? && left.value == 0) || (op.OrOr? && left.value != 0)
  }

  /**
    What C gives: `&&` and `||` stop at a left operand that decides, at every depth, and a conditional
    evaluates its condition and one branch, converted to the common type of both (C11 6.5.15).
   */
  function InC(e: Expr): Outcome
  {
    match e
    case Const(v) => Ok(v)
    case Unary(op, x) =>
      (match InC(x)
       case Unsupported(why) => Unsupported(why)
       case Ok(a) => Ok(CUnary(op, a)))
    case Binary(op, l, r) =>
      (match InC(l)
       case Unsupported(why) => Unsupported(why)
       case Ok(a) =>
         if Decides(op, a) then Ok(Flag(op.OrOr?))
         else
           match InC(r)
           case Unsupported(why) => Unsupported(why)
           case Ok(b) => if Logical(op) then Ok(Flag(b.value != 0)) else CBinary(op, a, b))
    case Ternary(c, t, f) =>
      (match InC(c)
       case Unsupported(why) => Unsupported(why)
       case Ok(cond) =>
         match InC(if cond.value != 0 then t else f)
         case Unsupported(why) => Unsupported(why)
         case Ok(chosen) => Ok(Converted(chosen.value, Common(StaticType(t), StaticType(f)))))
    case Cast(to, x) =>
      (match InC(x)
       case Unsupported(why) => Unsupported(why)
       case Ok(a) => Ok(CCast(to, a)))
  }

  /** A shift by a negative count, or a division by zero. */
  predicate Faulty(op: BinOp, b: CInt)
  {
    ((op.Shl? || op.Shr?) && b.value < 0) || ((op.Div? || op.Rem?) && b.value == 0)
  }

  /** There is a faulty operation outside the branches not taken; both operands of `&&` and `||` count. */
  predicate Faults(e: Expr)
  {
    match e
    case Const(_) => false
    case Unary(_, x) => Faults(x)
    case Binary(op, l, r) => Faults(l) || Faults(r) || (InC(r).Ok? && Faulty(op, InC(r).value))
    case Ternary(c, t, f) => Faults(c) || (InC(c).Ok? && Faults(if InC(c).value.value != 0 then t else f))
    case Cast(_, x) => Faults(x)
  }

  /** An `&&` or `||` that C evaluates is decided by its left operand in C, and its right one has a faulty operation. */
  predicate Masked(e: Expr)
  {
    match e
    case Const(_) => false
    case Unary(_, x) => Masked(x)
    case Binary(op, l, r) =>
      Masked(l) || (InC(l).Ok? && if Decides(op, InC(l).value) then Faults(r) else Masked(r))
    case Ternary(c, t, f) => Masked(c) || (InC(c).Ok? && Masked(if InC(c).value.value != 0 then t else f))
    case Cast(_, x) => Masked(x)
  }

  /** A divisor is zero after the conversion exactly if it was before. */
  lemma BinaryFails(op: BinOp, a: CInt, b: CInt)
    requires IsInt(a) && IsInt(b)
    ensures BinaryOf(op, a, b, false).Unsupported? <==> Faulty(op, b)
  {
    ZeroStays(a, b);
    hide Pow2, NewInt, Common, Bitwise, Quotient, Remainder, Compared, Truth, IsInt, Shifted;
  }

  lemma LogicalGives(op: BinOp, a: CInt, b: CInt)
    requires Logical(op)
    ensures BinaryOf(op, a, b, false) == Ok(Flag(if Decides(op, a) then op.OrOr? else b.value != 0))
  {
    hide Truth;
    TruthIsFlag(true);
    TruthIsFlag(false);
  }

  lemma ZeroStays(a: CInt, b: CInt)
    requires IsInt(a) && IsInt(b)
    ensures var t := Common(TypeOfInt(a), TypeOfInt(b));
      NewInt(b.value, t.bits, t.unsigned).value == 0 <==> b.value == 0
  {
    hide Pow2, NewInt, Common;
    var t := Common(TypeOfInt(a), TypeOfInt(b));
    UsualConversions(TypeOfInt(a), TypeOfInt(b));
    TypePowers(32);
    TypePowers(64);
    NewIntFits(b.value, t.bits, t.unsigned);
  }

  /**
    The evaluator rejects an expression exactly if there is a faulty operation outside the branches
    not taken, and what it accepts has the value and the type that C gives.
   */
  lemma {:induction false} RejectsExactly(e: Expr)
    requires IsExpr(e)
    ensures Eval(e, false).Unsupported? <==> Faults(e)
    ensures Eval(e, false).Ok? ==> InC(e) == Eval(e, false)
  {
    hide BinaryOf, UnaryOf, CastOf, CBinary, CUnary, CCast, NewInt, Converted, IsInt, Common, Truth, Flag, Faulty;
    match e {
      case Const(_) =>
      case Unary(op, x) =>
        RejectsExactly(x);
        if Eval(x, false).Ok? {
          EvalTyped(x, false);
          UnaryIsC(op, InC(x).value);
        }
      case Cast(to, x) =>
        RejectsExactly(x);
        if Eval(x, false).Ok? {
          CastIsC(to, InC(x).value);
        }
      case Binary(op, l, r) =>
        RejectsExactly(l);
        RejectsExactly(r);
        if Eval(l, false).Ok? && Eval(r, false).Ok? {
          EvalTyped(l, false);
          EvalTyped(r, false);
          BinaryFails(op, InC(l).value, InC(r).value);
          BinaryIsC(op, InC(l).value, InC(r).value);
          if Logical(op) {
            LogicalGives(op, InC(l).value, InC(r).value);
          }
        }
      case Ternary(c, t, f) =>
        RejectsExactly(c);
        RejectsExactly(t);
        RejectsExactly(f);
        DeadAgrees(t);
        DeadAgrees(f);
        if Eval(c, false).Ok? {
          var taken := InC(c).value.value != 0;
          EvalTyped(if taken then f else t, true);
          if Eval(if taken then t else f, false).Ok? {
            EvalTyped(if taken then t else f, false);
            TernaryInC(InC(if taken then t else f).value, t, f);
          }
        }
    }
  }

  lemma TernaryInC(chosen: CInt, t: Expr, f: Expr)
    requires IsExpr(t) && IsExpr(f)
    ensures var u := Common(StaticType(t), StaticType(f));
      && NewInt(chosen.value, u.bits, u.unsigned) == Converted(chosen.value, u)
      && IsInt(Converted(chosen.value, u))
  {
    hide NewInt, Converted, IsInt;
    StaticIsType(t);
    StaticIsType(f);
    UsualConversions(StaticType(t), StaticType(f));
    Reduces(chosen.value, Common(StaticType(t), StaticType(f)));
    TernaryTyped(chosen, StaticType(t), StaticType(f));
  }

  /** What C rejects has a faulty operation, and what C accepts has one exactly if it is masked. */
  lemma {:induction false} FaultsInC(e: Expr)
    requires IsExpr(e)
    ensures InC(e).Unsupported? ==> Faults(e)
    ensures InC(e).Ok? ==> IsInt(InC(e).value) && (Faults(e) <==> Masked(e))
  {
    hide BinaryOf, UnaryOf, CastOf, CBinary, CUnary, CCast, NewInt, Converted, IsInt, Common, Truth, Flag, Faulty;
    match e {
      case Const(_) =>
      case Unary(op, x) =>
        FaultsInC(x);
        if InC(x).Ok? {
          UnaryTyped(op, InC(x).value);
          UnaryIsC(op, InC(x).value);
        }
      case Cast(to, x) =>
        FaultsInC(x);
        if InC(x).Ok? {
          CastTyped(to, InC(x).value);
          CastIsC(to, InC(x).value);
        }
      case Binary(op, l, r) =>
        FaultsInC(l);
        FaultsInC(r);
        if InC(l).Ok? {
          BinaryFaultsInC(op, l, r);
        }
      case Ternary(c, t, f) =>
        FaultsInC(c);
        FaultsInC(t);
        FaultsInC(f);
        if InC(c).Ok? && InC(if InC(c).value.value != 0 then t else f).Ok? {
          TernaryInC(InC(if InC(c).value.value != 0 then t else f).value, t, f);
        }
    }
  }

  lemma BinaryFaultsInC(op: BinOp, l: Expr, r: Expr)
    requires InC(l).Ok? && IsInt(InC(l).value) && (Faults(l) <==> Masked(l))
    requires InC(r).Unsupported? ==> Faults(r)
    requires InC(r).Ok? ==> IsInt(InC(r).value) && (Faults(r) <==> Masked(r))
    ensures InC(Binary(op, l, r)).Unsupported? ==> Faults(Binary(op, l, r))
    ensures InC(Binary(op, l, r)).Ok? ==>
      IsInt(InC(Binary(op, l, r)).value) && (Faults(Binary(op, l, r)) <==> Masked(Binary(op, l, r)))
  {
    hide BinaryOf, CBinary, IsInt, Truth, Flag;
    var a := InC(l).value;
    TruthTyped(true);
    TruthTyped(false);
    TruthIsFlag(true);
    TruthIsFlag(false);
    if InC(r).Ok? {
      BinaryFails(op, a, InC(r).value);
      BinaryIsC(op, a, InC(r).value);
      if Logical(op) {
        LogicalGives(op, a, InC(r).value);
      }
      if !Faulty(op, InC(r).value) {
        BinaryTyped(op, a, InC(r).value, false);
      }
    }
  }

  /** The evaluator and C both reject the expression, or both give the same value of the same type. */
  predicate Agrees(e: Expr)
  {
    Eval(e, false) == InC(e) || (Eval(e, false).Unsupported? && InC(e).Unsupported?)
  }

  /** The evaluator agrees with C on every expression but those that have a value in C and a masked faulty operation. */
  lemma AgreesExactly(e: Expr)
    requires IsExpr(e)
    ensures Agrees(e) <==> !(InC(e).Ok? && Masked(e))
  {
    hide Eval, InC, Faults, Masked;
    RejectsExactly(e);
    FaultsInC(e);
  }

  /** `0 && 1 / 0`, `(0 && 1 / 0) || 1` and `1 + (0 && 1 / 0)` are 0, 1 and 1 in C and rejected here. */
  lemma LogicalCounterexample()
    ensures var zero, one := Const(CInt(0, 32, false)), Const(CInt(1, 32, false));
      var e := Binary(AndAnd, zero, Binary(Div, one, zero));
      && IsExpr(e) && IsExpr(Binary(OrOr, e, one)) && IsExpr(Binary(Add, one, e))
      && Eval(e, false) == Unsupported(DivisionByZero) && InC(e) == Ok(CInt(0, 32, false))
      && Eval(Binary(OrOr, e, one), false) == Unsupported(DivisionByZero)
      && InC(Binary(OrOr, e, one)) == Ok(CInt(1, 32, false))
      && Eval(Binary(Add, one, e), false) == Unsupported(DivisionByZero)
      && InC(Binary(Add, one, e)) == Ok(CInt(1, 32, false))
  {
    hide Eval, InC, BinaryOf, CBinary, NewInt, IsInt;
    var zero, one := CInt(0, 32, false), CInt(1, 32, false);
    ZeroAndOne();
    var div := Binary(Div, Const(one), Const(zero));
    Quotients(one, zero);
    var e := Binary(AndAnd, Const(zero), div);
    AndUnderZero(zero, div);
    RejectedOperand(e, one);
  }

  lemma Quotients(a: CInt, b: CInt)
    ensures Eval(Binary(Div, Const(a), Const(b)), false) == BinaryOf(Div, a, b, false)
  {
    hide BinaryOf;
  }

  lemma AndUnderZero(zero: CInt, r: Expr)
    requires zero.value == 0 && Eval(r, false).Unsupported?
    ensures Eval(Binary(AndAnd, Const(zero), r), false) == Eval(r, false)
    ensures InC(Binary(AndAnd, Const(zero), r)) == Ok(Flag(false))
  {
    hide BinaryOf, Truth;
  }

  lemma RejectedOperand(e: Expr, one: CInt)
    requires Eval(e, false).Unsupported? && InC(e) == Ok(Flag(false)) && one.value == 1
    ensures Eval(Binary(OrOr, e, Const(one)), false) == Eval(e, false)
    ensures InC(Binary(OrOr, e, Const(one))) == Ok(Flag(true))
    ensures Eval(Binary(Add, Const(one), e), false) == Eval(e, false)
    ensures InC(Binary(Add, Const(one), e)) == CBinary(Add, one, Flag(false))
  {
    hide BinaryOf, Truth;
  }

  lemma ZeroAndOne()
    ensures var zero, one := CInt(0, 32, false), CInt(1, 32, false);
      && IsInt(zero) && IsInt(one) && NewInt(0, 32, false) == zero && NewInt(1, 32, false) == one
      && BinaryOf(Div, one, zero, false) == Unsupported(DivisionByZero) && CBinary(Add, one, zero) == Ok(one)
  {
    hide Pow2;
    TypePowers(32);
  }

  // ----- Literals -----

  /** The types that C11 6.4.4.1 lists for a literal, in the order to try them. */
  function Candidates(u: bool, longs: nat, decimal: bool, longBits: nat): seq<CType>
  {
    (if longs == 0 then Pair(32, u, decimal) else []) + (if longs <= 1 then Pair(longBits, u, decimal) else [])
      + Pair(64, u, decimal)
  }

  /** One width: signed unless there is a u suffix, unsigned unless decimal without one. */
  function Pair(bits: nat, u: bool, decimal: bool): seq<CType>
  {
    (if u then [] else [CType(bits, false)]) + (if decimal && !u then [] else [CType(bits, true)])
  }

  predicate FirstFit(value: nat, types: seq<CType>, t: CType)
  {
    exists i :: 0 <= i < |types| && types[i] == t && Holds(t, value) && forall j | 0 <= j < i :: !Holds(types[j], value)
  }

  predicate Holds(t: CType, value: nat)
  {
    0 < t.bits && Represents(t, value)
  }

  /** The table of C11 6.4.4.1, row by row. */
  lemma CandidatesTable(b: nat)
    ensures var (int_, uint) := (CType(32, false), CType(32, true));
      var (long, ulong) := (CType(b, false), CType(b, true));
      var (longlong, ulonglong) := (CType(64, false), CType(64, true));
      && Candidates(false, 0, true, b) == [int_, long, longlong]
      && Candidates(false, 0, false, b) == [int_, uint, long, ulong, longlong, ulonglong]
      && Candidates(true, 0, true, b) == Candidates(true, 0, false, b) == [uint, ulong, ulonglong]
      && Candidates(false, 1, true, b) == [long, longlong]
      && Candidates(false, 1, false, b) == [long, ulong, longlong, ulonglong]
      && Candidates(true, 1, true, b) == Candidates(true, 1, false, b) == [ulong, ulonglong]
      && Candidates(false, 2, true, b) == [longlong]
      && Candidates(false, 2, false, b) == [longlong, ulonglong]
      && Candidates(true, 2, true, b) == Candidates(true, 2, false, b) == [ulonglong]
  {
  }

  /** A literal's number and suffix. */
  datatype Literal = Literal(value: nat, u: bool, longs: nat, decimal: bool)

  predicate SuffixChar(c: char)
  {
    c == 'u' || c == 'U' || c == 'l' || c == 'L'
  }

  /** The length of `text.rstrip("uUlL")`. */
  function BodyLength(text: string): (n: nat)
    ensures n <= |text|
  {
    if text != [] && SuffixChar(text[|text| - 1]) then BodyLength(text[..|text| - 1]) else |text|
  }

  /** `suffix.lower().count("l")` */
  function Longs(suffix: string): nat
  {
    if suffix == [] then 0
    else Longs(suffix[..|suffix| - 1]) + if suffix[|suffix| - 1] == 'l' || suffix[|suffix| - 1] == 'L' then 1 else 0
  }

  function DigitOf(c: char): (d: nat)
    ensures d <= 16
  {
    if '0' <= c <= '9' then c as nat - '0' as nat
    else if 'a' <= c <= 'f' then c as nat - 'a' as nat + 10
    else if 'A' <= c <= 'F' then c as nat - 'A' as nat + 10
    else 16
  }

  predicate LetterL(c: char)
  {
    c in "lL"
  }

  /** The number of long suffixes is that of the letters l in either case. */
  lemma {:induction false} LongsMean(suffix: string)
    ensures Longs(suffix) == |set i: nat | i < |suffix| && LetterL(suffix[i])|
  {
    var all := set i: nat | i < |suffix| && LetterL(suffix[i]);
    if suffix == [] {
      assert all == {};
    } else {
      var n := |suffix| - 1;
      LongsMean(suffix[..n]);
      var front := set i: nat | i < n && LetterL(suffix[..n][i]);
      assert forall i: nat | i < n :: suffix[..n][i] == suffix[i];
      assert n !in front;
      assert all == if LetterL(suffix[n]) then front + {n} else front;
    }
  }

  /** Digits are those of both cases, by their place in the row; anything else is none. */
  lemma DigitMeans(c: char)
    ensures forall i | 0 <= i < 16 :: c == "0123456789abcdef"[i] || c == "0123456789ABCDEF"[i] ==> DigitOf(c) == i
    ensures c !in "0123456789abcdef" && c !in "0123456789ABCDEF" ==> DigitOf(c) == 16
  {
    var lower, upper := "0123456789abcdef", "0123456789ABCDEF";
    assert lower[0] == '0' && lower[1] == '1' && lower[2] == '2' && lower[3] == '3' && lower[4] == '4';
    assert lower[5] == '5' && lower[6] == '6' && lower[7] == '7' && lower[8] == '8' && lower[9] == '9';
    assert lower[10] == 'a' && lower[11] == 'b' && lower[12] == 'c' && lower[13] == 'd';
    assert lower[14] == 'e' && lower[15] == 'f';
    assert upper[10] == 'A' && upper[11] == 'B' && upper[12] == 'C' && upper[13] == 'D' && upper[14] == 'E'
      && upper[15] == 'F';
    assert DigitOf(c) < 16 ==> lower[DigitOf(c)] == c || upper[DigitOf(c)] == c;
  }

  /** `int(digits, base)` on bare digits; None is the ValueError. */
  function NumberOf(digits: string, base: nat): Option<nat>
  {
    if digits == [] then None
    else
      var last := DigitOf(digits[|digits| - 1]);
      if last >= base then None
      else if |digits| == 1 then Some(last)
      else
        match NumberOf(digits[..|digits| - 1], base)
        case None => None
        case Some(n) => Some(n * base + last)
  }

  /** A literal's text, taken apart as `_int_literal` does; None is the ValueError of a bad number. */
  function ParseLiteral(text: string): Option<Literal>
  {
    var body, suffix := text[..BodyLength(text)], text[BodyLength(text)..];
    var hex := |body| >= 2 && body[0] == '0' && (body[1] == 'x' || body[1] == 'X');
    var binary := |body| >= 2 && body[0] == '0' && (body[1] == 'b' || body[1] == 'B');
    var octal := |body| > 1 && body[0] == '0' && !hex && !binary;
    var number := if hex then NumberOf(body[2..], 16) else if binary then NumberOf(body[2..], 2)
                  else NumberOf(body, if octal then 8 else 10);
    if number.None? then None
    else Some(Literal(number.value, 'u' in suffix || 'U' in suffix, Longs(suffix), !hex && !binary && !octal))
  }

  function DigitChar(d: nat): (c: char)
    requires d < 16
    ensures DigitOf(c) == d && !SuffixChar(c)
  {
    if d < 10 then ('0' as nat + d) as char else ('a' as nat + d - 10) as char
  }

  /** A number as its digits spell it, without leading zeros. */
  function Spelled(n: nat, base: nat): (digits: string)
    requires 2 <= base <= 16
    ensures digits != [] && !SuffixChar(digits[|digits| - 1])
  {
    if n < base then [DigitChar(n)] else Spelled(n / base, base) + [DigitChar(n % base)]
  }

  lemma SpelledStep(n: nat, base: nat) returns (q: nat, r: nat)
    requires 2 <= base <= 16 && base <= n
    ensures 1 <= q < n && r < base && n == q * base + r
    ensures Spelled(n, base) == Spelled(q, base) + [DigitChar(r)]
  {
    q, r := n / base, n % base;
    hide Spelled;
    Halved(n, base, q, r);
  }

  lemma Halved(n: nat, base: nat, q: int, r: nat)
    requires 2 <= base <= n && r < base && n == q * base + r
    ensures 1 <= q < n
  {
    AtLeastDouble(q, base);
  }

  lemma AtLeastDouble(q: int, base: nat)
    requires 2 <= base
    ensures q <= 0 ==> q * base <= 0
    ensures 0 <= q ==> 2 * q <= q * base
  {
    assert q * base == 2 * q + q * (base - 2);
  }

  lemma NumberPush(digits: string, c: char, base: nat)
    requires NumberOf(digits, base).Some? && DigitOf(c) < base
    ensures NumberOf(digits + [c], base) == Some(NumberOf(digits, base).value * base + DigitOf(c))
  {
    assert (digits + [c])[..|digits|] == digits;
  }

  lemma {:induction false} SpelledNumber(n: nat, base: nat)
    requires 2 <= base <= 16
    ensures NumberOf(Spelled(n, base), base) == Some(n)
  {
    if n >= base {
      var q, r := SpelledStep(n, base);
      SpelledNumber(q, base);
      NumberPush(Spelled(q, base), DigitChar(r), base);
      hide Spelled, NumberOf;
    }
  }

  /** The first digit is a 0 for 0 only, and always a digit. */
  lemma {:induction false} SpelledHead(n: nat, base: nat)
    requires 2 <= base <= 10
    ensures '0' <= Spelled(n, base)[0] <= '9'
    ensures Spelled(n, base)[0] == '0' ==> n == 0 && |Spelled(n, base)| == 1
  {
    if n >= base {
      var q, r := SpelledStep(n, base);
      SpelledHead(q, base);
      hide Spelled;
    }
  }

  lemma {:induction false} SuffixStripped(body: string, suffix: string)
    requires body == [] || !SuffixChar(body[|body| - 1])
    requires forall c | c in suffix :: SuffixChar(c)
    ensures BodyLength(body + suffix) == |body|
  {
    if suffix != [] {
      assert (body + suffix)[..|body + suffix| - 1] == body + suffix[..|suffix| - 1];
      SuffixStripped(body, suffix[..|suffix| - 1]);
    } else {
      assert body + suffix == body;
    }
  }

  lemma {:induction false} LeadingZero(digits: string, n: nat)
    requires NumberOf(digits, 8) == Some(n)
    ensures NumberOf("0" + digits, 8) == Some(n)
  {
    var all := "0" + digits;
    assert all[|all| - 1] == digits[|digits| - 1];
    assert all[..|all| - 1] == "0" + digits[..|digits| - 1];
    if |digits| == 1 {
      assert all[..1] == "0" && NumberOf("0", 8) == Some(0);
    } else {
      LeadingZero(digits[..|digits| - 1], NumberOf(digits[..|digits| - 1], 8).value);
    }
  }

  /** Every number, spelled in any of the four bases and with any suffix, is read back. */
  lemma LiteralReadBack(n: nat, suffix: string)
    requires forall c | c in suffix :: SuffixChar(c)
    ensures var u := 'u' in suffix || 'U' in suffix;
      && ParseLiteral(Spelled(n, 10) + suffix) == Some(Literal(n, u, Longs(suffix), true))
      && ParseLiteral("0" + Spelled(n, 8) + suffix) == Some(Literal(n, u, Longs(suffix), false))
      && ParseLiteral("0x" + Spelled(n, 16) + suffix) == Some(Literal(n, u, Longs(suffix), false))
      && ParseLiteral("0b" + Spelled(n, 2) + suffix) == Some(Literal(n, u, Longs(suffix), false))
  {
    hide NumberOf, Spelled, BodyLength, Longs, SuffixChar;
    ReadBody(Spelled(n, 10), suffix);
    ReadBody("0" + Spelled(n, 8), suffix);
    ReadBody("0x" + Spelled(n, 16), suffix);
    ReadBody("0b" + Spelled(n, 2), suffix);
    SpelledHead(n, 10);
    SpelledHead(n, 8);
    SpelledNumber(n, 10);
    SpelledNumber(n, 8);
    SpelledNumber(n, 16);
    SpelledNumber(n, 2);
    LeadingZero(Spelled(n, 8), n);
    assert ("0x" + Spelled(n, 16))[2..] == Spelled(n, 16) && ("0b" + Spelled(n, 2))[2..] == Spelled(n, 2);
  }

  lemma ReadBody(body: string, suffix: string)
    requires body != [] && !SuffixChar(body[|body| - 1]) && forall c | c in suffix :: SuffixChar(c)
    ensures BodyLength(body + suffix) == |body|
    ensures (body + suffix)[..|body|] == body && (body + suffix)[|body|..] == suffix
  {
    SuffixStripped(body, suffix);
  }

  /**
    `_int_literal`: the first listed type that can hold the number, or unsigned 64 bits, reduced, if
    none can. None is the error of a bad number, or of more than two l. `longBits` is the platform's.
   */
  method IntLiteral(text: string, longBits: nat) returns (r: Option<CInt>)
    requires longBits == 32 || longBits == 64
    ensures r.Some? <==> ParseLiteral(text).Some? && ParseLiteral(text).value.longs <= 2
    ensures r.Some? ==>
      && var n := ParseLiteral(text).value;
      && var types := Candidates(n.u, n.longs, n.decimal, longBits);
      && IsInt(r.value) && Congruent(r.value.value, n.value, r.value.bits)
      && if exists t :: t in types && Holds(t, n.value)
         then r.value.value == n.value && FirstFit(n.value, types, TypeOfInt(r.value))
         else TypeOfInt(r.value) == CType(64, true)
  {
    hide ParseLiteral, Candidates, Holds, IsInt, Congruent, FirstFit;
    var parsed := ParseLiteral(text);
    if parsed.None? || parsed.value.longs > 2 {
      return None;
    }
    var n := TypedLiteral(parsed.value.value, parsed.value.u, parsed.value.longs, parsed.value.decimal, longBits);
    return Some(n);
  }

  /** The search for the type of a literal. */
  method TypedLiteral(value: nat, u: bool, longs: nat, decimal: bool, longBits: nat) returns (r: CInt)
    requires longs <= 2 && (longBits == 32 || longBits == 64)
    ensures IsInt(r) && Congruent(r.value, value, r.bits)
    ensures (exists t :: t in Candidates(u, longs, decimal, longBits) && Holds(t, value)) ==>
      r.value == value && FirstFit(value, Candidates(u, longs, decimal, longBits), TypeOfInt(r))
    ensures !(exists t :: t in Candidates(u, longs, decimal, longBits) && Holds(t, value)) ==>
      TypeOfInt(r) == CType(64, true)
  {
    hide Pow2, NewInt, Candidates, Holds, Represents, IsInt, Congruent, FirstFit;
    var widths := Widths(longs, longBits);
    ghost var types, step := Candidates(u, longs, decimal, longBits), if u || decimal then 1 else 2;
    for i := 0 to |widths|
      invariant forall j | 0 <= j < i * step && j < |types| :: !Holds(types[j], value)
    {
      var bits := widths[i];
      CandidatesAt(u, longs, decimal, longBits, i);
      Fits(value, bits, false);
      Fits(value, bits, true);
      if !u && value < Pow2(bits - 1) {
        FirstAt(value, types, i * step);
        return NewInt(value, bits, false);
      }
      if !(decimal && !u) && value < Pow2(bits) {
        FirstAt(value, types, i * step + step - 1);
        return NewInt(value, bits, true);
      }
    }
    CandidateCount(u, longs, decimal, longBits);
    NewIntFits(value, 64, true);
    return NewInt(value, 64, true);
  }

  lemma FirstAt(value: nat, types: seq<CType>, n: nat)
    requires n < |types| && Holds(types[n], value) && forall j | 0 <= j < n :: !Holds(types[j], value)
    ensures FirstFit(value, types, types[n])
  {
  }

  function Widths(longs: nat, longBits: nat): seq<nat>
  {
    if longs == 0 then [32, longBits, 64] else if longs == 1 then [longBits, 64] else [64]
  }

  lemma CandidateCount(u: bool, longs: nat, decimal: bool, longBits: nat)
    ensures |Candidates(u, longs, decimal, longBits)| == |Widths(longs, longBits)| * (if u || decimal then 1 else 2)
  {
  }

  lemma PairAt(bits: nat, u: bool, decimal: bool)
    ensures var pair := Pair(bits, u, decimal);
      && |pair| == (if u || decimal then 1 else 2) && pair[0] == CType(bits, u)
      && (!u && !decimal ==> pair[1] == CType(bits, true))
  {
  }

  lemma CandidatesAt(u: bool, longs: nat, decimal: bool, longBits: nat, i: nat)
    requires i < |Widths(longs, longBits)|
    requires longBits == 32 || longBits == 64
    ensures var types, step := Candidates(u, longs, decimal, longBits), if u || decimal then 1 else 2;
      var bits := Widths(longs, longBits)[i];
      && (bits == 32 || bits == 64)
      && i * step + step <= |types|
      && types[i * step] == CType(bits, u)
      && (!u && !decimal ==> types[i * step + 1] == CType(bits, true))
  {
    hide Pair;
    PairAt(32, u, decimal);
    PairAt(longBits, u, decimal);
    PairAt(64, u, decimal);
  }

  lemma Fits(value: nat, bits: nat, unsigned: bool)
    requires bits == 32 || bits == 64
    ensures Holds(CType(bits, unsigned), value) <==> value < Pow2(if unsigned then bits else bits - 1)
    ensures var r := NewInt(value, bits, unsigned);
      && IsInt(r) && TypeOfInt(r) == CType(bits, unsigned) && Congruent(r.value, value, bits)
      && (Holds(CType(bits, unsigned), value) ==> r.value == value)
  {
    hide Pow2, NewInt;
    TypePowers(bits);
    NewIntFits(value, bits, unsigned);
  }

  /** `_typed_int`: an enumerator keeps its value in the narrowest of int, long long and unsigned long long. */
  function TypedInt(value: int): CInt
  {
    if -0x8000_0000 <= value < 0x8000_0000 then NewInt(value, 32, false)
    else NewInt(value, 64, value >= 0x8000_0000_0000_0000)
  }

  lemma TypedIntKeeps(value: int)
    ensures IsInt(TypedInt(value))
    ensures TypeOfInt(TypedInt(value)) == if -0x8000_0000 <= value <= 0x7FFF_FFFF then CType(32, false)
                                          else CType(64, 0x7FFF_FFFF_FFFF_FFFF < value)
    ensures TypedInt(value).value == value <==> -0x8000_0000_0000_0000 <= value < 0x1_0000_0000_0000_0000
  {
    hide Pow2, NewInt;
    TypePowers(32);
    TypePowers(64);
    NewIntFits(value, 32, false);
    NewIntFits(value, 64, value >= 0x8000_0000_0000_0000);
  }

  // ----- The evaluator -----

  class Converter {
    /** How many untaken branches surround the expression. */
    var dead: nat

    constructor ()
      ensures dead == 0
    {
      dead := 0;
    }

    /** `const`: `dead` goes up around the branch not taken and is back on every way out. */
    method Evaluate(e: Expr) returns (r: Outcome)
      modifies this
      decreases e
      ensures dead == old(dead) && r == Eval(e, dead > 0)
    {
      match e {
        case Const(v) => r := Ok(v);
        case Unary(op, x) =>
          r := Evaluate(x);
          if r.Ok? {
            r := Ok(UnaryOf(op, r.value));
          }
        case Binary(op, left, right) =>
          r := Evaluate(left);
          if r.Ok? {
            var b := Evaluate(right);
            r := if b.Ok? then BinaryOf(op, r.value, b.value, dead > 0) else b;
          }
        case Ternary(c, t, f) =>
          r := Evaluate(c);
          if r.Ok? {
            var taken := r.value.value != 0;
            dead := dead + 1;
            var other := Evaluate(if taken then f else t);
            dead := dead - 1;
            if other.Unsupported? {
              return other;
            }
            r := Evaluate(if taken then t else f);
            if r.Ok? {
              var a, b := if taken then r.value else other.value, if taken then other.value else r.value;
              var u := Common(TypeOfInt(a), TypeOfInt(b));
              r := Ok(NewInt(r.value.value, u.bits, u.unsigned));
            }
          }
        case Cast(to, x) =>
          r := Evaluate(x);
          if r.Ok? {
            r := Ok(CastOf(to, r.value));
          }
      }
    }
  }
}
