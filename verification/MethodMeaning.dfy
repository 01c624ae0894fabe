/** What the methods and operators of the graph language say about numbers, written as arithmetic and
    without the tables that turn their names into instructions. */
module MethodMeaning {
  import opened Arith
  import opened Bits
  import opened LittleEndian
  import opened FheTypes
  import opened ScalarOps
  import opened Evaluator
  import opened Dsl
  import opened ScalarGraphs

  // ---- meanings ----

  /** Methods that combine their receiver with one argument. */
  predicate Combines(m: Method) {
    match m
    case Add => true case Subtract => true case Multiply => true case Divide => true case Modulo => true
    case Minimum => true case Maximum => true
    case And => true case Or => true case Xor => true case Nor => true case Nand => true
    case ShiftLeft => true case ShiftRight => true case RotateLeft => true case RotateRight => true
    case IsLessThan => true case IsLessOrEqual => true case IsGreaterThan => true case IsGreaterOrEqual => true
    case IsEqual => true case IsNotEqual => true
    case _ => false
  }

  /** Methods of the receiver alone. The second group takes no argument; the first ignores any. */
  predicate Transforms(m: Method) {
    m.Negate? || m.Not? || m.Bootstrap? || m.PackInto? || m.ToBoolean? || TakesNothing(m)
  }

  predicate TakesNothing(m: Method) {
    m.ThinBootstrap? || m.ExtractLsbs? || m.ExtractMsbs?
  }

  /** Two in-range numbers of one type, combined. A shift amount counts modulo 2^64, a rotation amount
      modulo the width; an encrypted bool has one bit in a byte, and rotating it by one loses it. */
  function Combined(m: Method, a: nat, b: nat, t: FheType): nat
    requires Combines(m) && InRange(a, t) && InRange(b, t)
  {
    var w := Width(t);
    match m
    case Add => (a + b) % Pow2(w)
    case Subtract => (a - b) % Pow2(w)
    case Multiply => Reduced(a * b, Pow2(w))
    case Divide => if b == 0 then 0 else Quotient(a, b)
    case Modulo => if b == 0 then 0 else a % b
    case Minimum => if a <= b then a else b
    case Maximum => if a <= b then b else a
    case And => Bits.And(a, b)
    case Or => Bits.Or(a, b)
    case Xor => Bits.Xor(a, b)
    case Nor => Flipped(Bits.Or(a, b), w)
    case Nand => Flipped(Bits.And(a, b), w)
    case ShiftLeft => Reduced(a * Pow2(b % U64), Pow2(w))
    case ShiftRight => Quotient(a, Pow2(b % U64))
    case RotateLeft => if t == E_BOOL then BoolRotated(a, b) else Rotated(a, b % w, w)
    case RotateRight => if t == E_BOOL then BoolRotated(a, b) else Rotated(a, w - b % w, w)
    case IsLessThan => if a < b then 1 else 0
    case IsLessOrEqual => if a <= b then 1 else 0
    case IsGreaterThan => if a > b then 1 else 0
    case IsGreaterOrEqual => if a >= b then 1 else 0
    case IsEqual => if a == b then 1 else 0
    case IsNotEqual => if a == b then 0 else 1
  }

  function Reduced(n: nat, d: nat): nat
    requires d > 0
  {
    n % d
  }

  /** Every one of w bits the other way round. */
  function Flipped(x: nat, w: nat): nat {
    if x < Pow2(w) then Pow2(w) - 1 - x else 0
  }

  /** The low w - s bits move up by s, and the top s bits come in below. */
  function Rotated(a: nat, s: nat, w: nat): nat
    requires s <= w
  {
    a % Pow2(w - s) * Pow2(s) + Quotient(a, Pow2(w - s))
  }

  function BoolRotated(a: nat, b: nat): nat {
    if b == 0 then a else 0
  }

  /** An in-range number of a type, transformed. */
  function Transformed(m: Method, a: nat, t: FheType): nat
    requires Transforms(m) && InRange(a, t)
  {
    match m
    case Negate => if a == 0 then 0 else Pow2(Width(t)) - a
    case Not => Pow2(Width(t)) - 1 - a
    case ToBoolean => if a == 0 then 0 else 1
    case ExtractLsbs => a % 2
    case ExtractMsbs => if t != E_BOOL && a >= Pow2(Width(t) - 1) then 1 else 0
    case _ => a
  }

  /** The method an operator stands for. */
  function OperatorMethod(op: BinOp): (m: Method)
    ensures Combines(m)
  {
    match op
    case Plus => Add case Minus => Subtract case Times => Multiply case Slash => Divide case Percent => Modulo
    case BitAnd => And case BitOr => Or case BitXor => Xor case Shl => ShiftLeft case Shr => ShiftRight
    case Eq => IsEqual case Ne => IsNotEqual case Gt => IsGreaterThan case Ge => IsGreaterOrEqual
    case Lt => IsLessThan case Le => IsLessOrEqual
  }

  function UnaryMethod(op: UnOp): (m: Method)
    ensures Transforms(m)
  {
    match op case Neg => Negate case Bang => Not
  }

  // ---- rotations as arithmetic ----

  /** The bits of a number put together from a high and a low part. */
  lemma JoinedBits(x: nat, y: nat, s: nat, j: nat)
    requires y < Pow2(s)
    ensures Bit(x * Pow2(s) + y, j) == if j < s then Bit(y, j) else Bit(x, j - s)
  {
    hide Pow2, Bit;
    var v := x * Pow2(s) + y;
    DivModUnique(v, Pow2(s), x, y);
    if j < s {
      ModBits(v, s, j);
    } else {
      DivBits(v, s, j - s);
    }
  }

  lemma JoinedBelow(x: nat, y: nat, s: nat, w: nat)
    requires s <= w && y < Pow2(s) && x < Pow2(w - s)
    ensures x * Pow2(s) + y < Pow2(w)
  {
    Pow2Add(w - s, s);
    MulLe(x + 1, Pow2(w - s), Pow2(s));
  }

  /** The top s bits of a w-bit number are fewer than 2^s. */
  lemma TopPart(a: nat, s: nat, w: nat)
    requires s <= w && a < Pow2(w)
    ensures Quotient(a, Pow2(w - s)) < Pow2(s)
  {
    hide Pow2;
    var q := Quotient(a, Pow2(w - s));
    Pow2Add(s, w - s);
    if q >= Pow2(s) {
      MulLe(Pow2(s), q, Pow2(w - s));
    }
  }

  lemma RotatedBit(a: nat, s: nat, w: nat, j: nat)
    requires s <= w && j < w && a < Pow2(w)
    ensures Rotated(a, s, w) < Pow2(w)
    ensures Bit(Rotated(a, s, w), j) == Bit(a, if j < s then w - s + j else j - s)
  {
    hide Pow2, Bit;
    TopPart(a, s, w);
    JoinedBelow(a % Pow2(w - s), Quotient(a, Pow2(w - s)), s, w);
    JoinedBits(a % Pow2(w - s), Quotient(a, Pow2(w - s)), s, j);
    if j < s {
      DivBits(a, w - s, j);
    } else {
      ModBits(a, w - s, j - s);
    }
  }

  lemma LeftRotationIs(a: nat, r: nat, n: nat, w: nat)
    requires w > 0 && a < Pow2(w) && RotatedLeft(a, r, n, w)
    ensures r == Rotated(a, n % w, w)
  {
    hide Pow2, Bit, Rotated;
    var s := n % w;
    RotatedBit(a, s, w, 0);
    forall j: nat | j < w
      ensures Bit(r, j) == Bit(Rotated(a, s, w), j)
    {
      RotatedBit(a, s, w, j);
      WrapIndex(j + w - s, w);
    }
    SameBits(r, Rotated(a, s, w), w);
  }

  lemma RightRotationIs(a: nat, r: nat, n: nat, w: nat)
    requires w > 0 && a < Pow2(w) && RotatedRight(a, r, n, w)
    ensures r == Rotated(a, w - n % w, w)
  {
    hide Pow2, Bit, Rotated;
    var s := n % w;
    RotatedBit(a, w - s, w, 0);
    forall j: nat | j < w
      ensures Bit(r, j) == Bit(Rotated(a, w - s, w), j)
    {
      RotatedBit(a, w - s, w, j);
      WrapIndex(j + s, w);
    }
    SameBits(r, Rotated(a, w - s, w), w);
  }

  lemma BoolRotations(a: nat, b: nat)
    requires a < 2 && b < 2
    ensures BinaryValue(ROTATE_LEFT, a, b, E_BOOL) == BinaryValue(ROTATE_RIGHT, a, b, E_BOOL) == BoolRotated(a, b)
  {
    hide Pow2, Mix, Complement, Bits.And, Bits.Or, Bits.Xor, WrappingShl, WrappingShr;
    SmallMod(b, U32);
    Pow2Small();
    if b == 0 {
      MaskedInRange(a, E_BOOL);
    } else {
      BoolBitMoves(a);
      EvenOnes(WrappingShl(a, 1), WrappingShr(a, 7));
      EvenOnes(WrappingShr(a, 1), WrappingShl(a, 7));
    }
  }

  lemma EvenOnes(x: nat, y: nat)
    requires !Bit(x, 0) && !Bit(y, 0)
    ensures Bits.And(Bits.Or(x, y), 1) == 0
  {
    OrBits(x, y, 0);
    AndOne(Bits.Or(x, y));
  }

  /** Rotated by one place in its byte, the bit of a bool leaves the mask. */
  lemma BoolBitMoves(a: nat)
    requires a < Pow2(1)
    ensures !Bit(WrappingShl(a, 1), 0) && !Bit(WrappingShr(a, 7), 0)
    ensures !Bit(WrappingShl(a, 7), 0) && !Bit(WrappingShr(a, 1), 0)
  {
    ShlBit(a, 1, 0);
    ShlBit(a, 7, 0);
    ShrBit(a, 1, 0);
    ShrBit(a, 7, 0);
    HighBitsClear(a, 1, 1);
    HighBitsClear(a, 1, 7);
  }

  // ---- the instruction tables mean that ----

  lemma ShiftsCount(a: nat, b: nat, t: FheType)
    requires IsSmallScalar(t) && InRange(a, t) && InRange(b, t)
    ensures BinaryValue(SHIFT_LEFT, a, b, t) == Reduced(a * Pow2(b % U64), Pow2(Width(t)))
    ensures BinaryValue(SHIFT_RIGHT, a, b, t) == Quotient(a, Pow2(b % U64))
  {
    hide BinaryValue, Pow2;
    Pow2Literals();
    if t == E_BOOL {
      BoolShifts(a, b);
      SmallMod(b, U64);
    } else if b % U64 < Width(t) {
      LeftShiftWithin(a, b, t);
      RightShiftWithin(a, b, t);
    } else {
      ShiftsOut(a, b, t);
    }
  }

  lemma ShiftsOut(a: nat, b: nat, t: FheType)
    requires E_UINT8 <= t <= E_UINT128 && InRange(a, t) && b % U64 >= Width(t)
    ensures BinaryValue(SHIFT_LEFT, a, b, t) == 0 == Reduced(a * Pow2(b % U64), Pow2(Width(t)))
    ensures BinaryValue(SHIFT_RIGHT, a, b, t) == 0 == Quotient(a, Pow2(b % U64))
  {
    hide Pow2, Bits.And, Bits.Or, Bits.Xor, Rotate, Mix, WrappingShl, WrappingShr;
    BitCountIsWidth(t);
    ShiftedOut(a, b % U64, Width(t));
  }

  lemma RotationsAre(a: nat, b: nat, t: FheType)
    requires E_UINT8 <= t <= E_UINT128 && InRange(a, t)
    ensures Width(t) > 0
    ensures BinaryValue(ROTATE_LEFT, a, b, t) == Rotated(a, b % Width(t), Width(t))
    ensures BinaryValue(ROTATE_RIGHT, a, b, t) == Rotated(a, Width(t) - b % Width(t), Width(t))
  {
    hide BinaryValue, Rotated, RotatedLeft, RotatedRight;
    RotateLeftExact(a, b, t);
    RotateRightExact(a, b, t);
    LeftRotationIs(a, BinaryValue(ROTATE_LEFT, a, b, t), b, Width(t));
    RightRotationIs(a, BinaryValue(ROTATE_RIGHT, a, b, t), b, Width(t));
  }

  /** Masking a complemented u128 flips the bits of the width. */
  lemma FlippedIs(x: nat, t: FheType)
    requires IsSmallScalar(t) && InRange(x, t)
    ensures Bits.And(Complement(x), TypeBitMask(t)) == Flipped(x, Width(t))
  {
    hide Pow2, Bits.And, TypeBitMask;
    RangeFitsBytes(t);
    TruncateU128(U128 - 1 - x, t);
    SmallMod(U128 - 1 - x, U128);
    FlippedRemainder(x, Width(t));
  }

  lemma FlippedRemainder(x: nat, w: nat)
    requires w <= 128 && x < Pow2(w)
    ensures Pow2(w) <= U128 && (U128 - 1 - x) % Pow2(w) == Pow2(w) - 1 - x
  {
    hide Pow2;
    Pow2Literals();
    Pow2Monotone(w, 128);
    Pow2Add(128 - w, w);
    ModAddMultiple(Pow2(w) - 1 - x, Pow2(128 - w) - 1, Pow2(w));
    assert (Pow2(128 - w) - 1) * Pow2(w) == U128 - Pow2(w);
    SmallMod(Pow2(w) - 1 - x, Pow2(w));
  }

  lemma LogicIsMasked(a: nat, b: nat, t: FheType)
    ensures BinaryValue(AND, a, b, t) == Bits.And(Bits.And(a, b), TypeBitMask(t))
    ensures BinaryValue(OR, a, b, t) == Bits.And(Bits.Or(a, b), TypeBitMask(t))
    ensures BinaryValue(XOR, a, b, t) == Bits.And(Bits.Xor(a, b), TypeBitMask(t))
    ensures BinaryValue(NOR, a, b, t) == Bits.And(Complement(Bits.Or(a, b)), TypeBitMask(t))
    ensures BinaryValue(NAND, a, b, t) == Bits.And(Complement(Bits.And(a, b)), TypeBitMask(t))
    ensures UnaryValue(NOT, a, t) == Bits.And(Complement(a), TypeBitMask(t))
  {
    hide Bits.And, Bits.Or, Bits.Xor, Rotate, Mix, TypeBitMask, Complement;
  }

  lemma LogicIs(a: nat, b: nat, t: FheType)
    requires IsSmallScalar(t) && InRange(a, t) && InRange(b, t)
    ensures BinaryValue(AND, a, b, t) == Bits.And(a, b) && BinaryValue(OR, a, b, t) == Bits.Or(a, b)
    ensures BinaryValue(XOR, a, b, t) == Bits.Xor(a, b)
    ensures BinaryValue(NOR, a, b, t) == Flipped(Bits.Or(a, b), Width(t))
    ensures BinaryValue(NAND, a, b, t) == Flipped(Bits.And(a, b), Width(t))
    ensures UnaryValue(NOT, a, t) == Flipped(a, Width(t)) == Pow2(Width(t)) - 1 - a
  {
    hide BinaryValue, UnaryValue, Pow2, Bits.And, Bits.Or, Bits.Xor, TypeBitMask, Width, Complement;
    LogicIsMasked(a, b, t);
    BitwiseBounds(a, b, Width(t));
    MaskedInRange(Bits.And(a, b), t);
    MaskedInRange(Bits.Or(a, b), t);
    MaskedInRange(Bits.Xor(a, b), t);
    FlippedIs(Bits.And(a, b), t);
    FlippedIs(Bits.Or(a, b), t);
    FlippedIs(a, t);
  }

  lemma ComparesIs(a: nat, b: nat, t: FheType)
    ensures BinaryValue(IS_EQUAL, a, b, t) == (if a == b then 1 else 0)
    ensures BinaryValue(IS_NOT_EQUAL, a, b, t) == (if a == b then 0 else 1)
    ensures BinaryValue(IS_GREATER_THAN, a, b, t) == (if a > b then 1 else 0)
    ensures BinaryValue(IS_LESS_THAN, a, b, t) == (if a < b then 1 else 0)
    ensures BinaryValue(IS_GREATER_OR_EQUAL, a, b, t) == (if a >= b then 1 else 0)
    ensures BinaryValue(IS_LESS_OR_EQUAL, a, b, t) == (if a <= b then 1 else 0)
  {
    hide Bits.And, Bits.Or, Bits.Xor, Rotate, Mix, TypeBitMask;
  }

  /** The instruction a method turns into computes what the method says. */
  lemma MethodInstruction(m: Method, a: nat, b: nat, t: FheType)
    requires Combines(m) && IsSmallScalar(t) && InRange(a, t) && InRange(b, t)
    ensures MethodCode(m).Some? && ArityOf(m) == General
    ensures BinaryValue(MethodCode(m).value, a, b, t) == Combined(m, a, b, t)
  {
    hide BinaryValue, InRange, Width, Pow2, Bits.And, Bits.Or, Bits.Xor, Rotated, BoolRotated, Flipped;
    RingOpsAreModular(a, b, t);
    DivisionIsExact(a, b, t);
    MinMaxChoose(a, b, t);
    LogicIs(a, b, t);
    ShiftsCount(a, b, t);
    ComparesIs(a, b, t);
    if m.RotateLeft? || m.RotateRight? {
      if t == E_BOOL {
        BoolBounds(a);
        BoolBounds(b);
        BoolRotations(a, b);
      } else {
        RotationsAre(a, b, t);
      }
    }
  }

  lemma BoolBounds(a: nat)
    requires InRange(a, E_BOOL)
    ensures a < 2
  {
    Pow2Small();
  }

  lemma OperatorInstruction(op: BinOp, a: nat, b: nat, t: FheType)
    requires IsSmallScalar(t) && InRange(a, t) && InRange(b, t)
    ensures BinaryValue(BinOpCode(op), a, b, t) == Combined(OperatorMethod(op), a, b, t)
  {
    hide BinaryValue, InRange, Combined, MethodCode;
    MethodInstruction(OperatorMethod(op), a, b, t);
    SameInstruction(op);
  }

  /** The number each method is known by in a graph, in the order of the methods' declaration. */
  lemma InstructionNumbers(m: Method)
    ensures MethodCode(m) ==
            match m
            case Select => Some(60) case SelectScalar => Some(61) case Blend => Some(8)
            case Assign => Some(92) case AssignScalars => Some(93)
            case Negate => Some(2) case Not => Some(22) case Bootstrap => Some(85) case PackInto => Some(81)
            case ToBoolean => Some(83)
            case Add => Some(0) case Multiply => Some(1) case Subtract => Some(3) case Divide => Some(4)
            case Modulo => Some(5) case Minimum => Some(6) case Maximum => Some(7)
            case Xor => Some(20) case And => Some(21) case Or => Some(23) case Nor => Some(24) case Nand => Some(25)
            case ShiftLeft => Some(26) case ShiftRight => Some(27) case RotateLeft => Some(28) case RotateRight => Some(29)
            case IsLessThan => Some(40) case IsEqual => Some(41) case IsNotEqual => Some(42)
            case IsGreaterThan => Some(43) case IsGreaterOrEqual => Some(44) case IsLessOrEqual => Some(45)
            case ExtractLsbs => Some(80) case ExtractMsbs => Some(84) case ThinBootstrap => Some(86)
            case Gather => Some(90) case Scatter => Some(91) case Copy => Some(94) case Get => Some(95)
            case Unsupported => None
  {
  }

  /** Scalar variants follow their instructions in three runs of numbers; a conversion is number 82. */
  lemma VariantNumbers(op: byte)
    ensures ScalarVariant(op) ==
            if op <= 1 then Some(9 + op) else if op == 3 then Some(11) else if 4 <= op <= 7 then Some(8 + op)
            else if op == 20 then Some(32) else if op == 21 then Some(30) else if op == 23 then Some(31)
            else if 40 <= op <= 45 then Some(6 + op) else None
    ensures INTO == 82
  {
  }

  /** An operator and its method turn into the same instruction. */
  lemma SameInstruction(op: BinOp)
    ensures MethodCode(OperatorMethod(op)) == Some(BinOpCode(op))
  {
  }

  /** The type of a unary method's result. */
  function TransformedType(m: Method, t: FheType): FheType {
    if m.ToBoolean? then E_BOOL else t
  }

  lemma UnaryInstruction(m: Method, a: nat, t: FheType)
    requires Transforms(m) && IsSmallScalar(t) && InRange(a, t)
    ensures MethodCode(m).Some? && MethodCode(m).value != SELECT
    ensures UnaryValue(MethodCode(m).value, a, TransformedType(m, t)) == Transformed(m, a, t)
    ensures ArityOf(m) == if m.ToBoolean? then UnaryBool else if TakesNothing(m) then General else UnarySame
  {
    hide UnaryValue, InRange, Width, Pow2;
    match m
    case Negate => NegationIs(a, t);
    case Not => LogicIs(a, a, t);
    case ExtractLsbs => ExtractsEnds(a, t);
    case ExtractMsbs => ExtractsEnds(a, t);
    case _ => ConversionsKeep(a, t);
  }

  lemma ConversionsKeep(a: nat, t: FheType)
    requires InRange(a, t)
    ensures UnaryValue(PACK_INTO, a, t) == UnaryValue(BOOTSTRAP, a, t) == UnaryValue(THIN_BOOTSTRAP, a, t) == a
    ensures UnaryValue(TO_BOOLEAN, a, E_BOOL) == if a == 0 then 0 else 1
  {
    hide UnaryValue, Pow2;
    ConversionsReduce(a, t);
    ConversionsReduce(a, E_BOOL);
    SmallMod(a, Pow2(Width(t)));
  }

  lemma NegationIs(a: nat, t: FheType)
    requires IsSmallScalar(t) && InRange(a, t)
    ensures UnaryValue(NEGATE, a, t) == if a == 0 then 0 else Pow2(Width(t)) - a
  {
    hide UnaryValue, Pow2;
    RingOpsAreModular(a, a, t);
    var p := Pow2(Width(t));
    if a == 0 {
      SmallMod(0, p);
    } else {
      DivModUnique(0 - a, p, -1, p - a);
    }
  }

  // ---- evaluation means that ----

  lemma UnfoldMethod<V>(eng: Engine<V>, recv: Expr, m: Method, args: seq<Expr>, env: Env<V>)
    requires EvalExpr(eng, recv, env).Ok? && MethodCode(m).Some?
    ensures EvalExpr(eng, MethodCall(recv, m, args), env)
         == EvalMethod(eng, ArityOf(m), MethodCode(m).value, EvalExpr(eng, recv, env).value, args, env)
  {
    hide MethodCode, ArityOf, EvalMethod;
  }

  /** A method of the receiver and one argument. Further arguments are ignored, and so is the type of
      the first, as long as its value fits. */
  lemma MethodsCompute(m: Method, recv: Expr, args: seq<Expr>, env: Env<nat>, t: FheType, a: nat, t': FheType, b: nat)
    requires Combines(m) && args != [] && IsSmallScalar(t) && IsSmallScalar(t') && InRange(a, t) && InRange(b, t)
    requires EvalExpr(NUMBERS, recv, env) == Ok(Typed(t, a)) && EvalExpr(NUMBERS, args[0], env) == Ok(Typed(t', b))
    ensures EvalExpr(NUMBERS, MethodCall(recv, m, args), env) == Ok(Typed(t, Combined(m, a, b, t)))
  {
    hide BinaryValue, InRange, Combined, MethodCode, ArityOf;
    MethodInstruction(m, a, b, t);
  }

  lemma UnaryMethodsCompute(m: Method, recv: Expr, args: seq<Expr>, env: Env<nat>, t: FheType, a: nat)
    requires Transforms(m) && (TakesNothing(m) ==> args == []) && IsSmallScalar(t) && InRange(a, t)
    requires EvalExpr(NUMBERS, recv, env) == Ok(Typed(t, a))
    ensures EvalExpr(NUMBERS, MethodCall(recv, m, args), env) == Ok(Typed(TransformedType(m, t), Transformed(m, a, t)))
  {
    hide UnaryValue, InRange, Transformed, MethodCode, ArityOf;
    UnaryInstruction(m, a, t);
  }

  /** Methods of a receiver and two arguments. */
  predicate Chooses(m: Method) {
    m.Select? || m.SelectScalar? || m.Blend? || m.Assign? || m.AssignScalars?
  }

  /** `select` chooses between its arguments by its receiver, whatever that is typed; `blend`, `assign` and
      `assign_scalars` leave a scalar receiver as it is. */
  function Chosen(m: Method, c: Typed<nat>, a: Typed<nat>, b: Typed<nat>): Typed<nat>
    requires Chooses(m)
  {
    match m
    case Blend => Typed(a.ty, c.value)
    case Assign => c
    case AssignScalars => c
    case _ => Typed(a.ty, if c.value != 0 then a.value else b.value)
  }

  lemma ChoicesCompute(m: Method, recv: Expr, x: Expr, y: Expr, env: Env<nat>, c: Typed<nat>, a: Typed<nat>, b: Typed<nat>)
    requires Chooses(m) && c.ty <= 44 && a.ty <= 44
    requires EvalExpr(NUMBERS, recv, env) == Ok(c) && EvalExpr(NUMBERS, x, env) == Ok(a) && EvalExpr(NUMBERS, y, env) == Ok(b)
    ensures EvalExpr(NUMBERS, MethodCall(recv, m, [x, y]), env) == Ok(Chosen(m, c, a, b))
  {
    UnfoldMethod(NUMBERS, recv, m, [x, y], env);
    UnfoldTwoArguments(NUMBERS, ArityOf(m), MethodCode(m).value, c, x, y, env);
    hide EvalExpr, EvalMethod;
  }

  lemma UnfoldTwoArguments<V>(eng: Engine<V>, arity: Arity, op: byte, recv: Typed<V>, x: Expr, y: Expr, env: Env<V>)
    requires arity == TernaryOfFirst || arity == TernaryOfReceiver
    requires EvalExpr(eng, x, env).Ok? && EvalExpr(eng, y, env).Ok?
    ensures var a, b := EvalExpr(eng, x, env).value, EvalExpr(eng, y, env).value;
            EvalMethod(eng, arity, op, recv, [x, y], env) ==
            TernaryValue(eng, op, if arity == TernaryOfFirst then a.ty else recv.ty, recv.value, a.value, b.value)
  {
    hide EvalExpr, TernaryValue;
    assert [x, y][0] == x && [x, y][1] == y;
  }

  /** A method the compiler does not know, or one of two arguments called with another number of them,
      is rejected on every engine. */
  lemma MisuseRejected<V>(eng: Engine<V>, m: Method, recv: Expr, args: seq<Expr>, env: Env<V>)
    requires EvalExpr(eng, recv, env).Ok?
    requires m.Unsupported? || (Chooses(m) && |args| != 2)
    ensures EvalExpr(eng, MethodCall(recv, m, args), env) == Err(Rejected)
  {
  }

  /** A combining method without its argument is accepted, and gives 0. */
  lemma MissingArgumentGivesZero(m: Method, recv: Expr, env: Env<nat>, t: FheType, a: nat)
    requires Combines(m) && EvalExpr(NUMBERS, recv, env) == Ok(Typed(t, a))
    ensures EvalExpr(NUMBERS, MethodCall(recv, m, []), env) == Ok(Typed(t, 0))
  {
    hide UnaryValue, EvalExpr, MethodCode, ArityOf, Combines;
    NoUnaryMeaning(m, a, t);
    UnfoldMethod(NUMBERS, recv, m, [], env);
  }

  lemma NoUnaryMeaning(m: Method, a: nat, t: FheType)
    requires Combines(m)
    ensures MethodCode(m).Some? && ArityOf(m) == General && UnaryValue(MethodCode(m).value, a, t) == 0
  {
    hide Bits.And, Mix, TypeBitMask, Complement, TypeBitCount, Pow2, Quotient;
  }

  lemma OperatorsCompute(op: BinOp, left: Expr, right: Expr, env: Env<nat>, t: FheType, a: nat, b: nat)
    requires IsSmallScalar(t) && InRange(a, t) && InRange(b, t)
    requires EvalExpr(NUMBERS, left, env) == Ok(Typed(t, a)) && EvalRight(NUMBERS, t, right, env) == Ok(Typed(t, b))
    ensures EvalExpr(NUMBERS, Dsl.Binary(op, left, right), env) == Ok(Typed(t, Combined(OperatorMethod(op), a, b, t)))
  {
    hide BinaryValue, InRange, Combined, EvalRight, OperatorMethod, BinOpCode;
    OperatorInstruction(op, a, b, t);
  }

  lemma UnaryOperatorsCompute(op: UnOp, operand: Expr, env: Env<nat>, t: FheType, a: nat)
    requires IsSmallScalar(t) && InRange(a, t) && EvalExpr(NUMBERS, operand, env) == Ok(Typed(t, a))
    ensures EvalExpr(NUMBERS, Dsl.Unary(op, operand), env) == Ok(Typed(t, Transformed(UnaryMethod(op), a, t)))
  {
    hide UnaryValue, InRange, Transformed;
    UnaryInstruction(UnaryMethod(op), a, t);
  }
}
