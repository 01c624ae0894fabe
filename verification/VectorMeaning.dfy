/** What methods and operators mean on encrypted vectors: lane by lane on arithmetic vectors, bit by bit on
    bit vectors, and by position for the methods that move lanes. */
module VectorMeaning {
  import opened Arith
  import opened Bits
  import opened LittleEndian
  import opened FheTypes
  import opened ScalarOps
  import opened Lanes
  import GraphBuilding
  import opened Evaluator
  import opened Dsl
  import opened MethodMeaning
  import opened TableRefinement

  // ---- operators are methods ----

  /** On every engine and value an operator is its method, a literal operand is a constant of the type the
      left operand suggests, and a conditional is a selection. */
  lemma OperatorIsMethod<V>(eng: Engine<V>, op: BinOp, left: Expr, right: Expr, env: Env<V>)
    requires !IsLiteral(right)
    ensures EvalExpr(eng, Dsl.Binary(op, left, right), env) == EvalExpr(eng, MethodCall(left, OperatorMethod(op), [right]), env)
  {
    SameInstruction(op);
    GeneralOperator(op);
    var l := EvalExpr(eng, left, env);
    if l.Ok? {
      UnfoldMethod(eng, left, OperatorMethod(op), [right], env);
      UnfoldArgument(eng, BinOpCode(op), l.value, right, env);
    }
    hide EvalMethod, BinOpCode, OperatorMethod, MethodCode, MaybeScalarOp;
  }

  lemma GeneralOperator(op: BinOp)
    ensures ArityOf(OperatorMethod(op)) == General
  {
  }

  lemma UnfoldArgument<V>(eng: Engine<V>, op: byte, recv: Typed<V>, arg: Expr, env: Env<V>)
    ensures var x := EvalExpr(eng, arg, env);
            EvalMethod(eng, General, op, recv, [arg], env)
            == if x.Err? then x
               else BinaryResult(eng, MaybeScalarOp(op, recv.ty, x.value.ty), recv.ty, recv.value, x.value.value)
  {
    hide EvalExpr, BinaryResult, MaybeScalarOp;
    assert [arg] != [] && [arg][0] == arg;
  }

  lemma LiteralIsConstant<V>(eng: Engine<V>, op: BinOp, left: Expr, value: nat, env: Env<V>)
    requires EvalExpr(eng, left, env).Ok? && value < U128
    ensures EvalExpr(eng, Dsl.Binary(op, left, Lit(value)), env)
         == EvalExpr(eng, Dsl.Binary(op, left, From(LiteralType(EvalExpr(eng, left, env).value.ty), value)), env)
  {
    hide BinaryResult, MaybeScalarOp, BinOpCode;
    ConstantLiteral(eng, EvalExpr(eng, left, env).value.ty, value, env);
  }

  lemma ConstantLiteral<V>(eng: Engine<V>, left: byte, value: nat, env: Env<V>)
    requires value < U128
    ensures EvalRight(eng, left, Lit(value), env) == EvalRight(eng, left, From(LiteralType(left), value), env)
  {
  }

  lemma ConditionalIsSelect<V>(eng: Engine<V>, cond: Expr, thn: Expr, els: Expr, env: Env<V>)
    ensures EvalExpr(eng, If(cond, thn, Some(els)), env) == EvalExpr(eng, MethodCall(cond, Method.Select, [thn, els]), env)
  {
    assert [thn, els][0] == thn && [thn, els][1] == els;
  }

  lemma UnaryIsMethod<V>(eng: Engine<V>, op: UnOp, operand: Expr, env: Env<V>)
    ensures EvalExpr(eng, Dsl.Unary(op, operand), env) == EvalExpr(eng, MethodCall(operand, UnaryMethod(op), []), env)
  {
  }

  // ---- arithmetic vectors, lane by lane ----

  /** Lane i of two vectors, combined. */
  function LaneCombined(m: Method, v: seq<byte>, b: seq<byte>, t: FheType, i: nat): nat
    requires Combines(m) && FullVector(v, t) && FullVector(b, t) && i < ElementCount(t)
  {
    FullVectorReadable(v, t, i);
    FullVectorReadable(b, t, i);
    Combined(m, Lane(v, ElementByteWidth(t), i), Lane(b, ElementByteWidth(t), i), ScalarElementType(t))
  }

  /** Lane i combined with one number. */
  function LaneWithScalar(m: Method, v: seq<byte>, c: nat, t: FheType, i: nat): nat
    requires Combines(m) && FullVector(v, t) && InRange(c, ScalarElementType(t)) && i < ElementCount(t)
  {
    FullVectorReadable(v, t, i);
    Combined(m, Lane(v, ElementByteWidth(t), i), c, ScalarElementType(t))
  }

  function LaneTransformed(m: Method, v: seq<byte>, t: FheType, i: nat): nat
    requires Transforms(m) && FullVector(v, t) && i < ElementCount(t)
  {
    FullVectorReadable(v, t, i);
    Transformed(m, Lane(v, ElementByteWidth(t), i), ScalarElementType(t))
  }

  /** Methods that accept one number for all lanes. */
  predicate AcceptsScalar(m: Method) {
    Combines(m) && !m.Nor? && !m.Nand? && !m.ShiftLeft? && !m.ShiftRight? && !m.RotateLeft? && !m.RotateRight?
  }

  lemma CombiningCode(m: Method)
    requires Combines(m)
    ensures MethodCode(m).Some? && ArityOf(m) == General
    ensures !Structural(MethodCode(m).value) && !IsScalarOp(MethodCode(m).value)
    ensures ScalarVariant(MethodCode(m).value).Some? <==> AcceptsScalar(m)
  {
  }

  /** The scalar variant of an instruction computes the same and reads its operand once. */
  lemma VariantSame(op: byte, a: nat, b: nat, t: FheType)
    requires ScalarVariant(op).Some?
    ensures BinaryValue(ScalarVariant(op).value, a, b, t) == BinaryValue(op, a, b, t)
    ensures IsScalarOp(ScalarVariant(op).value) && !Structural(ScalarVariant(op).value)
  {
  }

  lemma ElementIsSmall(t: FheType)
    requires E_VECTOR_U8 <= t <= E_VECTOR_U128
    ensures IsSmallScalar(ScalarElementType(t)) && ScalarElementType(t) == t - 31
  {
  }

  /** One value, or a failure, of the plain engine at a type. */
  predicate Yields(r: Result<Typed<Plain>, SourceError>, ty: byte, bytes: seq<byte>) {
    r == Ok(Typed(ty, Known(bytes)))
  }

  /** A method of two vectors combines them lane by lane. */
  lemma VectorMethodsCombine(m: Method, recv: Expr, args: seq<Expr>, env: Env<Plain>, t: FheType, v: seq<byte>, b: seq<byte>, i: nat)
    requires Combines(m) && args != [] && FullVector(v, t) && FullVector(b, t) && i < ElementCount(t)
    requires Yields(EvalExpr(PLAIN, recv, env), t, v) && Yields(EvalExpr(PLAIN, args[0], env), t, b)
    ensures var r := EvalExpr(PLAIN, MethodCall(recv, m, args), env);
            && r.Ok? && r.value.ty == t && r.value.value.Known? && FullVector(r.value.value.bytes, t)
            && Lane(r.value.value.bytes, ElementByteWidth(t), i) == LaneCombined(m, v, b, t, i)
  {
    hide BinaryBytes, BinaryValue, Combined, MethodCode, ArityOf, ElementByteWidth, ElementCount, InRange, ReadLe, EvalMethod;
    CombiningCode(m);
    var op := MethodCode(m).value;
    ElementIsSmall(t);
    FullVectorReadable(v, t, i);
    FullVectorReadable(b, t, i);
    BinaryIsLanewise(op, v, b, t, i);
    MethodInstruction(m, Lane(v, ElementByteWidth(t), i), Lane(b, ElementByteWidth(t), i), ScalarElementType(t));
    UnfoldMethod(PLAIN, recv, m, args, env);
    UnfoldCombine(op, t, v, t, b, args, env);
    hide EvalExpr;
  }

  /** A combining method on plain values is its instruction, or the scalar variant of it. */
  lemma UnfoldCombine(op: byte, t: FheType, v: seq<byte>, t': FheType, b: seq<byte>, args: seq<Expr>, env: Env<Plain>)
    requires args != [] && Yields(EvalExpr(PLAIN, args[0], env), t', b)
    ensures EvalMethod(PLAIN, General, op, Typed(t, Known(v)), args, env)
         == Lift(t, KnownOr(BinaryBytes(MaybeScalarOp(op, t, t'), v, b, t)))
  {
    hide EvalExpr, BinaryBytes, MaybeScalarOp;
  }

  /** A method of a vector and a number combines every lane with the number, if it accepts one; the
      other methods read past the number's bytes, and the evaluation panics. */
  lemma VectorMethodsBroadcast(m: Method, recv: Expr, args: seq<Expr>, env: Env<Plain>, t: FheType, v: seq<byte>,
                               t': FheType, b: seq<byte>, i: nat)
    requires Combines(m) && args != [] && FullVector(v, t) && i < ElementCount(t)
    requires t' <= 15 && |b| <= 16 && InRange(BytesToU128(b), ScalarElementType(t))
    requires Yields(EvalExpr(PLAIN, recv, env), t, v) && Yields(EvalExpr(PLAIN, args[0], env), t', b)
    ensures var r := EvalExpr(PLAIN, MethodCall(recv, m, args), env);
            && (!AcceptsScalar(m) ==> r == Err(Failed(Compute(Panicked))))
            && (AcceptsScalar(m) ==>
              && r.Ok? && r.value.ty == t && r.value.value.Known? && FullVector(r.value.value.bytes, t)
              && Lane(r.value.value.bytes, ElementByteWidth(t), i) == LaneWithScalar(m, v, BytesToU128(b), t, i))
  {
    hide BinaryBytes, BinaryValue, Combined, MethodCode, ArityOf, ElementByteWidth, ElementCount, InRange, ReadLe, EvalMethod,
      ScalarVariant, AcceptsScalar, BytesToU128;
    CombiningCode(m);
    var op := MethodCode(m).value;
    ElementIsSmall(t);
    FullVectorReadable(v, t, i);
    UnfoldMethod(PLAIN, recv, m, args, env);
    UnfoldCombine(op, t, v, t', b, args, env);
    hide EvalExpr;
    if AcceptsScalar(m) {
      var c, lane := BytesToU128(b), Lane(v, ElementByteWidth(t), i);
      VariantSame(op, lane, c, ScalarElementType(t));
      BinaryIsLanewise(ScalarVariant(op).value, v, b, t, i);
      MethodInstruction(m, lane, c, ScalarElementType(t));
    } else {
      ShortOperandPanics(op, v, b, t);
    }
  }

  /** An element-wise instruction that is not a scalar variant needs the bytes of every lane. */
  lemma ShortOperandPanics(op: nat, v: seq<byte>, b: seq<byte>, t: FheType)
    requires FullVector(v, t) && !Structural(op) && !IsScalarOp(op) && |b| <= 16
    ensures BinaryBytes(op, v, b, t) == None
  {
    hide BinaryValue, BinaryWrites, ElementByteWidth, ElementCount, GatherReadable, ScatterReadable, Written;
    ManyLanes(t);
  }

  lemma ManyLanes(t: FheType)
    requires E_VECTOR_U8 <= t <= E_VECTOR_U128
    ensures (ElementCount(t) - 1) * ElementByteWidth(t) > 16
  {
    assert t == 32 || t == 33 || t == 34 || t == 35 || t == 36;
  }

  /** A unary method transforms every lane. */
  lemma VectorMethodsTransform(m: Method, recv: Expr, args: seq<Expr>, env: Env<Plain>, t: FheType, v: seq<byte>, i: nat)
    requires Transforms(m) && !m.ToBoolean? && (TakesNothing(m) ==> args == []) && FullVector(v, t) && i < ElementCount(t)
    requires Yields(EvalExpr(PLAIN, recv, env), t, v)
    ensures var r := EvalExpr(PLAIN, MethodCall(recv, m, args), env);
            && r.Ok? && r.value.ty == t && r.value.value.Known? && FullVector(r.value.value.bytes, t)
            && Lane(r.value.value.bytes, ElementByteWidth(t), i) == LaneTransformed(m, v, t, i)
  {
    hide UnaryBytes, UnaryValue, Transformed, MethodCode, ArityOf, ElementByteWidth, ElementCount, InRange, ReadLe, EvalMethod;
    ElementIsSmall(t);
    FullVectorReadable(v, t, i);
    var lane := Lane(v, ElementByteWidth(t), i);
    UnaryInstruction(m, lane, ScalarElementType(t));
    UnaryIsLanewise(MethodCode(m).value, v, t, i);
    UnfoldMethod(PLAIN, recv, m, args, env);
    UnfoldTransform(ArityOf(m), MethodCode(m).value, t, v, args, env);
    hide EvalExpr;
  }

  lemma UnfoldTransform(arity: Arity, op: byte, t: FheType, v: seq<byte>, args: seq<Expr>, env: Env<Plain>)
    requires arity == UnarySame || (arity == General && args == [])
    ensures EvalMethod(PLAIN, arity, op, Typed(t, Known(v)), args, env) == Lift(t, KnownOr(UnaryBytes(op, v, t)))
  {
    hide UnaryBytes;
  }

  // ---- conversions ----

  /** A conversion is accepted for every type there is, whatever the operand's. */
  lemma ConversionMeans<V>(eng: Engine<V>, ty: byte, operand: Expr, env: Env<V>)
    requires EvalExpr(eng, operand, env).Ok?
    ensures EvalExpr(eng, Into(ty, operand), env)
         == if ty > 44 then Err(Rejected) else Lift(ty, eng.unary(82, EvalExpr(eng, operand, env).value.value, ty))
  {
  }

  /** Converting a vector to another vector type keeps its bytes: the elements are read at the new width,
      none is converted. */
  lemma VectorConversionReinterprets(ty: FheType, operand: Expr, env: Env<Plain>, t: FheType, v: seq<byte>)
    requires FullVector(v, t) && E_VECTOR_U8 <= ty <= E_VECTOR_U128
    requires Yields(EvalExpr(PLAIN, operand, env), t, v)
    ensures Yields(EvalExpr(PLAIN, Into(ty, operand), env), ty, v)
  {
    hide UnaryBytes, UnaryValue, ElementByteWidth, ElementCount, ReadLe, InRange, EvalExpr;
    ConversionMeans(PLAIN, ty, operand, env);
    LaneWidth(ty);
    UnaryIsLanewise(INTO, v, ty, 0);
    var r := UnaryBytes(INTO, v, ty).value;
    forall i: nat | i < ElementCount(ty)
      ensures Lane(r, ElementByteWidth(ty), i) == Lane(v, ElementByteWidth(ty), i)
    {
      UnaryIsLanewise(INTO, v, ty, i);
      FullVectorReadable(v, ty, i);
      ConversionKeeps(Lane(v, ElementByteWidth(ty), i), ScalarElementType(ty));
    }
    SameVector(r, v, ty);
  }

  lemma ConversionKeeps(a: nat, t: FheType)
    requires InRange(a, t)
    ensures UnaryValue(INTO, a, t) == a
  {
    hide UnaryValue, Pow2;
    ConversionsReduce(a, t);
    SmallMod(a, Pow2(Width(t)));
  }

  // ---- constants ----

  /** Which typed constants the compiler accepts: any value below 2^128 where one is asked for, elements only
      of arithmetic vectors, and byte arrays for elements of more than 16 bytes. */
  lemma ConstantAcceptedIff(e: Expr)
    requires IsConstructor(e)
    ensures ConstructorBytes(e).Some? <==>
            e.ty <= 44 &&
            match e
            case From(_, value) => value < U128
            case Splat(ty, value) => value < U128 && (IsArithmeticVector(ty) ==> ElementByteWidth(ty) <= 16)
            case FromBytes(_, _) => true
            case FromElements(ty, elements) =>
              && IsArithmeticVector(ty)
              && (ElementByteWidth(ty) > 16 ==> forall x <- elements :: |x| == ElementByteWidth(ty))
            case SplatBytes(ty, bytes) => IsArithmeticVector(ty) && 16 < ElementByteWidth(ty) == |bytes|
  {
    hide ElementByteWidth, ElementCount, Repeat, Concat, ToLe;
  }

  lemma {:induction false} ConcatLength(elements: seq<seq<byte>>, size: nat)
    requires forall x <- elements :: |x| == size
    ensures |Concat(elements)| == |elements| * size
  {
    if elements != [] {
      assert elements[0] in elements;
      ConcatLength(elements[1..], size);
      OneMore(|elements| - 1, size);
    }
  }

  lemma OneMore(n: nat, size: nat)
    ensures (n + 1) * size == n * size + size
  {
  }

  lemma SliceBehind(x: seq<byte>, rest: seq<byte>, lo: nat, hi: nat)
    requires lo <= hi <= |rest|
    ensures (x + rest)[|x| + lo..|x| + hi] == rest[lo..hi]
  {
  }

  lemma {:induction false} ElementInPlace(elements: seq<seq<byte>>, size: nat, i: nat)
    requires i < |elements| && forall x <- elements :: |x| == size
    ensures |Concat(elements)| == |elements| * size && i * size + size <= |elements| * size
    ensures Concat(elements)[i * size..i * size + size] == elements[i]
  {
    ConcatLength(elements, size);
    MulLe(i + 1, |elements|, size);
    OneMore(i, size);
    assert elements[0] in elements;
    var rest := Concat(elements[1..]);
    assert Concat(elements) == elements[0] + rest;
    if i > 0 {
      ElementInPlace(elements[1..], size, i - 1);
      OneMore(i - 1, size);
      SliceBehind(elements[0], rest, (i - 1) * size, (i - 1) * size + size);
    }
  }

  /** Elements become the lanes, in order. */
  lemma ElementsAreLanes<V>(eng: Engine<V>, elements: seq<seq<byte>>, t: FheType, env: Env<V>, i: nat)
    requires E_VECTOR_U8 <= t <= E_VECTOR_U128 && |elements| == ElementCount(t) && i < |elements|
    requires forall x <- elements :: |x| == ElementByteWidth(t)
    ensures FullVector(Concat(elements), t) && Lane(Concat(elements), ElementByteWidth(t), i) == FromLe(elements[i])
    ensures EvalExpr(eng, FromElements(t, elements), env) == Ok(Typed(t, eng.constant(t, Concat(elements))))
  {
    hide ElementByteWidth, ElementCount, Concat, FromLe;
    LaneWidth(t);
    ElementInPlace(elements, ElementByteWidth(t), i);
    LaneFits(t, i);
    ReadWithin(Concat(elements), i * ElementByteWidth(t), ElementByteWidth(t));
    ConstantAcceptedIff(FromElements(t, elements));
  }

  /** A splat of wide elements repeats them; a narrow one is `EndToEnd.SplatLane`. */
  lemma {:induction false} RepeatedBytes(bytes: seq<byte>, n: nat, k: nat)
    requires bytes != [] && k < n * |bytes|
    ensures Repeat(bytes, n)[k] == bytes[k % |bytes|]
    decreases n
  {
    var front := (n - 1) * |bytes|;
    assert n * |bytes| == front + |bytes|;
    if k < front {
      RepeatedBytes(bytes, n - 1, k);
    } else {
      DivModUnique(k, |bytes|, n - 1, k - front);
    }
  }

  // ---- methods that move lanes ----

  predicate Moves(m: Method) {
    m.Gather? || m.Scatter? || m.Get? || m.Copy?
  }

  /** What moving lanes leaves, or None where a slice index panics. */
  function MovedLanes(m: Method, v: seq<byte>, b: seq<byte>, t: FheType): Option<seq<byte>>
    requires Moves(m)
  {
    match m
    case Gather => BinaryBytes(GATHER, v, b, t)
    case Scatter => BinaryBytes(SCATTER, v, b, t)
    case Get => BinaryBytes(GET, v, b, t)
    case Copy => Some(b)
  }

  /** Gather, scatter and get are the byte operations of those names; copy is its argument. */
  lemma MovesCompute(m: Method, recv: Expr, arg: Expr, env: Env<Plain>, t: FheType, v: seq<byte>, b: seq<byte>)
    requires Moves(m) && IsArithmeticVector(t)
    requires Yields(EvalExpr(PLAIN, recv, env), t, v) && Yields(EvalExpr(PLAIN, arg, env), t, b)
    ensures EvalExpr(PLAIN, MethodCall(recv, m, [arg]), env) == Lift(t, KnownOr(MovedLanes(m, v, b, t)))
  {
    hide BinaryBytes, EvalExpr, EvalMethod;
    MoveInstruction(m);
    UnfoldMethod(PLAIN, recv, m, [arg], env);
    UnfoldCombine(MethodCode(m).value, t, v, t, b, [arg], env);
    SameTypeStays(MethodCode(m).value, t);
    CopyIsSecond(v, b, t);
  }

  lemma MoveInstruction(m: Method)
    requires Moves(m)
    ensures ArityOf(m) == General
    ensures MethodCode(m) == Some(if m.Gather? then GATHER else if m.Scatter? then SCATTER else if m.Get? then GET else COPY)
  {
  }

  lemma SameTypeStays(op: byte, t: FheType)
    ensures MaybeScalarOp(op, t, t) == op
  {
  }

  /** Assigning a lane vector or one number, choosing lane by lane, and choosing whole values. */
  lemma AssignmentsCompute(recv: Expr, x: Expr, y: Expr, env: Env<Plain>, t: FheType, v: seq<byte>, t': FheType, a: seq<byte>, t'': FheType, b: seq<byte>)
    requires Yields(EvalExpr(PLAIN, recv, env), t, v)
    requires Yields(EvalExpr(PLAIN, x, env), t', a) && Yields(EvalExpr(PLAIN, y, env), t'', b)
    ensures EvalExpr(PLAIN, MethodCall(recv, Assign, [x, y]), env) == Lift(t, KnownOr(TernaryBytes(ASSIGN, v, a, b, t)))
    ensures EvalExpr(PLAIN, MethodCall(recv, AssignScalars, [x, y]), env)
         == Lift(t, KnownOr(TernaryBytes(ASSIGN_SCALARS, v, a, b, t)))
    ensures EvalExpr(PLAIN, MethodCall(recv, Method.SelectScalar, [x, y]), env)
         == Lift(t', KnownOr(TernaryBytes(SELECT_SCALAR, v, a, b, t')))
    ensures EvalExpr(PLAIN, MethodCall(recv, Method.Select, [x, y]), env)
         == Ok(Typed(t', Known(if BytesToU128(v) != 0 then a else b)))
    ensures EvalExpr(PLAIN, MethodCall(recv, Method.Blend, [x, y]), env) == Ok(Typed(t', Known(v)))
  {
    hide TernaryBytes, EvalExpr, EvalMethod, BytesToU128;
    AssignmentComputes(Assign, recv, x, y, env, t, v, t', a, b);
    AssignmentComputes(AssignScalars, recv, x, y, env, t, v, t', a, b);
    AssignmentComputes(Method.SelectScalar, recv, x, y, env, t, v, t', a, b);
    AssignmentComputes(Method.Select, recv, x, y, env, t, v, t', a, b);
    AssignmentComputes(Method.Blend, recv, x, y, env, t, v, t', a, b);
    BlendKeepsReceiver(v, a, b, t');
  }

  lemma BlendKeepsReceiver(v: seq<byte>, a: seq<byte>, b: seq<byte>, t: FheType)
    ensures TernaryBytes(BLEND, v, a, b, t) == Some(v)
  {
    hide Written, ScatterWrites, BroadcastWrites, SelectWrites;
  }

  lemma AssignmentComputes(m: Method, recv: Expr, x: Expr, y: Expr, env: Env<Plain>, t: FheType, v: seq<byte>, t': FheType,
                           a: seq<byte>, b: seq<byte>)
    requires Chooses(m) && Yields(EvalExpr(PLAIN, recv, env), t, v) && Yields(EvalExpr(PLAIN, x, env), t', a)
    requires EvalExpr(PLAIN, y, env).Ok? && EvalExpr(PLAIN, y, env).value.value == Known(b)
    ensures MethodCode(m).Some?
    ensures var ty := if m.Assign? || m.AssignScalars? then t else t';
            EvalExpr(PLAIN, MethodCall(recv, m, [x, y]), env) ==
            Lift(ty, PlainTernary(MethodCode(m).value, Known(v), Known(a), Known(b), ty))
  {
    hide PlainTernary, EvalMethod;
    UnfoldMethod(PLAIN, recv, m, [x, y], env);
    UnfoldTwoArguments(PLAIN, ArityOf(m), MethodCode(m).value, Typed(t, Known(v)), x, y, env);
    hide EvalExpr;
  }

  // ---- bit vectors ----

  /** Bit i of a byte string; bits past its end are clear. */
  predicate BitOf(s: seq<byte>, i: nat) {
    i / 8 < |s| && Bit(s[i / 8], i % 8)
  }

  lemma BitOfByte(s: seq<byte>, i: nat)
    ensures BitOf(s, i) == Bit(ByteAt(s, i / 8), i % 8)
  {
    ZeroBits(i % 8);
  }

  lemma ByteInRange(x: byte)
    ensures InRange(x, E_UINT8) && x < U128
  {
    Pow2Literals();
  }

  /** The bitwise methods on bit vectors, bit by bit. */
  lemma BitVectorLogic(a: seq<byte>, b: seq<byte>, t: FheType, i: nat)
    requires IsBitVector(t) && i < 8 * ByteWidth(t)
    ensures BitOf(BinaryBytes(AND, a, b, t).value, i) == (BitOf(a, i) && BitOf(b, i))
    ensures BitOf(BinaryBytes(OR, a, b, t).value, i) == (BitOf(a, i) || BitOf(b, i))
    ensures BitOf(BinaryBytes(XOR, a, b, t).value, i) == (BitOf(a, i) != BitOf(b, i))
    ensures BitOf(BinaryBytes(NOR, a, b, t).value, i) == !(BitOf(a, i) || BitOf(b, i))
    ensures BitOf(BinaryBytes(NAND, a, b, t).value, i) == !(BitOf(a, i) && BitOf(b, i))
    ensures BitOf(UnaryBytes(NOT, a, t).value, i) == !BitOf(a, i)
  {
    hide BinaryValue, UnaryValue, Bit, ByteAt, BitOf, BinaryBytes, UnaryBytes;
    var x, y, j := ByteAt(a, i / 8), ByteAt(b, i / 8), i % 8;
    ByteInRange(x);
    ByteInRange(y);
    BitwiseOpsAreBitwise(x, y, E_UINT8, j);
    ComplementsAreBitwise(x, y, E_UINT8, j);
    BitOfByte(a, i);
    BitOfByte(b, i);
    BitOfResult(AND, a, b, t, i);
    BitOfResult(OR, a, b, t, i);
    BitOfResult(XOR, a, b, t, i);
    BitOfResult(NOR, a, b, t, i);
    BitOfResult(NAND, a, b, t, i);
    BitOfUnary(NOT, a, t, i);
  }

  /** Every other method on bit vectors is the method on EUint8, byte by byte. */
  lemma BytesOfBitVector(op: nat, a: seq<byte>, b: seq<byte>, t: FheType, k: nat)
    requires IsBitVector(t) && k < ByteWidth(t) && !IsScalarOp(op)
    ensures BinaryBytes(op, a, b, t).Some? && |BinaryBytes(op, a, b, t).value| == ByteWidth(t)
    ensures BinaryBytes(op, a, b, t).value[k] == BinaryValue(op, ByteAt(a, k), ByteAt(b, k), E_UINT8)
  {
    hide BinaryValue, ByteWidth;
    ByteInRange(ByteAt(a, k));
    ByteInRange(ByteAt(b, k));
    BinaryClosed(op, ByteAt(a, k), ByteAt(b, k), E_UINT8);
    ByteUnchanged(BinaryValue(op, ByteAt(a, k), ByteAt(b, k), E_UINT8));
  }

  lemma ByteUnchanged(v: nat)
    requires InRange(v, E_UINT8)
    ensures v % 256 == v && v < 256
  {
    Pow2Literals();
  }

  lemma BitOfResult(op: nat, a: seq<byte>, b: seq<byte>, t: FheType, i: nat)
    requires IsBitVector(t) && i < 8 * ByteWidth(t) && !IsScalarOp(op)
    ensures BinaryBytes(op, a, b, t).Some?
    ensures BitOf(BinaryBytes(op, a, b, t).value, i) == Bit(BinaryValue(op, ByteAt(a, i / 8), ByteAt(b, i / 8), E_UINT8), i % 8)
  {
    hide BinaryValue, BinaryBytes, Bit, ByteWidth;
    BytesOfBitVector(op, a, b, t, i / 8);
  }

  lemma BitOfUnary(op: nat, a: seq<byte>, t: FheType, i: nat)
    requires IsBitVector(t) && i < 8 * ByteWidth(t)
    ensures UnaryBytes(op, a, t).Some? && |UnaryBytes(op, a, t).value| == ByteWidth(t)
    ensures BitOf(UnaryBytes(op, a, t).value, i) == Bit(UnaryValue(op, ByteAt(a, i / 8), E_UINT8), i % 8)
  {
    hide UnaryValue, Bit, ByteWidth;
    UnaryClosed(op, ByteAt(a, i / 8), E_UINT8);
    ByteUnchanged(UnaryValue(op, ByteAt(a, i / 8), E_UINT8));
  }

  /** A number on the right meets every byte: its low eight bits repeat along the vector. */
  lemma BitVectorScalarLogic(a: seq<byte>, c: seq<byte>, t: FheType, i: nat)
    requires IsBitVector(t) && i < 8 * ByteWidth(t)
    ensures BitOf(BinaryBytes(AND_SCALAR, a, c, t).value, i) == (BitOf(a, i) && Bit(BytesToU128(c), i % 8))
    ensures BitOf(BinaryBytes(OR_SCALAR, a, c, t).value, i) == (BitOf(a, i) || Bit(BytesToU128(c), i % 8))
    ensures BitOf(BinaryBytes(XOR_SCALAR, a, c, t).value, i) == (BitOf(a, i) != Bit(BytesToU128(c), i % 8))
  {
    hide BinaryValue, Bit, ByteAt, BitOf, BinaryBytes, BytesToU128;
    var x, y, j := ByteAt(a, i / 8), BytesToU128(c), i % 8;
    BitwiseOpsAreBitwise(x, y, E_UINT8, j);
    VariantSame(AND, x, y, E_UINT8);
    VariantSame(OR, x, y, E_UINT8);
    VariantSame(XOR, x, y, E_UINT8);
    BitOfByte(a, i);
    BitOfScalar(AND_SCALAR, a, c, t, i);
    BitOfScalar(OR_SCALAR, a, c, t, i);
    BitOfScalar(XOR_SCALAR, a, c, t, i);
  }

  lemma BitOfScalar(op: nat, a: seq<byte>, c: seq<byte>, t: FheType, i: nat)
    requires IsBitVector(t) && i < 8 * ByteWidth(t) && IsScalarOp(op)
    ensures BinaryBytes(op, a, c, t).Some? && |BinaryBytes(op, a, c, t).value| == ByteWidth(t)
    ensures BitOf(BinaryBytes(op, a, c, t).value, i) == Bit(BinaryValue(op, ByteAt(a, i / 8), BytesToU128(c), E_UINT8), i % 8)
  {
    hide BinaryValue, BytesToU128, ByteWidth;
    var v := BinaryValue(op, ByteAt(a, i / 8), BytesToU128(c), E_UINT8);
    Pow2Literals();
    ModBits(v, 8, i % 8);
  }

  /** Methods on bit vectors are the methods on EUint8, byte by byte; a number on the right meets every
      byte. */
  lemma BitVectorMethodsCombine(m: Method, recv: Expr, args: seq<Expr>, env: Env<Plain>, t: FheType, a: seq<byte>,
                                t': FheType, b: seq<byte>, k: nat)
    requires Combines(m) && args != [] && IsBitVector(t) && k < ByteWidth(t)
    requires IsBitVector(t') || (t' <= 15 && AcceptsScalar(m) && BytesToU128(b) < 256)
    requires Yields(EvalExpr(PLAIN, recv, env), t, a) && Yields(EvalExpr(PLAIN, args[0], env), t', b)
    ensures var r := EvalExpr(PLAIN, MethodCall(recv, m, args), env);
            && r.Ok? && r.value.ty == t && r.value.value.Known? && |r.value.value.bytes| == ByteWidth(t)
            && r.value.value.bytes[k] == BytesCombined(m, ByteAt(a, k), if t' <= 15 then BytesToU128(b) else ByteAt(b, k))
  {
    hide BinaryBytes, BinaryValue, Combined, MethodCode, ArityOf, ByteWidth, InRange, EvalMethod, ScalarVariant, AcceptsScalar,
      BytesToU128, ByteAt;
    CombiningCode(m);
    var op := MethodCode(m).value;
    var x, y := ByteAt(a, k), if t' <= 15 then BytesToU128(b) else ByteAt(b, k);
    ByteInRange(x);
    ByteInRange(y);
    UnfoldMethod(PLAIN, recv, m, args, env);
    UnfoldCombine(op, t, a, t', b, args, env);
    hide EvalExpr;
    MethodInstruction(m, x, y, E_UINT8);
    if t' <= 15 {
      VariantSame(op, x, y, E_UINT8);
      ScalarBytesOfBitVector(ScalarVariant(op).value, a, b, t, k);
    } else {
      BytesOfBitVector(op, a, b, t, k);
    }
  }

  function BytesCombined(m: Method, x: nat, y: nat): nat
    requires Combines(m) && x < 256 && y < 256
  {
    ByteInRange(x);
    ByteInRange(y);
    Combined(m, x, y, E_UINT8)
  }

  lemma ScalarBytesOfBitVector(op: nat, a: seq<byte>, c: seq<byte>, t: FheType, k: nat)
    requires IsBitVector(t) && k < ByteWidth(t) && IsScalarOp(op) && BytesToU128(c) < 256
    ensures BinaryBytes(op, a, c, t).Some? && |BinaryBytes(op, a, c, t).value| == ByteWidth(t)
    ensures BinaryBytes(op, a, c, t).value[k] == BinaryValue(op, ByteAt(a, k), BytesToU128(c), E_UINT8)
  {
    hide BinaryValue, ByteWidth, BytesToU128;
    ByteInRange(ByteAt(a, k));
    ByteInRange(BytesToU128(c));
    BinaryClosed(op, ByteAt(a, k), BytesToU128(c), E_UINT8);
    ByteUnchanged(BinaryValue(op, ByteAt(a, k), BytesToU128(c), E_UINT8));
  }

  /** The type of a literal operand: the left operand's, or its element type; next to a bit vector it is an
      encrypted bool, whose one byte holds the literal modulo 256. */
  lemma LiteralTypes(left: FheType)
    ensures LiteralType(left) == if IsArithmeticVector(left) then ScalarElementType(left) else if IsBitVector(left) then E_BOOL else left
  {
  }

  /** A bit vector with a literal on the right: every byte meets the low byte of the literal. */
  lemma LiteralOnBitVector(op: BinOp, left: Expr, value: nat, env: Env<Plain>, t: FheType, a: seq<byte>, k: nat)
    requires !op.Shl? && !op.Shr? && value < U128 && IsBitVector(t) && k < ByteWidth(t)
    requires Yields(EvalExpr(PLAIN, left, env), t, a)
    ensures var r := EvalExpr(PLAIN, Dsl.Binary(op, left, Lit(value)), env);
            && r.Ok? && r.value.ty == t && r.value.value.Known? && |r.value.value.bytes| == ByteWidth(t)
            && r.value.value.bytes[k] == BytesCombined(OperatorMethod(op), ByteAt(a, k), value % 256)
  {
    hide EvalExpr, ByteWidth, Combined, ByteAt, OperatorMethod, LiteralType, ScalarElementType;
    LiteralIsConstant(PLAIN, op, left, value, env);
    LiteralTypes(t);
    var literal := From(E_BOOL, value);
    OperatorIsMethod(PLAIN, op, left, literal, env);
    BoolConstant(value, env);
    OperatorsAcceptScalars(op);
    BitVectorMethodsCombine(OperatorMethod(op), left, [literal], env, t, a, E_BOOL, [value % 256], k);
  }

  lemma OperatorsAcceptScalars(op: BinOp)
    ensures AcceptsScalar(OperatorMethod(op)) <==> !op.Shl? && !op.Shr?
  {
  }

  lemma BoolConstant(value: nat, env: Env<Plain>)
    requires value < U128
    ensures Yields(EvalExpr(PLAIN, From(E_BOOL, value), env), E_BOOL, [value % 256])
    ensures BytesToU128([value % 256]) == value % 256
  {
    U128ToBytesIsToLe(value, 1);
    assert ByteWidth(E_BOOL) == 1;
    assert ToLe(value, 1) == [value % 256] + ToLe(value / 256, 0) == [value % 256];
    assert GraphBuilding.ConstantBytesOf(E_BOOL, value) == [value % 256];
    BytesToU128IsFromLe([value % 256]);
    assert [value % 256][1..] == [];
  }
}
