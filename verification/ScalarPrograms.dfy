/** Programs over encrypted scalars, read as arithmetic: what every expression of at most 128 bits says,
    without operation codes, engines or graphs, and the proof that the compiled graph decrypts to that. */
module ScalarPrograms {
  import opened Arith
  import opened LittleEndian
  import opened FheTypes
  import opened ScalarOps
  import opened GraphFormat
  import opened GraphBuilding
  import opened Evaluator
  import opened Script
  import opened Dsl
  import opened MethodMeaning
  import opened Compiler
  import opened CompilerProof
  import opened CompilerAcceptance
  import opened CompiledSize
  import opened MockEngine
  import opened TableRefinement
  import opened ScalarGraphs
  import opened EndToEnd

  /** A typed number: a scalar of at most 128 bits and a value in its range. */
  datatype Scalar = Scalar(ty: FheType, value: nat)

  predicate IsNumber(s: Scalar) {
    IsSmallScalar(s.ty) && InRange(s.value, s.ty)
  }

  lemma ZeroIsNumber(t: FheType)
    requires IsSmallScalar(t)
    ensures IsNumber(Scalar(t, 0))
  {
  }

  type Number = s: Scalar | IsNumber(s) witness (ZeroIsNumber(E_BOOL); Scalar(E_BOOL, 0))

  type Scope = map<string, Number>

  // ---- what an expression says ----

  function CombinedNumber(m: Method, a: Number, b: Number): Number
    requires Combines(m) && a.ty == b.ty
  {
    CombinedInRange(m, a.value, b.value, a.ty);
    Scalar(a.ty, Combined(m, a.value, b.value, a.ty))
  }

  lemma CombinedInRange(m: Method, a: nat, b: nat, t: FheType)
    requires Combines(m) && IsSmallScalar(t) && InRange(a, t) && InRange(b, t)
    ensures InRange(Combined(m, a, b, t), t)
  {
    hide BinaryValue, Combined, InRange;
    MethodInstruction(m, a, b, t);
    BinaryClosed(MethodCode(m).value, a, b, t);
  }

  function TransformedNumber(m: Method, a: Number): Number
    requires Transforms(m)
  {
    TransformedInRange(m, a.value, a.ty);
    Scalar(TransformedType(m, a.ty), Transformed(m, a.value, a.ty))
  }

  lemma TransformedInRange(m: Method, a: nat, t: FheType)
    requires Transforms(m) && IsSmallScalar(t) && InRange(a, t)
    ensures IsSmallScalar(TransformedType(m, t)) && InRange(Transformed(m, a, t), TransformedType(m, t))
  {
    hide UnaryValue, Transformed, InRange;
    UnaryInstruction(m, a, t);
    UnaryClosed(MethodCode(m).value, a, TransformedType(m, t));
  }

  /** A number converted to another type loses what does not fit. */
  function Converted(ty: FheType, a: Number): Number
    requires IsSmallScalar(ty)
  {
    Scalar(ty, a.value % Pow2(Width(ty)))
  }

  /** A constant keeps the bytes of its type; a bool must then be 0 or 1. */
  function Constant(ty: byte, value: nat): Option<Number> {
    if ty > 5 || value >= U128 then None
    else
      var kept := value % Pow2(8 * ByteWidth(ty));
      if InRange(kept, ty) then Some(Scalar(ty, kept)) else None
  }

  function BytesConstant(ty: byte, bytes: seq<byte>): Option<Number> {
    if ty > 5 || |bytes| != ByteWidth(ty) || !InRange(FromLe(bytes), ty) then None else Some(Scalar(ty, FromLe(bytes)))
  }

  /** The right operand of an operator: a bare literal is a constant of the left operand's type. */
  function RightSays(ty: FheType, right: Expr, scope: Scope): Option<Number>
    decreases right, 2
  {
    if right.Lit? then Constant(ty, right.value) else Says(right, scope)
  }

  /** A method on a number. */
  function MethodSays(r: Number, m: Method, args: seq<Expr>, scope: Scope): Option<Number>
    decreases args, 0
  {
    if Transforms(m) then if TakesNothing(m) && args != [] then None else Some(TransformedNumber(m, r))
    else if Combines(m) then
      if args == [] then ZeroIsNumber(r.ty); Some(Scalar(r.ty, 0))
      else
        var x := Says(args[0], scope);
        if x.None? || x.value.ty != r.ty then None else Some(CombinedNumber(m, r, x.value))
    else if m.Select? && |args| == 2 then
      var a, b := Says(args[0], scope), Says(args[1], scope);
      if a.None? || b.None? || a.value.ty != b.value.ty then None else Some(if r.value != 0 then a.value else b.value)
    else None
  }

  /** What an expression over scalars says, if it is well typed. */
  function Says(e: Expr, scope: Scope): Option<Number>
    decreases e, 1
  {
    match e
    case Var(name) => if name in scope then Some(scope[name]) else None
    case Ref(inner) => Says(inner, scope)
    case Paren(inner) => Says(inner, scope)
    case MethodCall(receiver, m, args) =>
      var r := Says(receiver, scope);
      if r.None? then None else MethodSays(r.value, m, args, scope)
    case Binary(op, left, right) =>
      var a := Says(left, scope);
      if a.None? then None
      else
        var b := RightSays(a.value.ty, right, scope);
        if b.None? || b.value.ty != a.value.ty then None else Some(CombinedNumber(OperatorMethod(op), a.value, b.value))
    case Unary(op, operand) =>
      var a := Says(operand, scope);
      if a.None? then None else Some(TransformedNumber(UnaryMethod(op), a.value))
    case If(cond, thn, els) =>
      var c, a := Says(cond, scope), Says(thn, scope);
      var b := if els.Some? then Says(els.value, scope) else None;
      if c.None? || a.None? || b.None? || a.value.ty != b.value.ty then None
      else Some(if c.value.value != 0 then a.value else b.value)
    case Into(ty, operand) =>
      var a := Says(operand, scope);
      if a.None? || ty > 5 then None else Some(Converted(ty, a.value))
    case From(ty, value) => Constant(ty, value)
    case Splat(ty, value) => Constant(ty, value)
    case FromBytes(ty, bytes) => BytesConstant(ty, bytes)
    case _ => None
  }

  // ---- evaluation agrees ----

  function NumberEnv(scope: Scope): Env<nat> {
    map x | x in scope :: Typed(scope[x].ty, scope[x].value)
  }

  /** What the type engine gives for a value of a type. */
  function Checked(t: FheType): Typed<nat> {
    Typed(t, t)
  }

  function TypeEnv(scope: Scope): Env<nat> {
    map x | x in scope :: Checked(scope[x].ty)
  }

  /** On the number engine the expression is the value, on the type engine it is the type. */
  predicate Evaluates(e: Expr, scope: Scope, n: Number) {
    && EvalExpr(NUMBERS, e, NumberEnv(scope)) == Ok(Typed(n.ty, n.value))
    && EvalExpr(TYPES, e, TypeEnv(scope)) == Ok(Checked(n.ty))
  }

  lemma ConstantIs(ty: byte, value: nat)
    requires Constant(ty, value).Some?
    ensures var bytes := ConstantBytesOf(ty, value);
            BytesToU128(bytes) == Constant(ty, value).value.value && TypeConstant(ty, bytes) == ty
  {
    hide BytesToU128, U128ToBytes, Pow2;
    RangeFitsBytes(ty);
    BytesRoundTrip(value, ByteWidth(ty));
  }

  lemma ConstantEvaluates(e: Expr, scope: Scope)
    requires e.From? || e.Splat? || e.FromBytes?
    requires Says(e, scope).Some?
    ensures Evaluates(e, scope, Says(e, scope).value)
  {
    hide BytesToU128, ConstantBytesOf, ByteWidth, InRange, TypeConstant, Constant;
    match e
    case From(ty, value) => ConstantTyped(ty, value); ConstantIs(ty, value);
    case Splat(ty, value) => ConstantTyped(ty, value); ConstantIs(ty, value);
    case FromBytes(ty, bytes) => BytesConstantIs(ty, bytes);
  }

  lemma ConstantTyped(ty: byte, value: nat)
    requires Constant(ty, value).Some?
    ensures ty <= 5 && value < U128 && Constant(ty, value).value.ty == ty && VecElementSize(ty) == 0
  {
  }

  lemma BytesConstantIs(ty: byte, bytes: seq<byte>)
    requires BytesConstant(ty, bytes).Some?
    ensures ty <= 5 && BytesToU128(bytes) == FromLe(bytes) && TypeConstant(ty, bytes) == ty
  {
    RangeFitsBytes(ty);
    BytesToU128IsFromLe(bytes);
  }

  lemma RightEvaluates(ty: FheType, right: Expr, scope: Scope)
    requires IsSmallScalar(ty) && RightSays(ty, right, scope).Some?
    requires right.Lit? || Evaluates(right, scope, Says(right, scope).value)
    ensures var n := RightSays(ty, right, scope).value;
            && EvalRight(NUMBERS, ty, right, NumberEnv(scope)) == Ok(Typed(n.ty, n.value))
            && EvalRight(TYPES, ty, right, TypeEnv(scope)) == Ok(Checked(n.ty))
  {
    hide ConstantBytesOf, TypeConstant, BytesToU128, EvalExpr, Says, Constant;
    if right.Lit? {
      ConstantTyped(ty, right.value);
      ConstantIs(ty, right.value);
    }
  }

  /** Methods on the type engine. */
  lemma MethodsTypecheck(m: Method, recv: Expr, args: seq<Expr>, env: Env<nat>, t: FheType)
    requires IsSmallScalar(t) && EvalExpr(TYPES, recv, env) == Ok(Checked(t)) && MethodCode(m).Some?
    ensures ArityOf(m) == UnarySame || (ArityOf(m) == General && args == []) ==>
              EvalExpr(TYPES, MethodCall(recv, m, args), env) == Ok(Checked(t))
    ensures ArityOf(m) == UnaryBool ==> EvalExpr(TYPES, MethodCall(recv, m, args), env) == Ok(Checked(E_BOOL))
    ensures ArityOf(m) == General && args != [] && EvalExpr(TYPES, args[0], env) == Ok(Checked(t)) ==>
              EvalExpr(TYPES, MethodCall(recv, m, args), env) == Ok(Checked(t))
  {
    UnfoldMethod(TYPES, recv, m, args, env);
    hide EvalExpr, MethodCode, ArityOf;
  }

  lemma TransformEvaluates(recv: Expr, m: Method, args: seq<Expr>, scope: Scope, r: Number)
    requires Evaluates(recv, scope, r) && Transforms(m) && (TakesNothing(m) ==> args == [])
    ensures Evaluates(MethodCall(recv, m, args), scope, TransformedNumber(m, r))
  {
    hide EvalExpr, MethodCode, ArityOf, Transformed, InRange, UnaryValue;
    UnaryInstruction(m, r.value, r.ty);
    UnaryMethodsCompute(m, recv, args, NumberEnv(scope), r.ty, r.value);
    MethodsTypecheck(m, recv, args, TypeEnv(scope), r.ty);
  }

  lemma CombineEvaluates(recv: Expr, m: Method, args: seq<Expr>, scope: Scope, r: Number, x: Number)
    requires Evaluates(recv, scope, r) && Combines(m) && args != [] && Evaluates(args[0], scope, x) && x.ty == r.ty
    ensures Evaluates(MethodCall(recv, m, args), scope, CombinedNumber(m, r, x))
  {
    hide EvalExpr, MethodCode, ArityOf, Combined, InRange, UnaryValue, Combines;
    NoUnaryMeaning(m, 0, r.ty);
    MethodsCompute(m, recv, args, NumberEnv(scope), r.ty, r.value, r.ty, x.value);
    MethodsTypecheck(m, recv, args, TypeEnv(scope), r.ty);
  }

  lemma NoArgumentEvaluates(recv: Expr, m: Method, scope: Scope, r: Number)
    requires Evaluates(recv, scope, r) && Combines(m)
    ensures IsNumber(Scalar(r.ty, 0)) && Evaluates(MethodCall(recv, m, []), scope, Scalar(r.ty, 0))
  {
    hide EvalExpr, MethodCode, ArityOf, InRange, UnaryValue, Combines;
    ZeroIsNumber(r.ty);
    NoUnaryMeaning(m, 0, r.ty);
    MissingArgumentGivesZero(m, recv, NumberEnv(scope), r.ty, r.value);
    MethodsTypecheck(m, recv, [], TypeEnv(scope), r.ty);
  }

  lemma {:induction false} MethodEvaluates(recv: Expr, m: Method, args: seq<Expr>, scope: Scope, r: Number)
    requires Evaluates(recv, scope, r) && MethodSays(r, m, args, scope).Some?
    ensures Evaluates(MethodCall(recv, m, args), scope, MethodSays(r, m, args, scope).value)
    decreases args, 0
  {
    hide EvalExpr, Evaluates, Says, Combines, Transforms, TakesNothing, InRange, CombinedNumber, TransformedNumber;
    if Transforms(m) {
      TransformEvaluates(recv, m, args, scope, r);
    } else if Combines(m) {
      if args == [] {
        NoArgumentEvaluates(recv, m, scope, r);
      } else {
        MeaningEvaluates(args[0], scope);
        CombineEvaluates(recv, m, args, scope, r, Says(args[0], scope).value);
      }
    } else {
      MeaningEvaluates(args[0], scope);
      MeaningEvaluates(args[1], scope);
      SelectEvaluates(recv, args[0], args[1], scope, r, Says(args[0], scope).value, Says(args[1], scope).value);
      assert args == [args[0], args[1]];
    }
  }

  lemma SelectEvaluates(recv: Expr, x: Expr, y: Expr, scope: Scope, r: Number, a: Number, b: Number)
    requires Evaluates(recv, scope, r) && Evaluates(x, scope, a) && Evaluates(y, scope, b) && a.ty == b.ty
    ensures Evaluates(MethodCall(recv, Method.Select, [x, y]), scope, if r.value != 0 then a else b)
  {
    ChoicesCompute(Method.Select, recv, x, y, NumberEnv(scope),
                   Typed(r.ty, r.value), Typed(a.ty, a.value), Typed(b.ty, b.value));
    UnfoldMethod(TYPES, recv, Method.Select, [x, y], TypeEnv(scope));
    UnfoldTwoArguments(TYPES, TernaryOfFirst, SELECT, Checked(r.ty), x, y, TypeEnv(scope));
    hide EvalExpr, EvalMethod, InRange, NumberEnv, TypeEnv;
  }

  lemma OperatorEvaluates(op: BinOp, left: Expr, right: Expr, scope: Scope, a: Number, b: Number)
    requires Evaluates(left, scope, a) && a.ty == b.ty
    requires EvalRight(NUMBERS, a.ty, right, NumberEnv(scope)) == Ok(Typed(b.ty, b.value))
    requires EvalRight(TYPES, a.ty, right, TypeEnv(scope)) == Ok(Checked(b.ty))
    ensures Evaluates(Dsl.Binary(op, left, right), scope, CombinedNumber(OperatorMethod(op), a, b))
  {
    hide EvalRight, BinOpCode, Combined, OperatorMethod, InRange;
    OperatorsCompute(op, left, right, NumberEnv(scope), a.ty, a.value, b.value);
  }

  lemma BranchesEvaluate(cond: Expr, thn: Expr, els: Expr, scope: Scope, c: Number, a: Number, b: Number)
    requires Evaluates(cond, scope, c) && Evaluates(thn, scope, a) && Evaluates(els, scope, b) && a.ty == b.ty
    ensures Evaluates(If(cond, thn, Some(els)), scope, if c.value != 0 then a else b)
  {
    hide InRange;
  }

  lemma ConversionEvaluates(ty: byte, operand: Expr, scope: Scope, a: Number)
    requires ty <= 5 && Evaluates(operand, scope, a)
    ensures Evaluates(Into(ty, operand), scope, Converted(ty, a))
  {
    hide InRange, UnaryValue, Pow2;
    ConversionsReduce(a.value, ty);
  }

  lemma UnaryEvaluates(op: UnOp, operand: Expr, scope: Scope, a: Number)
    requires Evaluates(operand, scope, a)
    ensures Evaluates(Dsl.Unary(op, operand), scope, TransformedNumber(UnaryMethod(op), a))
  {
    hide InRange, UnaryValue, Transformed;
    UnaryOperatorsCompute(op, operand, NumberEnv(scope), a.ty, a.value);
  }

  /** Direct evaluation computes what the expression says, and the type check passes. */
  lemma {:induction false} MeaningEvaluates(e: Expr, scope: Scope)
    requires Says(e, scope).Some?
    ensures Evaluates(e, scope, Says(e, scope).value)
    decreases e, 1
  {
    hide EvalExpr, MethodSays, RightSays, CombinedNumber, TransformedNumber, Converted, InRange, OperatorMethod, UnaryMethod;
    match e
    case Var(name) => VariableEvaluates(name, scope);
    case Ref(inner) =>
      MeaningEvaluates(inner, scope);
      WrapperEvaluates(inner, scope);
    case Paren(inner) =>
      MeaningEvaluates(inner, scope);
      WrapperEvaluates(inner, scope);
    case MethodCall(receiver, m, args) =>
      MeaningEvaluates(receiver, scope);
      MethodEvaluates(receiver, m, args, scope, Says(receiver, scope).value);
    case Binary(op, left, right) =>
      MeaningEvaluates(left, scope);
      var a := Says(left, scope).value;
      RightNotLiteral(a.ty, right, scope);
      if !right.Lit? {
        MeaningEvaluates(right, scope);
      }
      RightEvaluates(a.ty, right, scope);
      OperatorEvaluates(op, left, right, scope, a, RightSays(a.ty, right, scope).value);
    case Unary(op, operand) =>
      MeaningEvaluates(operand, scope);
      UnaryEvaluates(op, operand, scope, Says(operand, scope).value);
    case If(cond, thn, els) =>
      MeaningEvaluates(cond, scope);
      MeaningEvaluates(thn, scope);
      MeaningEvaluates(els.value, scope);
      BranchesEvaluate(cond, thn, els.value, scope, Says(cond, scope).value, Says(thn, scope).value,
                       Says(els.value, scope).value);
    case Into(ty, operand) =>
      MeaningEvaluates(operand, scope);
      ConversionEvaluates(ty, operand, scope, Says(operand, scope).value);
    case _ => ConstantEvaluates(e, scope);
  }

  lemma VariableEvaluates(name: string, scope: Scope)
    requires name in scope
    ensures Evaluates(Var(name), scope, scope[name])
  {
  }

  lemma WrapperEvaluates(inner: Expr, scope: Scope)
    requires Says(inner, scope).Some? && Evaluates(inner, scope, Says(inner, scope).value)
    ensures Evaluates(Ref(inner), scope, Says(inner, scope).value)
    ensures Evaluates(Paren(inner), scope, Says(inner, scope).value)
  {
  }

  lemma RightNotLiteral(ty: FheType, right: Expr, scope: Scope)
    ensures !right.Lit? ==> RightSays(ty, right, scope) == Says(right, scope)
  {
  }

  // ---- whole programs ----

  function OutputsSay(es: seq<Expr>, scope: Scope): Option<seq<Number>> {
    if es == [] then Some([])
    else
      var x, rest := Says(es[0], scope), OutputsSay(es[1..], scope);
      if x.None? || rest.None? then None else Some([x.value] + rest.value)
  }

  /** Lets bind, and shadow; other statements are outputs. */
  function BodySays(body: seq<BodyStmt>, scope: Scope): Option<seq<Number>> {
    if body == [] then Some([])
    else
      match body[0]
      case LetStmt(name, init) =>
        if init.None? then BodySays(body[1..], scope)
        else
          var x := Says(init.value, scope);
          if x.None? then None else BodySays(body[1..], scope[name := x.value])
      case Emit(outputs) =>
        var xs, rest := OutputsSay(outputs, scope), BodySays(body[1..], scope);
        if xs.None? || rest.None? then None else Some(xs.value + rest.value)
  }

  function BindNumbers(params: seq<Param>, numbers: seq<Number>, scope: Scope): Scope
    requires |params| == |numbers|
  {
    if params == [] then scope else BindNumbers(params[1..], numbers[1..], scope[params[0].name := numbers[0]])
  }

  /** The arguments have the parameters' types. */
  predicate Matches(params: seq<Param>, numbers: seq<Number>) {
    |params| == |numbers| && forall i | 0 <= i < |params| :: params[i].ty == numbers[i].ty
  }

  /** What a function over scalars returns. */
  function FunctionSays(f: Dsl.Function, numbers: seq<Number>): Option<seq<Number>>
    requires Matches(f.params, numbers)
  {
    BodySays(f.body, BindNumbers(f.params, numbers, map[]))
  }

  function ValuesOf(numbers: seq<Number>): (vs: seq<nat>)
    ensures |vs| == |numbers|
  {
    seq(|numbers|, i requires 0 <= i < |numbers| => numbers[i].value)
  }

  function TypesOf(numbers: seq<Number>): (ts: seq<nat>)
    ensures |ts| == |numbers|
  {
    seq(|numbers|, i requires 0 <= i < |numbers| => numbers[i].ty)
  }

  lemma {:induction false} OutputsEvaluate(es: seq<Expr>, scope: Scope)
    requires OutputsSay(es, scope).Some?
    ensures EvalOutputs(NUMBERS, es, NumberEnv(scope)) == Ok(ValuesOf(OutputsSay(es, scope).value))
    ensures EvalOutputs(TYPES, es, TypeEnv(scope)) == Ok(TypesOf(OutputsSay(es, scope).value))
  {
    hide Says, EvalExpr, NumberEnv, TypeEnv, IsNumber;
    if es != [] {
      MeaningEvaluates(es[0], scope);
      OutputsEvaluate(es[1..], scope);
      var x, rest := Says(es[0], scope).value, OutputsSay(es[1..], scope).value;
      assert ValuesOf([x] + rest) == [x.value] + ValuesOf(rest);
      assert TypesOf([x] + rest) == [x.ty as nat] + TypesOf(rest);
    }
  }

  lemma {:induction false} BodyEvaluates(body: seq<BodyStmt>, scope: Scope)
    requires BodySays(body, scope).Some?
    ensures EvalBody(NUMBERS, body, NumberEnv(scope)) == Ok(ValuesOf(BodySays(body, scope).value))
    ensures EvalBody(TYPES, body, TypeEnv(scope)) == Ok(TypesOf(BodySays(body, scope).value))
    decreases |body|
  {
    hide Says, EvalExpr, OutputsSay, EvalOutputs;
    if body != [] {
      match body[0]
      case Emit(outputs) =>
        OutputsEvaluate(outputs, scope);
        BodyEvaluates(body[1..], scope);
        var xs, rest := OutputsSay(outputs, scope).value, BodySays(body[1..], scope).value;
        assert ValuesOf(xs + rest) == ValuesOf(xs) + ValuesOf(rest);
        assert TypesOf(xs + rest) == TypesOf(xs) + TypesOf(rest);
      case LetStmt(name, init) =>
        if init.None? {
          BodyEvaluates(body[1..], scope);
        } else {
          MeaningEvaluates(init.value, scope);
          var n := Says(init.value, scope).value;
          EnvUpdated(scope, name, n);
          BodyEvaluates(body[1..], scope[name := n]);
        }
    }
  }

  lemma EnvUpdated(scope: Scope, name: string, n: Number)
    ensures NumberEnv(scope[name := n]) == NumberEnv(scope)[name := Typed(n.ty, n.value)]
    ensures TypeEnv(scope[name := n]) == TypeEnv(scope)[name := Checked(n.ty)]
  {
  }

  lemma {:induction false} ParamsBind(params: seq<Param>, numbers: seq<Number>, scope: Scope)
    requires Matches(params, numbers)
    ensures BindParams(params, ValuesOf(numbers), NumberEnv(scope)) == NumberEnv(BindNumbers(params, numbers, scope))
    ensures BindParams(params, TypesOf(numbers), TypeEnv(scope)) == TypeEnv(BindNumbers(params, numbers, scope))
  {
    if params != [] {
      EnvUpdated(scope, params[0].name, numbers[0]);
      assert ValuesOf(numbers)[1..] == ValuesOf(numbers[1..]) && TypesOf(numbers)[1..] == TypesOf(numbers[1..]);
      ParamsBind(params[1..], numbers[1..], scope[params[0].name := numbers[0]]);
    }
  }

  lemma FunctionEvaluates(f: Dsl.Function, numbers: seq<Number>)
    requires Matches(f.params, numbers) && FunctionSays(f, numbers).Some?
    ensures TypesOf(numbers) == ParamTypes(f)
    ensures EvalFunction(NUMBERS, f, ValuesOf(numbers)) == Ok(ValuesOf(FunctionSays(f, numbers).value))
    ensures EvalFunction(TYPES, f, ParamTypes(f)) == Ok(TypesOf(FunctionSays(f, numbers).value))
  {
    hide BodySays, EvalBody, BindParams, BindNumbers;
    assert TypesOf(numbers) == ParamTypes(f);
    ParamsBind(f.params, numbers, map[]);
    assert NumberEnv(map[]) == map[] && TypeEnv(map[]) == map[];
    BodyEvaluates(f.body, BindNumbers(f.params, numbers, map[]));
  }

  /** A run of the evaluator ends with digests that decrypt to these numbers' bytes, each at its type. */
  predicate GivesNumbers(r: Result<Run, EvalError>, numbers: seq<Number>) {
    && r.Ok? && |r.value.digests| == |numbers|
    && forall i | 0 <= i < |numbers| ::
         DecryptCall(r.value.table, r.value.digests[i], numbers[i].ty) == Ok(ToLe(numbers[i].value, ByteWidth(numbers[i].ty)))
  }

  /** From source to decrypted outputs for every small program over scalars that says something: the
      compiler accepts it, its graph fits the format, and evaluating the serialized graph over digests
      of the arguments gives digests that decrypt to what the source says. */
  lemma ScalarProgramsDecrypt(table: Table, f: Dsl.Function, digests: seq<Digest>, numbers: seq<Number>, trailing: seq<byte>)
    requires WellFormedFunction(f) && SmallProgram(f)
    requires Matches(f.params, numbers) && FunctionSays(f, numbers).Some?
    requires Coherent(table) && InputsDenote(table, digests, ParamTypes(f), ValuesOf(numbers))
    ensures CompileFunction(f).Some? && Closed(CompileFunction(f).value, {}) && WithinLimits(CompiledGraph(f))
    ensures GivesNumbers(EvaluateOn(table, Serialize(CompiledGraph(f)) + trailing, digests), FunctionSays(f, numbers).value)
  {
    hide EvalFunction, CompileFunction, WellFormedFunction, SmallProgram, FunctionSays, Coherent, InputsDenote,
      EvaluateOn, Serialize, CompiledGraph, Closed, WithinLimits, DecryptCall, ParamTypes;
    FunctionEvaluates(f, numbers);
    EveryProgramWithAValueCompiles(NUMBERS, f, ValuesOf(numbers));
    SmallProgramsFit(f);
    CompiledScalarsDecrypt(table, f, digests, ValuesOf(numbers), trailing);
  }
}
