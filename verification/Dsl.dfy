/** The graph language: its expressions, the tables that give operators and methods their operation
    codes, and its meaning as direct evaluation over any compute engine. */
module Dsl {
  import opened LittleEndian
  import opened FheTypes
  import opened GraphBuilding
  import opened Evaluator

  datatype BinOp =
    | Plus | Minus | Times | Slash | Percent | BitAnd | BitOr | BitXor | Shl | Shr
    | Eq | Ne | Gt | Ge | Lt | Le

  datatype UnOp = Neg | Bang

  datatype Method =
    | Select | SelectScalar | Blend | Assign | AssignScalars
    | Negate | Not | Bootstrap | PackInto | ToBoolean
    | Add | Multiply | Subtract | Divide | Modulo | Minimum | Maximum
    | Xor | And | Or | Nor | Nand | ShiftLeft | ShiftRight | RotateLeft | RotateRight
    | IsLessThan | IsEqual | IsNotEqual | IsGreaterThan | IsGreaterOrEqual | IsLessOrEqual
    | ExtractLsbs | ExtractMsbs | ThinBootstrap | Gather | Scatter | Copy | Get
    | Unsupported

  /** Expressions after name and type resolution: a type is its id, a byte-array argument its bytes. */
  datatype Expr =
    | Var(name: string)
    | Ref(inner: Expr)
    | Paren(inner: Expr)
    | Lit(value: nat)
    | MethodCall(receiver: Expr, callee: Method, args: seq<Expr>)
    | Binary(op: BinOp, left: Expr, right: Expr)
    | Unary(unop: UnOp, operand: Expr)
    | If(cond: Expr, thn: Expr, els: Option<Expr>)
    | From(ty: byte, value: nat)
    | FromBytes(ty: byte, bytes: seq<byte>)
    | FromElements(ty: byte, elements: seq<seq<byte>>)
    | Splat(ty: byte, value: nat)
    | SplatBytes(ty: byte, bytes: seq<byte>)
    | Into(ty: byte, operand: Expr)

  datatype Param = Param(name: string, ty: byte, plaintext: bool)

  /** `let name = init;`, a tuple of outputs, or any other expression statement: one output. */
  datatype BodyStmt =
    | LetStmt(name: string, init: Option<Expr>)
    | Emit(outputs: seq<Expr>)

  datatype Function = Function(params: seq<Param>, body: seq<BodyStmt>)

  // ---- tables ----

  function BinOpCode(op: BinOp): byte {
    match op
    case Plus => ADD case Minus => SUBTRACT case Times => MULTIPLY case Slash => DIVIDE case Percent => MODULO
    case BitAnd => AND case BitOr => OR case BitXor => XOR case Shl => SHIFT_LEFT case Shr => SHIFT_RIGHT
    case Eq => IS_EQUAL case Ne => IS_NOT_EQUAL case Gt => IS_GREATER_THAN case Ge => IS_GREATER_OR_EQUAL
    case Lt => IS_LESS_THAN case Le => IS_LESS_OR_EQUAL
  }

  function UnOpCode(op: UnOp): byte {
    match op case Neg => NEGATE case Bang => NOT
  }

  function MethodCode(m: Method): Option<byte> {
    match m
    case Select => Some(SELECT) case SelectScalar => Some(SELECT_SCALAR) case Blend => Some(BLEND)
    case Assign => Some(ASSIGN) case AssignScalars => Some(ASSIGN_SCALARS)
    case Negate => Some(NEGATE) case Not => Some(NOT) case Bootstrap => Some(BOOTSTRAP)
    case PackInto => Some(PACK_INTO) case ToBoolean => Some(TO_BOOLEAN)
    case Add => Some(ADD) case Multiply => Some(MULTIPLY) case Subtract => Some(SUBTRACT)
    case Divide => Some(DIVIDE) case Modulo => Some(MODULO) case Minimum => Some(MIN) case Maximum => Some(MAX)
    case Xor => Some(XOR) case And => Some(AND) case Or => Some(OR) case Nor => Some(NOR) case Nand => Some(NAND)
    case ShiftLeft => Some(SHIFT_LEFT) case ShiftRight => Some(SHIFT_RIGHT)
    case RotateLeft => Some(ROTATE_LEFT) case RotateRight => Some(ROTATE_RIGHT)
    case IsLessThan => Some(IS_LESS_THAN) case IsEqual => Some(IS_EQUAL) case IsNotEqual => Some(IS_NOT_EQUAL)
    case IsGreaterThan => Some(IS_GREATER_THAN) case IsGreaterOrEqual => Some(IS_GREATER_OR_EQUAL)
    case IsLessOrEqual => Some(IS_LESS_OR_EQUAL)
    case ExtractLsbs => Some(EXTRACT_LSBS) case ExtractMsbs => Some(EXTRACT_MSBS)
    case ThinBootstrap => Some(THIN_BOOTSTRAP)
    case Gather => Some(GATHER) case Scatter => Some(SCATTER) case Copy => Some(COPY) case Get => Some(GET)
    case Unsupported => None
  }

  /** How many operands a method takes and which one gives the result its type. */
  datatype Arity = UnarySame | UnaryBool | General | TernaryOfFirst | TernaryOfReceiver

  function ArityOf(m: Method): Arity {
    match m
    case Select => TernaryOfFirst case Blend => TernaryOfFirst case SelectScalar => TernaryOfFirst
    case Assign => TernaryOfReceiver case AssignScalars => TernaryOfReceiver
    case Negate => UnarySame case Not => UnarySame case Bootstrap => UnarySame case PackInto => UnarySame
    case ToBoolean => UnaryBool
    case _ => General
  }

  /** Scalar variant of an operation, where it has one. */
  function ScalarVariant(op: byte): Option<byte> {
    if op == ADD then Some(ADD_SCALAR) else if op == MULTIPLY then Some(MULTIPLY_SCALAR)
    else if op == SUBTRACT then Some(SUBTRACT_SCALAR) else if op == DIVIDE then Some(DIVIDE_SCALAR)
    else if op == MODULO then Some(MODULO_SCALAR) else if op == MIN then Some(MIN_SCALAR)
    else if op == MAX then Some(MAX_SCALAR) else if op == XOR then Some(XOR_SCALAR)
    else if op == AND then Some(AND_SCALAR) else if op == OR then Some(OR_SCALAR)
    else if op == IS_LESS_THAN then Some(IS_LESS_THAN_SCALAR) else if op == IS_EQUAL then Some(IS_EQUAL_SCALAR)
    else if op == IS_NOT_EQUAL then Some(IS_NOT_EQUAL_SCALAR)
    else if op == IS_GREATER_THAN then Some(IS_GREATER_THAN_SCALAR)
    else if op == IS_GREATER_OR_EQUAL then Some(IS_GREATER_OR_EQUAL_SCALAR)
    else if op == IS_LESS_OR_EQUAL then Some(IS_LESS_OR_EQUAL_SCALAR)
    else None
  }

  /** `maybe_scalar_op`: a vector on the left and a scalar on the right take the scalar variant. */
  function MaybeScalarOp(op: byte, left: byte, right: byte): byte {
    if left >= 16 && right <= 15 && ScalarVariant(op).Some? then ScalarVariant(op).value else op
  }

  /** Type given to a literal right operand. */
  function LiteralType(left: byte): byte {
    if left >= 16 && left <= 44 then ScalarElementType(left) else left
  }

  /** Bytes per element of an arithmetic vector type, 0 for any other type. */
  function VecElementSize(ty: byte): nat {
    if ty <= 44 && IsArithmeticVector(ty) then ElementByteWidth(ty) else 0
  }

  function VecNumElements(ty: byte): nat {
    if ty <= 44 && IsArithmeticVector(ty) then ElementCount(ty) else 0
  }

  function Repeat(s: seq<byte>, n: nat): (r: seq<byte>)
    ensures |r| == n * |s|
  {
    if n == 0 then [] else Repeat(s, n - 1) + s
  }

  function Concat(parts: seq<seq<byte>>): seq<byte> {
    if parts == [] then [] else parts[0] + Concat(parts[1..])
  }

  /** The constant a typed constructor puts into the graph, if the compiler accepts it. */
  function ConstructorBytes(e: Expr): Option<seq<byte>>
    requires e.From? || e.FromBytes? || e.FromElements? || e.Splat? || e.SplatBytes?
  {
    if e.ty > 44 then None
    else
      var size := VecElementSize(e.ty);
      match e
      case From(ty, value) => if value < U128 then Some(ConstantBytesOf(ty, value)) else None
      case FromBytes(_, bytes) => Some(bytes)
      case FromElements(_, elements) =>
        if size == 0 || (size > 16 && exists x <- elements :: |x| != size) then None else Some(Concat(elements))
      case Splat(ty, value) =>
        if value >= U128 || size > 16 then None
        else if size == 0 then Some(ConstantBytesOf(ty, value))
        else Some(Repeat(ToLe(value, 16)[..size], VecNumElements(ty)))
      case SplatBytes(ty, bytes) =>
        if size <= 16 || |bytes| != size then None else Some(Repeat(bytes, VecNumElements(ty)))
  }

  // ---- well-formedness ----

  /** User names do not use the prefixes the compiler keeps for its temporaries and its builder. */
  predicate UserName(name: string) {
    !("__t" <= name) && !("__gb" <= name)
  }

  predicate IsConstructor(e: Expr) {
    e.From? || e.FromBytes? || e.FromElements? || e.Splat? || e.SplatBytes?
  }

  /** Names are user names, and array constants are given in full. */
  predicate WellFormedExpr(e: Expr) {
    match e
    case Var(name) => UserName(name)
    case Ref(inner) => WellFormedExpr(inner)
    case Paren(inner) => WellFormedExpr(inner)
    case Lit(_) => true
    case MethodCall(receiver, _, args) => WellFormedExpr(receiver) && forall a <- args :: WellFormedExpr(a)
    case Binary(_, left, right) => WellFormedExpr(left) && WellFormedExpr(right)
    case Unary(_, operand) => WellFormedExpr(operand)
    case If(cond, thn, els) => WellFormedExpr(cond) && WellFormedExpr(thn) && (els.Some? ==> WellFormedExpr(els.value))
    case Into(_, operand) => WellFormedExpr(operand)
    case FromBytes(ty, bytes) => ty <= 44 ==> |bytes| == ByteWidth(ty)
    case FromElements(ty, elements) => ty <= 44 ==> |Concat(elements)| == ByteWidth(ty)
    case From(_, _) => true
    case Splat(_, _) => true
    case SplatBytes(_, _) => true
  }

  predicate WellFormedStmt(s: BodyStmt) {
    match s
    case LetStmt(name, init) => UserName(name) && (init.Some? ==> WellFormedExpr(init.value))
    case Emit(outputs) => forall e <- outputs :: WellFormedExpr(e)
  }

  predicate WellFormedFunction(f: Function) {
    && (forall p <- f.params :: UserName(p.name))
    && (forall s <- f.body :: WellFormedStmt(s))
  }

  // ---- meaning ----

  datatype Typed<V> = Typed(ty: byte, value: V)

  /** A program the compiler does not accept has no meaning; an accepted one may still fail. */
  datatype SourceError = Rejected | Failed(error: EvalError)

  type Env<V> = map<string, Typed<V>>

  function Lift<V>(ty: byte, r: Result<V, EngineFault>): Result<Typed<V>, SourceError> {
    match r case Ok(v) => Ok(Typed(ty, v)) case Err(fault) => Err(Failed(Compute(fault)))
  }

  predicate IsLiteral(e: Expr) {
    e.Lit? && e.value < U128
  }

  /** The right operand of an operator; a bare literal takes the type the left operand suggests. */
  function EvalRight<V>(eng: Engine<V>, left: byte, right: Expr, env: Env<V>): Result<Typed<V>, SourceError>
    decreases right, 1
  {
    if IsLiteral(right) then
      var ty := LiteralType(left);
      if ty > 44 then Err(Rejected) else Ok(Typed(ty, eng.constant(ty, ConstantBytesOf(ty, right.value))))
    else EvalExpr(eng, right, env)
  }

  function TernaryValue<V>(eng: Engine<V>, op: byte, ty: byte, a: V, b: V, c: V): Result<Typed<V>, SourceError> {
    if ty > 44 then Err(Rejected) else Lift(ty, eng.ternary(op, a, b, c, ty))
  }

  function UnaryResult<V>(eng: Engine<V>, op: byte, ty: byte, a: V): Result<Typed<V>, SourceError> {
    if ty > 44 then Err(Rejected) else Lift(ty, eng.unary(op, a, ty))
  }

  function BinaryResult<V>(eng: Engine<V>, op: byte, ty: byte, a: V, b: V): Result<Typed<V>, SourceError> {
    if ty > 44 then Err(Rejected) else Lift(ty, eng.binary(op, a, b, ty))
  }

  /** Direct evaluation: operands left to right, both branches of a conditional, results typed as
      the compiler types them. */
  function EvalExpr<V>(eng: Engine<V>, e: Expr, env: Env<V>): Result<Typed<V>, SourceError>
    decreases e, 0
  {
    match e
    case Var(name) => if name in env then Ok(env[name]) else Err(Rejected)
    case Ref(inner) => EvalExpr(eng, inner, env)
    case Paren(inner) => EvalExpr(eng, inner, env)
    case Lit(_) => Err(Rejected)
    case MethodCall(receiver, callee, args) =>
      var r := EvalExpr(eng, receiver, env);
      if r.Err? then r
      else if MethodCode(callee).None? then Err(Rejected)
      else EvalMethod(eng, ArityOf(callee), MethodCode(callee).value, r.value, args, env)
    case Binary(op, left, right) =>
      var l := EvalExpr(eng, left, env);
      if l.Err? then l
      else
        var r := EvalRight(eng, l.value.ty, right, env);
        if r.Err? then r
        else BinaryResult(eng, MaybeScalarOp(BinOpCode(op), l.value.ty, r.value.ty), l.value.ty, l.value.value, r.value.value)
    case Unary(op, operand) =>
      var x := EvalExpr(eng, operand, env);
      if x.Err? then x else UnaryResult(eng, UnOpCode(op), x.value.ty, x.value.value)
    case If(cond, thn, els) =>
      var c := EvalExpr(eng, cond, env);
      if c.Err? then c
      else
        var t := EvalExpr(eng, thn, env);
        if t.Err? then t
        else if els.None? then Err(Rejected)
        else
          var f := EvalExpr(eng, els.value, env);
          if f.Err? then f else TernaryValue(eng, SELECT, t.value.ty, c.value.value, t.value.value, f.value.value)
    case Into(ty, operand) =>
      if ty > 44 then Err(Rejected)
      else
        var x := EvalExpr(eng, operand, env);
        if x.Err? then x else UnaryResult(eng, INTO, ty, x.value.value)
    case _ =>
      var bytes := ConstructorBytes(e);
      if bytes.None? then Err(Rejected) else Ok(Typed(e.ty, eng.constant(e.ty, bytes.value)))
  }

  /** A method on an evaluated receiver. */
  function EvalMethod<V>(eng: Engine<V>, arity: Arity, op: byte, recv: Typed<V>, args: seq<Expr>, env: Env<V>)
    : Result<Typed<V>, SourceError>
    decreases args, 0
  {
    if arity == UnarySame || (arity == General && args == []) then UnaryResult(eng, op, recv.ty, recv.value)
    else if arity == UnaryBool then UnaryResult(eng, op, E_BOOL, recv.value)
    else if arity == General then
      var x := EvalExpr(eng, args[0], env);
      if x.Err? then x
      else BinaryResult(eng, MaybeScalarOp(op, recv.ty, x.value.ty), recv.ty, recv.value, x.value.value)
    else if |args| != 2 then Err(Rejected)
    else
      var a := EvalExpr(eng, args[0], env);
      if a.Err? then a
      else
        var b := EvalExpr(eng, args[1], env);
        if b.Err? then b
        else
          var ty := if arity == TernaryOfFirst then a.value.ty else recv.ty;
          TernaryValue(eng, op, ty, recv.value, a.value.value, b.value.value)
  }

  function EvalOutputs<V>(eng: Engine<V>, outputs: seq<Expr>, env: Env<V>): Result<seq<V>, SourceError> {
    if outputs == [] then Ok([])
    else
      var x := EvalExpr(eng, outputs[0], env);
      if x.Err? then Err(x.error)
      else
        var rest := EvalOutputs(eng, outputs[1..], env);
        if rest.Err? then rest else Ok([x.value.value] + rest.value)
  }

  /** Statements in order; lets shadow, expression statements emit outputs. */
  function EvalBody<V>(eng: Engine<V>, body: seq<BodyStmt>, env: Env<V>): Result<seq<V>, SourceError> {
    if body == [] then Ok([])
    else
      match body[0]
      case LetStmt(name, init) =>
        if init.None? then EvalBody(eng, body[1..], env)
        else
          var x := EvalExpr(eng, init.value, env);
          if x.Err? then Err(x.error) else EvalBody(eng, body[1..], env[name := x.value])
      case Emit(outputs) =>
        var vals := EvalOutputs(eng, outputs, env);
        if vals.Err? then vals
        else
          var rest := EvalBody(eng, body[1..], env);
          if rest.Err? then rest else Ok(vals.value + rest.value)
  }

  function BindParams<V>(params: seq<Param>, inputs: seq<V>, env: Env<V>): Env<V>
    requires |params| == |inputs|
  {
    if params == [] then env
    else BindParams(params[1..], inputs[1..], env[params[0].name := Typed(params[0].ty, inputs[0])])
  }

  /** What a function says: one value per output, from one input per parameter. */
  function EvalFunction<V>(eng: Engine<V>, f: Function, inputs: seq<V>): Result<seq<V>, SourceError>
    requires |inputs| == |f.params|
  {
    if exists p <- f.params :: p.ty > 44 then Err(Rejected)
    else EvalBody(eng, f.body, BindParams(f.params, inputs, map[]))
  }
}
