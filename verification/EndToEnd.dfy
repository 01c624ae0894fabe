/** From source text to decrypted outputs: the compiler theorem on the table engine, what the source
    operators mean as integer arithmetic, and where the pipeline's guarantees stop. */
module EndToEnd {
  import opened Arith
  import opened LittleEndian
  import opened FheTypes
  import opened ScalarOps
  import opened Lanes
  import opened GraphFormat
  import opened GraphBuilding
  import opened Evaluator
  import opened Script
  import Dsl
  import opened MethodMeaning
  import opened Compiler
  import opened CompilerProof
  import opened CompilerAcceptance
  import opened MockEngine
  import opened TableRefinement
  import opened ScalarGraphs

  /** Compile, build, serialize, parse and evaluate on digests: the outputs stand for the values direct
      evaluation of the source gives, for every function the compiler accepts, vectors included. */
  lemma CompiledSourceOnTable(table: Table, f: Dsl.Function, digests: seq<Digest>, trailing: seq<byte>)
    requires Dsl.WellFormedFunction(f) && CompileFunction(f).Some? && |digests| == |f.params|
    requires Coherent(table) && AllKnown(table, digests)
    ensures Closed(CompileFunction(f).value, {})
    ensures WithinLimits(CompiledGraph(f)) ==>
      var r := EvaluateOn(table, Serialize(CompiledGraph(f)) + trailing, digests);
      var v := Dsl.EvalFunction(PLAIN, f, Views(table, digests));
      && (r.Err? ==> v == Err(Dsl.Failed(r.error)))
      && (r.Ok? ==>
        && Preserves(table, r.value.table) && AllKnown(r.value.table, r.value.digests)
        && v == Ok(Views(r.value.table, r.value.digests)))
  {
    hide EvaluateOn, Coherent, Preserves, Closed, WithinLimits, CompileFunction, Dsl.EvalFunction, Evaluator.EvaluateGraph,
      Dsl.WellFormedFunction, Serialize, CompiledGraph;
    CompiledGraphComputesSource(PLAIN, f, Views(table, digests), trailing);
    if WithinLimits(CompiledGraph(f)) {
      EvaluateRefines(table, Serialize(CompiledGraph(f)) + trailing, digests);
      var v := Dsl.EvalFunction(PLAIN, f, Views(table, digests));
      var r := EvaluateOn(table, Serialize(CompiledGraph(f)) + trailing, digests);
      assert v.Err? ==> v.error.Failed?;
      assert r.Err? ==> AsResult(v) == Err(r.error);
    }
  }

  function ParamTypes(f: Dsl.Function): (ts: seq<nat>)
    ensures |ts| == |f.params|
  {
    seq(|f.params|, i requires 0 <= i < |f.params| => f.params[i].ty)
  }

  /** A program passes the scalar type check when evaluating it on types succeeds. */
  predicate TypeChecks(f: Dsl.Function) {
    Dsl.EvalFunction(TYPES, f, ParamTypes(f)).Ok?
  }

  /** For programs that pass the scalar type check: every output decrypts to exactly the bytes of the
      number the source computes, on every coherent table and all in-range inputs. */
  lemma CompiledScalarsDecrypt(table: Table, f: Dsl.Function, digests: seq<Digest>, numbers: seq<nat>, trailing: seq<byte>)
    requires Dsl.WellFormedFunction(f) && CompileFunction(f).Some? && TypeChecks(f)
    requires Coherent(table) && InputsDenote(table, digests, ParamTypes(f), numbers)
    ensures Closed(CompileFunction(f).value, {})
    ensures WithinLimits(CompiledGraph(f)) ==>
      var ts := Dsl.EvalFunction(TYPES, f, ParamTypes(f)).value;
      var r := EvaluateOn(table, Serialize(CompiledGraph(f)) + trailing, digests);
      var ns := Dsl.EvalFunction(NUMBERS, f, numbers);
      && r.Ok? && ns.Ok? && |r.value.digests| == |ns.value| == |ts|
      && forall i | 0 <= i < |ts| && ts[i] <= 5 ::
           DecryptCall(r.value.table, r.value.digests[i], ts[i]) == Ok(ToLe(ns.value[i], ByteWidth(ts[i])))
  {
    hide EvaluateOn, Coherent, Closed, WithinLimits, CompileFunction, Dsl.EvalFunction, Evaluator.EvaluateGraph,
      Dsl.WellFormedFunction, Serialize, CompiledGraph, DecryptCall, InlineInputs, DecodeMock, ByteWidth;
    CompiledGraphComputesSource(TYPES, f, ParamTypes(f), trailing);
    CompiledGraphComputesSource(NUMBERS, f, numbers, trailing);
    if WithinLimits(CompiledGraph(f)) {
      TableAgreesWithNumbers(table, Serialize(CompiledGraph(f)) + trailing, digests, ParamTypes(f), numbers);
    }
  }

  // ---- operators as integer arithmetic ----

  /** What an operator says about w-bit numbers. */
  function OperatorMeaning(op: Dsl.BinOp, a: nat, b: nat, w: nat): nat {
    match op
    case Plus => (a + b) % Pow2(w)
    case Minus => (a - b) % Pow2(w)
    case Times => a * b % Pow2(w)
    case Slash => if b == 0 then 0 else Quotient(a, b)
    case Percent => if b == 0 then 0 else a % b
    case BitAnd => Bits.And(a, b)
    case BitOr => Bits.Or(a, b)
    case BitXor => Bits.Xor(a, b)
    case Shl => a * Pow2(b) % Pow2(w)
    case Shr => Quotient(a, Pow2(b))
    case Eq => Flag(a == b)
    case Ne => Flag(a != b)
    case Gt => Flag(a > b)
    case Ge => Flag(a >= b)
    case Lt => Flag(a < b)
    case Le => Flag(a <= b)
  }

  /** A shift survives the truncation of its amount; every other operator has nothing to lose. */
  predicate AmountKept(op: Dsl.BinOp, a: nat, b: nat, w: nat) {
    match op
    case Shl => LeftShiftKept(a, b, w)
    case Shr => RightShiftKept(a, b, w)
    case _ => true
  }

  /** Source operators on in-range scalars mean what their symbols say, exactly but for shifts that lose
      their amount. */
  lemma OperatorsMeanArithmetic(op: Dsl.BinOp, a: nat, b: nat, t: FheType)
    requires IsSmallScalar(t) && InRange(a, t) && InRange(b, t)
    ensures BinaryValue(Dsl.BinOpCode(op), a, b, t) == OperatorMeaning(op, a, b, Width(t))
       <==> AmountKept(op, a, b, Width(t))
  {
    hide BinaryValue, InRange, Width, Pow2, Bits.And, Bits.Or, Bits.Xor;
    match op
    case Plus => RingOpsAreModular(a, b, t);
    case Minus => RingOpsAreModular(a, b, t);
    case Times => RingOpsAreModular(a, b, t);
    case Slash => DivisionIsExact(a, b, t);
    case Percent => DivisionIsExact(a, b, t);
    case BitAnd => LogicIs(a, b, t);
    case BitOr => LogicIs(a, b, t);
    case BitXor => LogicIs(a, b, t);
    case Shl => ShiftsMeanArithmetic(a, b, t);
    case Shr => ShiftsMeanArithmetic(a, b, t);
    case Eq => ComparesIs(a, b, t);
    case Ne => ComparesIs(a, b, t);
    case Gt => ComparesIs(a, b, t);
    case Ge => ComparesIs(a, b, t);
    case Lt => ComparesIs(a, b, t);
    case Le => ComparesIs(a, b, t);
  }

  lemma ShiftsMeanArithmetic(a: nat, b: nat, t: FheType)
    requires IsSmallScalar(t) && InRange(a, t) && InRange(b, t)
    ensures BinaryValue(SHIFT_LEFT, a, b, t) == a * Pow2(b) % Pow2(Width(t)) <==> LeftShiftKept(a, b, Width(t))
    ensures BinaryValue(SHIFT_RIGHT, a, b, t) == Quotient(a, Pow2(b)) <==> RightShiftKept(a, b, Width(t))
  {
    hide BinaryValue;
    if t == E_BOOL {
      Pow2Literals();
      BoolShifts(a, b);
    } else {
      LeftShiftExact(a, b, t);
      RightShiftExact(a, b, t);
    }
  }

  // ---- literal operands of vectors ----

  lemma {:induction false} RepeatSlice(s: seq<byte>, n: nat, i: nat)
    requires i < n
    ensures (i + 1) * |s| <= n * |s|
    ensures Dsl.Repeat(s, n)[i * |s|..(i + 1) * |s|] == s
    decreases n
  {
    MulLe(i + 1, n, |s|);
    assert n * |s| == (n - 1) * |s| + |s|;
    if i < n - 1 {
      RepeatSlice(s, n - 1, i);
      assert Dsl.Repeat(s, n)[i * |s|..(i + 1) * |s|] == Dsl.Repeat(s, n - 1)[i * |s|..(i + 1) * |s|];
    }
  }

  /** Every lane of a splat is the low bytes of its value, read the same as the scalar constant. */
  lemma SplatLane(value: nat, t: FheType, i: nat)
    requires E_VECTOR_U8 <= t <= E_VECTOR_U128 && i < ElementCount(t)
    ensures var size := ElementByteWidth(t);
            Lane(Dsl.Repeat(ToLe(value, 16)[..size], ElementCount(t)), size, i) == BytesToU128(U128ToBytes(value, size))
  {
    var size := ElementByteWidth(t);
    LaneWidth(t);
    LaneFits(t, i);
    var block := ToLe(value, 16)[..size];
    RepeatSlice(block, ElementCount(t), i);
    ReadWithin(Dsl.Repeat(block, ElementCount(t)), i * size, size);
    U128ToBytesIsToLe(value, size);
    ToLePrefix(value, 16, size);
    BytesToU128IsFromLe(block);
  }

  /** A scalar variant computes on each lane what its base operation does. */
  lemma ScalarVariantSame(op: byte, a: nat, b: nat, t: FheType)
    requires Dsl.ScalarVariant(op).Some?
    ensures BinaryValue(Dsl.ScalarVariant(op).value, a, b, t) == BinaryValue(op, a, b, t)
    ensures IsScalarOp(Dsl.ScalarVariant(op).value) && !IsScalarOp(op)
    ensures !Structural(op) && !Structural(Dsl.ScalarVariant(op).value)
  {
  }

  /** On vectors, an operation with a scalar constant is the operation with that constant splatted. */
  lemma ScalarIsSplat(op: byte, v: seq<byte>, value: nat, t: FheType)
    requires FullVector(v, t) && Dsl.ScalarVariant(op).Some?
    ensures var size := ElementByteWidth(t);
            var splat := Dsl.Repeat(ToLe(value, 16)[..size], ElementCount(t));
            BinaryBytes(Dsl.ScalarVariant(op).value, v, U128ToBytes(value, size), t) == BinaryBytes(op, v, splat, t)
  {
    hide BinaryValue, BinaryBytes, WriteAll, ReadLe, ElementByteWidth, ElementCount, U128ToBytes, BytesToU128, Dsl.ScalarVariant;
    var size, count, elem := ElementByteWidth(t), ElementCount(t), ScalarElementType(t);
    LaneWidth(t);
    var c, splat := U128ToBytes(value, size), Dsl.Repeat(ToLe(value, 16)[..size], count);
    var scalarOp := Dsl.ScalarVariant(op).value;
    AllReadable(v, t);
    ScalarVariantSame(op, 0, 0, elem);
    assert FullVector(splat, t);
    AllReadable(splat, t);
    forall i: nat | i < count
      ensures BinaryWrites(scalarOp, v, c, t)[i] == BinaryWrites(op, v, splat, t)[i]
    {
      SplatLane(value, t, i);
      ScalarVariantSame(op, Lane(v, size, i), BytesToU128(c), elem);
    }
    assert BinaryWrites(scalarOp, v, c, t) == BinaryWrites(op, v, splat, t);
    BinaryIsWrites(scalarOp, v, c, t);
    BinaryIsWrites(op, v, splat, t);
  }

  /** In the source: `v op c` with a bare literal means `v op Type::splat(c)`, for every operator but
      the shifts and every vector-valued left operand. */
  lemma LiteralIsSplat(op: Dsl.BinOp, left: Dsl.Expr, value: nat, t: FheType, v: seq<byte>, env: Dsl.Env<Plain>)
    requires value < U128 && !op.Shl? && !op.Shr?
    requires FullVector(v, t) && Dsl.EvalExpr(PLAIN, left, env) == Ok(Dsl.Typed(t, Known(v)))
    ensures Dsl.EvalExpr(PLAIN, Dsl.Binary(op, left, Dsl.Lit(value)), env)
         == Dsl.EvalExpr(PLAIN, Dsl.Binary(op, left, Dsl.Splat(t, value)), env)
  {
    hide BinaryBytes, ElementCount, ElementByteWidth, U128ToBytes, Dsl.BinOpCode, Dsl.ScalarVariant;
    OperatorVariants(op);
    LaneWidth(t);
    LaneTypeFacts(t);
    ScalarIsSplat(Dsl.BinOpCode(op), v, value, t);
    var size := ElementByteWidth(t);
    var splat := Dsl.Repeat(ToLe(value, 16)[..size], ElementCount(t));
    assert Dsl.EvalExpr(PLAIN, Dsl.Splat(t, value), env) == Ok(Dsl.Typed(t, Known(splat)));
    assert Dsl.EvalRight(PLAIN, t, Dsl.Splat(t, value), env) == Ok(Dsl.Typed(t, Known(splat)));
    assert Dsl.EvalRight(PLAIN, t, Dsl.Lit(value), env) == Ok(Dsl.Typed(ScalarElementType(t), Known(U128ToBytes(value, size))));
  }

  /** Every operator but the shifts has a scalar variant. */
  lemma OperatorVariants(op: Dsl.BinOp)
    ensures Dsl.ScalarVariant(Dsl.BinOpCode(op)).Some? <==> !op.Shl? && !op.Shr?
  {
  }

  lemma LaneTypeFacts(t: FheType)
    requires E_VECTOR_U8 <= t <= E_VECTOR_U128
    ensures Dsl.VecElementSize(t) == ElementByteWidth(t) && Dsl.VecNumElements(t) == ElementCount(t)
    ensures ScalarElementType(t) <= 5 && ByteWidth(ScalarElementType(t)) == ElementByteWidth(t)
  {
  }

  // ---- where the guarantees stop ----

  /** The evaluation loop, reaching the node of a constant, encodes exactly the bytes it was given. */
  predicate ReadsBack(before: Graph, after: Graph, ty: byte, data: seq<byte>)
    requires ty <= 44 && |before.nodes| < |after.nodes|
  {
    var i := |before.nodes|;
    Decode(after.nodes[i], i, i, after.constants) == Ok(Encode(ty, data))
  }

  /** A constant reads back as itself exactly when its bytes have the type's width: a short one runs
      past the section or into its successor, a long one is cut. */
  lemma ConstantReadsBackIff(g: Graph, ty: byte, data: seq<byte>)
    requires ty <= 44 && |g.constants| + |data| < 0x1_0000
    ensures ReadsBack(g, AppendConstant(g, ty, data).0, ty, data) <==> |data| == ByteWidth(ty)
  {
    hide ByteWidth;
    var g' := AppendConstant(g, ty, data).0;
    var n := g'.nodes[|g.nodes|];
    assert n.a == |g.constants|;
    if |data| == ByteWidth(ty) {
      assert g'.constants[n.a..n.a + ByteWidth(ty)] == data;
    }
  }

  /** A conditional, or a chain of them, one of whose branches is a bare literal. */
  predicate HasLiteralBranch(e: Dsl.Expr) {
    e.If? && (e.thn.Lit? || e.els.None? || e.els.value.Lit? || HasLiteralBranch(e.els.value))
  }

  lemma {:induction false} LiteralBranchRejected(e: Dsl.Expr, vars: map<string, byte>, next: nat)
    requires HasLiteralBranch(e)
    ensures CompileExpr(e, vars, next) == None
  {
    UnfoldIf(e, vars, next);
    var c := CompileExpr(e.cond, vars, next);
    if c.Some? && !e.thn.Lit? {
      var t := CompileExpr(e.thn, c.value.vars, c.value.next);
      if t.Some? && e.els.Some? && HasLiteralBranch(e.els.value) {
        LiteralBranchRejected(e.els.value, t.value.vars, t.value.next);
      }
    }
  }

  /** Every let of an accepted body was compiled. */
  lemma {:induction false} LetsCompile(body: seq<Dsl.BodyStmt>, vars: map<string, byte>, next: nat, k: nat)
    requires CompileBody(body, vars, next).Some? && k < |body| && body[k].LetStmt? && body[k].init.Some?
    ensures exists vars', next' :: CompileExpr(body[k].init.value, vars', next').Some?
    decreases |body|
  {
    hide CompileExpr, CompileOutputs;
    match body[0]
    case LetStmt(name, init) =>
      if init.Some? {
        var x := CompileExpr(init.value, vars, next).value;
        if k > 0 {
          LetsCompile(body[1..], x.vars[name := x.tid], x.next, k - 1);
        }
      } else {
        LetsCompile(body[1..], vars, next, k - 1);
      }
    case Emit(outputs) =>
      var x := CompileOutputs(outputs, vars, next).value;
      LetsCompile(body[1..], x.vars, x.next, k - 1);
  }

  /** So a program with such a let is rejected, and no engine gives it a value. */
  lemma LiteralBranchProgramRejected<V>(eng: Engine<V>, f: Dsl.Function, k: nat, inputs: seq<V>)
    requires Dsl.WellFormedFunction(f) && |inputs| == |f.params| && k < |f.body|
    requires f.body[k].LetStmt? && f.body[k].init.Some? && HasLiteralBranch(f.body[k].init.value)
    ensures CompileFunction(f) == None && Dsl.EvalFunction(eng, f, inputs).Err?
  {
    hide CompileBody, CompileExpr, Dsl.EvalFunction, Dsl.WellFormedFunction;
    if CompileFunction(f).Some? {
      LetsCompile(f.body, ParamVars(f.params, map[]), 0, k);
      var vars, next :| CompileExpr(f.body[k].init.value, vars, next).Some?;
      LiteralBranchRejected(f.body[k].init.value, vars, next);
    }
    if Dsl.EvalFunction(eng, f, inputs).Ok? {
      EveryProgramWithAValueCompiles(eng, f, inputs);
    }
  }

  /** A user variable named like a temporary is captured: in `__t0 + 1` both operands of the addition
      are the literal. */
  lemma TemporaryNameCaptured()
    ensures var code := CompileExpr(Dsl.Binary(Dsl.Plus, Dsl.Var("__t0"), Dsl.Lit(1)), map["__t0" := E_UINT64], 0);
            code.Some? && code.value.stmts == [Let("__t0", AddConstant(E_UINT64, 1)),
                                               Let("__t1", AddBinaryOp(ADD, E_UINT64, "__t0", "__t0"))]
  {
    assert Decimal(0) == "0" && Decimal(1) == "1";
    assert TempName(0) == "__t0" && TempName(1) == "__t1";
    var vars: map<string, byte> := map["__t0" := E_UINT64];
    assert CompileExpr(Dsl.Var("__t0"), vars, 0) == Some(Code([], "__t0", E_UINT64, vars, 0));
  }
}
