/** How large the compiled graph of a program can get: a bound a programmer can read off the source,
    and the size limits of the graph format it implies. */
module CompiledSize {
  import opened LittleEndian
  import opened FheTypes
  import opened GraphFormat
  import opened GraphBuilding
  import opened Script
  import opened Dsl
  import opened Compiler
  import opened CompilerProof
  import opened CompilerAcceptance

  /** A price per builder call: constants have their own. */
  datatype Prices = Prices(call: nat, constant: nat)

  const NODES := Prices(1, 1)
  const CONSTANT_BYTES := Prices(0, 8192)

  function StmtCost(s: Stmt, p: Prices): nat {
    match s
    case Let(_, call) => if call.AddConstant? || call.AddConstantBytes? then p.constant else p.call
    case Alias(_, _) => 0
    case Output(_, _) => p.call
  }

  function ScriptCost(script: seq<Stmt>, p: Prices): nat {
    if script == [] then 0 else StmtCost(script[0], p) + ScriptCost(script[1..], p)
  }

  /** One call per operator, method and conversion, one constant per literal and constructor. */
  function ExprCost(e: Expr, p: Prices): nat
    decreases e, 0
  {
    match e
    case Var(_) => 0
    case Ref(inner) => ExprCost(inner, p)
    case Paren(inner) => ExprCost(inner, p)
    case MethodCall(receiver, _, args) => p.call + ExprCost(receiver, p) + ExprsCost(args, p)
    case Binary(_, left, right) => p.call + ExprCost(left, p) + ExprCost(right, p)
    case Unary(_, operand) => p.call + ExprCost(operand, p)
    case If(cond, thn, els) =>
      p.call + ExprCost(cond, p) + ExprCost(thn, p) + (if els.Some? then ExprCost(els.value, p) else 0)
    case Into(_, operand) => p.call + ExprCost(operand, p)
    case _ => p.constant
  }

  function ExprsCost(es: seq<Expr>, p: Prices): nat
    decreases es, 0
  {
    if es == [] then 0 else ExprCost(es[0], p) + ExprsCost(es[1..], p)
  }

  function StatementCost(s: BodyStmt, p: Prices): nat {
    match s
    case LetStmt(_, init) => if init.Some? then ExprCost(init.value, p) else 0
    case Emit(outputs) => ExprsCost(outputs, p) + |outputs| * p.call
  }

  function BodyCost(body: seq<BodyStmt>, p: Prices): nat {
    if body == [] then 0 else StatementCost(body[0], p) + BodyCost(body[1..], p)
  }

  function FunctionCost(f: Function, p: Prices): nat {
    |f.params| * p.call + BodyCost(f.body, p)
  }

  // ---- emitted scripts stay within the bound ----

  lemma {:induction false} CostAppend(s: seq<Stmt>, t: seq<Stmt>, p: Prices)
    ensures ScriptCost(s + t, p) == ScriptCost(s, p) + ScriptCost(t, p)
  {
    if s == [] {
      assert s + t == t;
    } else {
      assert (s + t)[1..] == s[1..] + t;
      CostAppend(s[1..], t, p);
    }
  }

  lemma EmitCost(c: Code, call: Call, tid: byte, p: Prices)
    ensures ScriptCost(EmitTemp(c, call, tid).stmts, p) == ScriptCost(c.stmts, p) + StmtCost(Let("", call), p)
  {
    var s := Let(TempName(c.next), call);
    CostAppend(c.stmts, [s], p);
    assert [s][1..] == [];
  }

  lemma {:induction false} ExprCostBound(e: Expr, vars: map<string, byte>, next: nat, p: Prices)
    requires CompileExpr(e, vars, next).Some?
    ensures ScriptCost(CompileExpr(e, vars, next).value.stmts, p) <= ExprCost(e, p)
    decreases e, 1
  {
    hide ScriptCost, EmitTemp;
    match e
    case Var(_) => NothingCosts(p);
    case Ref(inner) => ExprCostBound(inner, vars, next, p);
    case Paren(inner) => ExprCostBound(inner, vars, next, p);
    case Lit(_) =>
    case MethodCall(receiver, callee, args) =>
      ExprCostBound(receiver, vars, next, p);
      MethodCostBound(CompileExpr(receiver, vars, next).value, ArityOf(callee), MethodCode(callee).value, args, p);
    case Binary(op, left, right) =>
      ExprCostBound(left, vars, next, p);
      var l := CompileExpr(left, vars, next).value;
      RightCostBound(l, right, p);
      var r := CompileRight(l, right).value;
      CostAppend(l.stmts, r.stmts, p);
      EmitCost(Then(l, r), AddBinaryOp(MaybeScalarOp(BinOpCode(op), l.tid, r.tid), l.tid, l.tok, r.tok), l.tid, p);
    case Unary(op, operand) =>
      ExprCostBound(operand, vars, next, p);
      var x := CompileExpr(operand, vars, next).value;
      EmitCost(x, AddUnaryOp(UnOpCode(op), x.tid, x.tok), x.tid, p);
    case If(cond, _, _) =>
      ExprCostBound(cond, vars, next, p);
      BranchesCostBound(CompileExpr(cond, vars, next).value, e, p);
      UnfoldIf(e, vars, next);
    case Into(ty, operand) =>
      ExprCostBound(operand, vars, next + 1, p);
      var x := CompileExpr(operand, vars, next + 1).value;
      CostAppend(x.stmts, [Let(TempName(next), AddUnaryOp(INTO, ty, x.tok))], p);
      OneCost(Let(TempName(next), AddUnaryOp(INTO, ty, x.tok)), p);
    case _ =>
      EmitCost(NoCode(vars, next), ConstructorCall(e).value, e.ty, p);
      NothingCosts(p);
  }

  lemma NothingCosts(p: Prices)
    ensures ScriptCost([], p) == 0
  {
  }

  lemma OneCost(s: Stmt, p: Prices)
    ensures ScriptCost([s], p) == StmtCost(s, p)
  {
    assert [s][1..] == [];
  }

  lemma {:induction false} RightCostBound(l: Code, right: Expr, p: Prices)
    requires CompileRight(l, right).Some?
    ensures ScriptCost(CompileRight(l, right).value.stmts, p) <= ExprCost(right, p)
    decreases right, 2
  {
    hide ScriptCost, EmitTemp;
    if IsLiteral(right) {
      EmitCost(NoCode(l.vars, l.next), AddConstant(LiteralType(l.tid), right.value), LiteralType(l.tid), p);
      NothingCosts(p);
    } else {
      ExprCostBound(right, l.vars, l.next, p);
    }
  }

  lemma ThreeCosts(a: Code, b: Code, c: Code, p: Prices)
    ensures ScriptCost(Then(a, Then(b, c)).stmts, p) == ScriptCost(a.stmts, p) + ScriptCost(b.stmts, p) + ScriptCost(c.stmts, p)
  {
    CostAppend(b.stmts, c.stmts, p);
    CostAppend(a.stmts, b.stmts + c.stmts, p);
  }

  lemma {:induction false} BranchesCostBound(c: Code, e: Expr, p: Prices)
    requires e.If? && CompileBranches(c, e).Some?
    ensures ScriptCost(CompileBranches(c, e).value.stmts, p)
         <= ScriptCost(c.stmts, p) + p.call + ExprCost(e.thn, p) + ExprCost(e.els.value, p)
    decreases e, 0
  {
    hide ScriptCost, EmitTemp;
    ExprCostBound(e.thn, c.vars, c.next, p);
    var t := CompileExpr(e.thn, c.vars, c.next).value;
    ExprCostBound(e.els.value, t.vars, t.next, p);
    var f := CompileExpr(e.els.value, t.vars, t.next).value;
    ThreeCosts(c, t, f, p);
    EmitCost(Then(c, Then(t, f)), AddTernaryOp(SELECT, t.tid, c.tok, t.tok, f.tok), t.tid, p);
  }

  lemma {:induction false} MethodCostBound(recv: Code, arity: Arity, op: byte, args: seq<Expr>, p: Prices)
    requires CompileMethod(recv, arity, op, args).Some?
    ensures ScriptCost(CompileMethod(recv, arity, op, args).value.stmts, p)
         <= ScriptCost(recv.stmts, p) + p.call + ExprsCost(args, p)
    decreases args, 0
  {
    hide ScriptCost, EmitTemp, CompileExpr;
    if arity == UnarySame || (arity == General && args == []) {
      EmitCost(recv, AddUnaryOp(op, recv.tid, recv.tok), recv.tid, p);
    } else if arity == UnaryBool {
      EmitCost(recv, AddUnaryOp(op, E_BOOL, recv.tok), E_BOOL, p);
    } else {
      ExprCostBound(args[0], recv.vars, recv.next, p);
      var a := CompileExpr(args[0], recv.vars, recv.next).value;
      if arity == General {
        CostAppend(recv.stmts, a.stmts, p);
        EmitCost(Then(recv, a), AddBinaryOp(MaybeScalarOp(op, recv.tid, a.tid), recv.tid, recv.tok, a.tok), recv.tid, p);
      } else {
        ExprCostBound(args[1], a.vars, a.next, p);
        var b := CompileExpr(args[1], a.vars, a.next).value;
        var tid := if arity == TernaryOfFirst then a.tid else recv.tid;
        ThreeCosts(recv, a, b, p);
        EmitCost(Then(recv, Then(a, b)), AddTernaryOp(op, tid, recv.tok, a.tok, b.tok), tid, p);
        assert args[1..][0] == args[1];
      }
    }
  }

  lemma {:induction false} OutputsCostBound(outputs: seq<Expr>, vars: map<string, byte>, next: nat, p: Prices)
    requires CompileOutputs(outputs, vars, next).Some?
    ensures ScriptCost(CompileOutputs(outputs, vars, next).value.stmts, p) <= ExprsCost(outputs, p) + |outputs| * p.call
  {
    hide ScriptCost, CompileExpr;
    if outputs == [] {
      NothingCosts(p);
    } else {
      ExprCostBound(outputs[0], vars, next, p);
      var x := CompileExpr(outputs[0], vars, next).value;
      OutputsCostBound(outputs[1..], x.vars, x.next, p);
      var rest := CompileOutputs(outputs[1..], x.vars, x.next).value;
      CostAppend(x.stmts + [Output(x.tid, x.tok)], rest.stmts, p);
      CostAppend(x.stmts, [Output(x.tid, x.tok)], p);
      OneCost(Output(x.tid, x.tok), p);
      assert |outputs| * p.call == p.call + |outputs[1..]| * p.call;
    }
  }

  lemma {:induction false} BodyCostBound(body: seq<BodyStmt>, vars: map<string, byte>, next: nat, p: Prices)
    requires CompileBody(body, vars, next).Some?
    ensures ScriptCost(CompileBody(body, vars, next).value, p) <= BodyCost(body, p)
    decreases |body|
  {
    hide ScriptCost, CompileExpr, CompileOutputs, ExprCost, ExprsCost;
    if body == [] {
      NothingCosts(p);
    } else {
      match body[0]
      case LetStmt(name, init) =>
        if init.None? {
          BodyCostBound(body[1..], vars, next, p);
        } else {
          ExprCostBound(init.value, vars, next, p);
          var x := CompileExpr(init.value, vars, next).value;
          var vars' := x.vars[name := x.tid];
          BodyCostBound(body[1..], vars', x.next, p);
          var rest := CompileBody(body[1..], vars', x.next).value;
          CostAppend(x.stmts + [Alias(name, x.tok)], rest, p);
          CostAppend(x.stmts, [Alias(name, x.tok)], p);
          OneCost(Alias(name, x.tok), p);
        }
      case Emit(outputs) =>
        OutputsCostBound(outputs, vars, next, p);
        var x := CompileOutputs(outputs, vars, next).value;
        BodyCostBound(body[1..], x.vars, x.next, p);
        CostAppend(x.stmts, CompileBody(body[1..], x.vars, x.next).value, p);
    }
  }

  lemma {:induction false} ParamsCost(params: seq<Param>, p: Prices)
    ensures ScriptCost(ParamStmts(params), p) == |params| * p.call
  {
    if params != [] {
      ParamsCost(params[1..], p);
      assert ParamStmts(params)[1..] == ParamStmts(params[1..]);
      assert |params| * p.call == p.call + |params[1..]| * p.call;
    }
  }

  lemma CompiledCost(f: Function, p: Prices)
    requires CompileFunction(f).Some?
    ensures ScriptCost(CompileFunction(f).value, p) <= FunctionCost(f, p)
  {
    hide CompileBody, ScriptCost;
    var body := CompileBody(f.body, ParamVars(f.params, map[]), 0);
    ParamsCost(f.params, p);
    BodyCostBound(f.body, ParamVars(f.params, map[]), 0, p);
    CostAppend(ParamStmts(f.params), body.value, p);
  }

  // ---- graphs built by scripts stay within the bound ----

  lemma WidthBound(t: FheType)
    ensures ByteWidth(t) <= 8192
  {
  }

  lemma StepCost(s: Stmt, b: Built, dedup: bool)
    requires StmtOk(s, b.regs.Keys)
    ensures var g := StepBuild(s, b, dedup).g;
            && |g.nodes| <= |b.g.nodes| + StmtCost(s, NODES)
            && |g.constants| <= |b.g.constants| + StmtCost(s, CONSTANT_BYTES)
  {
    hide FindConstant, ByteWidth;
    if s.Let? && (s.call.AddConstant? || s.call.AddConstantBytes?) {
      WidthBound(s.call.ty);
    }
  }

  lemma {:induction false} BuildCost(script: seq<Stmt>, b: Built, dedup: bool)
    requires Closed(script, b.regs.Keys)
    ensures var g := Build(script, b, dedup).g;
            && |g.nodes| <= |b.g.nodes| + ScriptCost(script, NODES)
            && |g.constants| <= |b.g.constants| + ScriptCost(script, CONSTANT_BYTES)
    decreases |script|
  {
    hide StmtCost, StepBuild;
    if script != [] {
      StepCost(script[0], b, dedup);
      StepKeys(script[0], b, dedup);
      BuildCost(script[1..], StepBuild(script[0], b, dedup), dedup);
    }
  }

  lemma StepKeys(s: Stmt, b: Built, dedup: bool)
    requires StmtOk(s, b.regs.Keys)
    ensures StepBuild(s, b, dedup).regs.Keys == b.regs.Keys + Binds(s)
  {
  }

  lemma {:induction false} CountsBounded(nodes: seq<Node>, kind: byte)
    ensures CountKind(nodes, kind) <= |nodes|
  {
    if nodes != [] {
      CountsBounded(nodes[..|nodes| - 1], kind);
    }
  }

  /** A program with at most 255 calls, parameters, literals and outputs in all, and at most 7 constants,
      compiles to a graph within the limits of the format. */
  predicate SmallProgram(f: Function) {
    FunctionCost(f, NODES) <= 255 && FunctionCost(f, CONSTANT_BYTES) < 0x1_0000
  }

  lemma SmallProgramsFit(f: Function)
    requires WellFormedFunction(f) && CompileFunction(f).Some? && SmallProgram(f)
    ensures Closed(CompileFunction(f).value, {}) && WithinLimits(CompiledGraph(f))
  {
    hide CompileFunction, ScriptCost, FunctionCost, Build, Closed;
    CompiledIsClosed(f);
    CompiledCost(f, NODES);
    CompiledCost(f, CONSTANT_BYTES);
    assert START.regs.Keys == {};
    BuildCost(CompileFunction(f).value, START, true);
    var nodes := CompiledGraph(f).nodes;
    CountsBounded(nodes, KIND_INPUT);
    CountsBounded(nodes, KIND_PLAINTEXT_INPUT);
    CountsBounded(nodes, KIND_CONSTANT);
    CountsBounded(nodes, KIND_OP);
    CountsBounded(nodes, KIND_OUTPUT);
  }

  lemma CompiledIsClosed(f: Function)
    requires WellFormedFunction(f) && CompileFunction(f).Some?
    ensures Closed(CompileFunction(f).value, {})
  {
    CompilerPreservesMeaning(UNIT_ENGINE, f, seq(|f.params|, i => ()));
  }
}
