/** The graph compiler: from expressions to builder scripts. `CompileExpr` says what it emits, and
    `Ctx` is the mutable compiler context proved to emit it. */
module Compiler {
  import opened LittleEndian
  import opened FheTypes
  import opened Script
  import opened Dsl

  function Digit(d: nat): char
    requires d < 10
  {
    "0123456789"[d]
  }

  function Decimal(n: nat): (s: string)
    ensures s != []
  {
    if n < 10 then [Digit(n)] else Decimal(n / 10) + [Digit(n % 10)]
  }

  /** `format!("__t{}", temp_id)` */
  function TempName(k: nat): string {
    "__t" + Decimal(k)
  }

  /** Statements emitted for an expression, the variable holding its node, its type, and the
      context afterwards. */
  datatype Code = Code(stmts: seq<Stmt>, tok: string, tid: byte, vars: map<string, byte>, next: nat)

  /** Emit one builder call into a fresh temporary. */
  function EmitTemp(c: Code, call: Call, tid: byte): Code {
    var tmp := TempName(c.next);
    Code(c.stmts + [Let(tmp, call)], tmp, tid, c.vars[tmp := tid], c.next + 1)
  }

  /** Code for a second expression behind the first. */
  function Then(first: Code, second: Code): Code {
    second.(stmts := first.stmts + second.stmts)
  }

  function NoCode(vars: map<string, byte>, next: nat): Code {
    Code([], "", 0, vars, next)
  }

  function ConstructorCall(e: Expr): Option<Call>
    requires IsConstructor(e)
  {
    var bytes := ConstructorBytes(e);
    if bytes.None? then None
    else if e.From? then Some(AddConstant(e.ty, e.value))
    else if e.Splat? && VecElementSize(e.ty) == 0 then Some(AddConstant(e.ty, e.value))
    else Some(AddConstantBytes(e.ty, bytes.value))
  }

  function CompileRight(left: Code, right: Expr): Option<Code>
    decreases right, 2
  {
    if IsLiteral(right) then
      var ty := LiteralType(left.tid);
      Some(EmitTemp(NoCode(left.vars, left.next), AddConstant(ty, right.value), ty))
    else CompileExpr(right, left.vars, left.next)
  }

  function CompileMethod(recv: Code, arity: Arity, op: byte, args: seq<Expr>): Option<Code>
    decreases args, 0
  {
    if arity == UnarySame || (arity == General && args == []) then
      Some(EmitTemp(recv, AddUnaryOp(op, recv.tid, recv.tok), recv.tid))
    else if arity == UnaryBool then Some(EmitTemp(recv, AddUnaryOp(op, E_BOOL, recv.tok), E_BOOL))
    else if arity == General then
      var x := CompileExpr(args[0], recv.vars, recv.next);
      if x.None? then None
      else Some(EmitTemp(Then(recv, x.value),
                         AddBinaryOp(MaybeScalarOp(op, recv.tid, x.value.tid), recv.tid, recv.tok, x.value.tok), recv.tid))
    else if |args| != 2 then None
    else
      var a := CompileExpr(args[0], recv.vars, recv.next);
      if a.None? then None
      else
        var b := CompileExpr(args[1], a.value.vars, a.value.next);
        if b.None? then None
        else
          var tid := if arity == TernaryOfFirst then a.value.tid else recv.tid;
          Some(EmitTemp(Then(recv, Then(a.value, b.value)),
                        AddTernaryOp(op, tid, recv.tok, a.value.tok, b.value.tok), tid))
  }

  /** Both branches of a conditional, and the Select that chooses. */
  function CompileBranches(c: Code, e: Expr): Option<Code>
    requires e.If?
    decreases e, 0
  {
    var t := CompileExpr(e.thn, c.vars, c.next);
    if t.None? || e.els.None? then None
    else
      var f := CompileExpr(e.els.value, t.value.vars, t.value.next);
      if f.None? then None
      else Some(EmitTemp(Then(c, Then(t.value, f.value)),
                         AddTernaryOp(SELECT, t.value.tid, c.tok, t.value.tok, f.value.tok), t.value.tid))
  }

  function CompileExpr(e: Expr, vars: map<string, byte>, next: nat): Option<Code>
    decreases e, 1
  {
    match e
    case Var(name) => if name in vars then Some(Code([], name, vars[name], vars, next)) else None
    case Ref(inner) => CompileExpr(inner, vars, next)
    case Paren(inner) => CompileExpr(inner, vars, next)
    case Lit(_) => None
    case MethodCall(receiver, callee, args) =>
      var r := CompileExpr(receiver, vars, next);
      if r.None? || MethodCode(callee).None? then None
      else CompileMethod(r.value, ArityOf(callee), MethodCode(callee).value, args)
    case Binary(op, left, right) =>
      var l := CompileExpr(left, vars, next);
      if l.None? then None
      else
        var r := CompileRight(l.value, right);
        if r.None? then None
        else Some(EmitTemp(Then(l.value, r.value),
                           AddBinaryOp(MaybeScalarOp(BinOpCode(op), l.value.tid, r.value.tid), l.value.tid,
                                       l.value.tok, r.value.tok), l.value.tid))
    case Unary(op, operand) =>
      var x := CompileExpr(operand, vars, next);
      if x.None? then None else Some(EmitTemp(x.value, AddUnaryOp(UnOpCode(op), x.value.tid, x.value.tok), x.value.tid))
    case If(cond, _, _) =>
      var c := CompileExpr(cond, vars, next);
      if c.None? then None else CompileBranches(c.value, e)
    case Into(ty, operand) =>
      if ty > 44 then None
      else
        // the temporary's name is taken before the operand is compiled
        var x := CompileExpr(operand, vars, next + 1);
        if x.None? then None
        else
          var tmp := TempName(next);
          Some(Code(x.value.stmts + [Let(tmp, AddUnaryOp(INTO, ty, x.value.tok))], tmp, ty,
                    x.value.vars[tmp := ty], x.value.next))
    case _ =>
      var call := ConstructorCall(e);
      if call.None? then None else Some(EmitTemp(NoCode(vars, next), call.value, e.ty))
  }

  /** `emit_outputs`: each expression, then its output. */
  function CompileOutputs(outputs: seq<Expr>, vars: map<string, byte>, next: nat): Option<Code> {
    if outputs == [] then Some(NoCode(vars, next))
    else
      var x := CompileExpr(outputs[0], vars, next);
      if x.None? then None
      else
        var rest := CompileOutputs(outputs[1..], x.value.vars, x.value.next);
        if rest.None? then None
        else Some(rest.value.(stmts := x.value.stmts + [Output(x.value.tid, x.value.tok)] + rest.value.stmts))
  }

  function CompileBody(body: seq<BodyStmt>, vars: map<string, byte>, next: nat): Option<seq<Stmt>> {
    if body == [] then Some([])
    else
      match body[0]
      case LetStmt(name, init) =>
        if init.None? then CompileBody(body[1..], vars, next)
        else
          var x := CompileExpr(init.value, vars, next);
          if x.None? then None
          else
            var rest := CompileBody(body[1..], x.value.vars[name := x.value.tid], x.value.next);
            if rest.None? then None else Some(x.value.stmts + [Alias(name, x.value.tok)] + rest.value)
      case Emit(outputs) =>
        var x := CompileOutputs(outputs, vars, next);
        if x.None? then None
        else
          var rest := CompileBody(body[1..], x.value.vars, x.value.next);
          if rest.None? then None else Some(x.value.stmts + rest.value)
  }

  function ParamStmt(p: Param): Stmt {
    Let(p.name, if p.plaintext then AddPlaintextInput(p.ty) else AddInput(p.ty))
  }

  function ParamStmts(params: seq<Param>): (s: seq<Stmt>)
    ensures |s| == |params|
  {
    if params == [] then [] else [ParamStmt(params[0])] + ParamStmts(params[1..])
  }

  function ParamVars(params: seq<Param>, vars: map<string, byte>): map<string, byte> {
    if params == [] then vars else ParamVars(params[1..], vars[params[0].name := params[0].ty])
  }

  /** The script of a whole function, or None where the compiler reports an error. */
  function CompileFunction(f: Function): Option<seq<Stmt>> {
    if exists p <- f.params :: p.ty > 44 then None
    else
      var body := CompileBody(f.body, ParamVars(f.params, map[]), 0);
      if body.None? then None else Some(ParamStmts(f.params) + body.value)
  }

  lemma UnfoldIf(e: Expr, vars: map<string, byte>, next: nat)
    requires e.If?
    ensures var c := CompileExpr(e.cond, vars, next);
            CompileExpr(e, vars, next) == if c.None? then None else CompileBranches(c.value, e)
  {
  }

  // ---- the compiler context ----

  class Ctx {
    var vars: map<string, byte>
    var stmts: seq<Stmt>
    var tempId: nat

    constructor ()
      ensures vars == map[] && stmts == [] && tempId == 0
    {
      vars, stmts, tempId := map[], [], 0;
    }

    method Temp() returns (name: string)
      modifies `tempId
      ensures name == TempName(old(tempId)) && tempId == old(tempId) + 1
    {
      name := TempName(tempId);
      tempId := tempId + 1;
    }

    /** Push a call into a fresh temporary. */
    method EmitCall(call: Call, tid: byte) returns (tok: string)
      modifies this
      ensures tok == TempName(old(tempId)) && tempId == old(tempId) + 1
      ensures stmts == old(stmts) + [Let(tok, call)] && vars == old(vars)[tok := tid]
    {
      tok := Temp();
      stmts := stmts + [Let(tok, call)];
      vars := vars[tok := tid];
    }

    /** The context holds exactly what the code says, behind what was there before. */
    ghost predicate Emitted(before: seq<Stmt>, code: Code, tok: string, tid: byte)
      reads this
    {
      stmts == before + code.stmts && vars == code.vars && tempId == code.next && tok == code.tok && tid == code.tid
    }

    method Expr(e: Dsl.Expr) returns (ok: bool, tok: string, tid: byte)
      modifies this
      ensures ok == CompileExpr(e, old(vars), old(tempId)).Some?
      ensures ok ==> Emitted(old(stmts), CompileExpr(e, old(vars), old(tempId)).value, tok, tid)
      decreases e, 1
    {
      ok, tok, tid := false, "", 0;
      match e {
        case Var(name) =>
          if name in vars {
            ok, tok, tid := true, name, vars[name];
          }
        case Ref(inner) =>
          ok, tok, tid := Expr(inner);
        case Paren(inner) =>
          ok, tok, tid := Expr(inner);
        case Lit(_) =>
        case MethodCall(_, _, _) =>
          ok, tok, tid := MethodExpr(e);
        case Binary(_, _, _) =>
          ok, tok, tid := Operator(e);
        case Unary(op, operand) =>
          var xTok;
          ok, xTok, tid := Expr(operand);
          if ok {
            tok := EmitCall(AddUnaryOp(UnOpCode(op), tid, xTok), tid);
          }
        case If(_, _, _) =>
          ok, tok, tid := Conditional(e);
        case Into(_, _) =>
          ok, tok, tid := Conversion(e);
        case _ =>
          var call := ConstructorCall(e);
          if call.Some? {
            ok, tid := true, e.ty;
            tok := EmitCall(call.value, e.ty);
          }
      }
    }

    method MethodExpr(e: Dsl.Expr) returns (ok: bool, tok: string, tid: byte)
      requires e.MethodCall?
      modifies this
      ensures ok == CompileExpr(e, old(vars), old(tempId)).Some?
      ensures ok ==> Emitted(old(stmts), CompileExpr(e, old(vars), old(tempId)).value, tok, tid)
      decreases e, 0
    {
      hide CompileMethod;
      ok, tok, tid := Expr(e.receiver);
      if ok && MethodCode(e.callee).Some? {
        ghost var recv := CompileExpr(e.receiver, old(vars), old(tempId)).value;
        ghost var before := old(stmts);
        ok, tok, tid := MethodOn(tok, tid, ArityOf(e.callee), MethodCode(e.callee).value, e.args, before, recv);
      } else {
        ok := false;
      }
    }

    /** `left op right`, with a literal right operand promoted to a constant. */
    method Operator(e: Dsl.Expr) returns (ok: bool, tok: string, tid: byte)
      requires e.Binary?
      modifies this
      ensures ok == CompileExpr(e, old(vars), old(tempId)).Some?
      ensures ok ==> Emitted(old(stmts), CompileExpr(e, old(vars), old(tempId)).value, tok, tid)
      decreases e, 0
    {
      var lTok, rTok, rTid;
      tok := "";
      ok, lTok, tid := Expr(e.left);
      if ok {
        ghost var l := CompileExpr(e.left, old(vars), old(tempId)).value;
        ok, rTok, rTid := RightOperand(e.right, tid, l);
        if ok {
          ghost var r := CompileRight(l, e.right).value;
          assert stmts == old(stmts) + Then(l, r).stmts;
          tok := EmitCall(AddBinaryOp(MaybeScalarOp(BinOpCode(e.op), tid, rTid), tid, lTok, rTok), tid);
        }
      }
    }

    method RightOperand(right: Dsl.Expr, lTid: byte, ghost l: Code) returns (ok: bool, tok: string, tid: byte)
      requires vars == l.vars && tempId == l.next && lTid == l.tid
      modifies this
      ensures ok == CompileRight(l, right).Some?
      ensures ok ==> Emitted(old(stmts), CompileRight(l, right).value, tok, tid)
      decreases right, 2
    {
      if IsLiteral(right) {
        ok, tid := true, LiteralType(lTid);
        tok := EmitCall(AddConstant(tid, right.value), tid);
      } else {
        ok, tok, tid := Expr(right);
      }
    }

    /** Both branches are compiled; the choice becomes a Select. */
    method Conditional(e: Dsl.Expr) returns (ok: bool, tok: string, tid: byte)
      requires e.If?
      modifies this
      ensures ok == CompileExpr(e, old(vars), old(tempId)).Some?
      ensures ok ==> Emitted(old(stmts), CompileExpr(e, old(vars), old(tempId)).value, tok, tid)
      decreases e, 0, 1
    {
      UnfoldIf(e, vars, tempId);
      hide CompileExpr, CompileBranches;
      ok, tok, tid := Expr(e.cond);
      if ok {
        ghost var c := CompileExpr(e.cond, old(vars), old(tempId)).value;
        ghost var before := old(stmts);
        ok, tok, tid := Branches(e, tok, before, c, tid);
      }
    }

    method Branches(e: Dsl.Expr, cTok: string, ghost before: seq<Stmt>, ghost c: Code, ghost cTid: byte)
      returns (ok: bool, tok: string, tid: byte)
      requires e.If? && Emitted(before, c, cTok, cTid)
      modifies this
      ensures ok == CompileBranches(c, e).Some?
      ensures ok ==> Emitted(before, CompileBranches(c, e).value, tok, tid)
      decreases e, 0, 0
    {
      hide CompileExpr;
      var tTok, fTok, fTid;
      tok := "";
      ok, tTok, tid := Expr(e.thn);
      if !ok { return; }
      ghost var t := CompileExpr(e.thn, c.vars, c.next).value;
      if e.els.None? { ok := false; return; }
      ok, fTok, fTid := Expr(e.els.value);
      if !ok { return; }
      ghost var f := CompileExpr(e.els.value, t.vars, t.next).value;
      assert stmts == before + Then(c, Then(t, f)).stmts;
      tok := EmitCall(AddTernaryOp(SELECT, tid, cTok, tTok, fTok), tid);
    }

    /** `Type::into(x)`: the temporary's name is taken before the operand is compiled. */
    method Conversion(e: Dsl.Expr) returns (ok: bool, tok: string, tid: byte)
      requires e.Into?
      modifies this
      ensures ok == CompileExpr(e, old(vars), old(tempId)).Some?
      ensures ok ==> Emitted(old(stmts), CompileExpr(e, old(vars), old(tempId)).value, tok, tid)
      decreases e, 0
    {
      ok, tok, tid := false, "", 0;
      if e.ty <= 44 {
        tok := Temp();
        var xTok, xTid;
        ok, xTok, xTid := Expr(e.operand);
        if ok {
          tid := e.ty;
          stmts := stmts + [Let(tok, AddUnaryOp(INTO, e.ty, xTok))];
          vars := vars[tok := e.ty];
        }
      }
    }

    /** A method on a receiver that has just been compiled to `recv`, behind `before`. */
    method MethodOn(recvTok: string, recvTid: byte, arity: Arity, op: byte, args: seq<Dsl.Expr>,
                    ghost before: seq<Stmt>, ghost recv: Code)
      returns (ok: bool, tok: string, tid: byte)
      requires Emitted(before, recv, recvTok, recvTid)
      modifies this
      ensures ok == CompileMethod(recv, arity, op, args).Some?
      ensures ok ==> Emitted(before, CompileMethod(recv, arity, op, args).value, tok, tid)
      decreases args, 1
    {
      hide CompileExpr;
      ok, tok, tid := true, "", recvTid;
      if arity == UnarySame || (arity == General && args == []) {
        tok := EmitCall(AddUnaryOp(op, recvTid, recvTok), recvTid);
      } else if arity == UnaryBool {
        tid := E_BOOL;
        tok := EmitCall(AddUnaryOp(op, E_BOOL, recvTok), E_BOOL);
      } else if arity == General {
        var xTok, xTid;
        ok, xTok, xTid := Expr(args[0]);
        if ok {
          ghost var x := CompileExpr(args[0], recv.vars, recv.next).value;
          assert stmts == before + Then(recv, x).stmts;
          tok := EmitCall(AddBinaryOp(MaybeScalarOp(op, recvTid, xTid), recvTid, recvTok, xTok), recvTid);
        }
      } else if |args| != 2 {
        ok := false;
      } else {
        ok, tok, tid := TwoArguments(recvTok, recvTid, arity, op, args, before, recv);
      }
    }

    method TwoArguments(recvTok: string, recvTid: byte, arity: Arity, op: byte, args: seq<Dsl.Expr>,
                        ghost before: seq<Stmt>, ghost recv: Code)
      returns (ok: bool, tok: string, tid: byte)
      requires Emitted(before, recv, recvTok, recvTid)
      requires |args| == 2 && (arity == TernaryOfFirst || arity == TernaryOfReceiver)
      modifies this
      ensures ok == CompileMethod(recv, arity, op, args).Some?
      ensures ok ==> Emitted(before, CompileMethod(recv, arity, op, args).value, tok, tid)
      decreases args, 0
    {
      hide CompileExpr;
      var aTok, aTid, bTok, bTid;
      tok, tid := "", recvTid;
      ok, aTok, aTid := Expr(args[0]);
      if !ok { return; }
      ghost var a := CompileExpr(args[0], recv.vars, recv.next).value;
      ok, bTok, bTid := Expr(args[1]);
      if !ok { return; }
      ghost var b := CompileExpr(args[1], a.vars, a.next).value;
      assert stmts == before + Then(recv, Then(a, b)).stmts;
      tid := if arity == TernaryOfFirst then aTid else recvTid;
      tok := EmitCall(AddTernaryOp(op, tid, recvTok, aTok, bTok), tid);
    }

    method EmitOutputs(outputs: seq<Dsl.Expr>) returns (ok: bool)
      modifies this
      ensures ok == CompileOutputs(outputs, old(vars), old(tempId)).Some?
      ensures ok ==>
        var code := CompileOutputs(outputs, old(vars), old(tempId)).value;
        stmts == old(stmts) + code.stmts && vars == code.vars && tempId == code.next
    {
      hide CompileExpr;
      ghost var whole := CompileOutputs(outputs, vars, tempId);
      for i := 0 to |outputs|
        invariant var rest := CompileOutputs(outputs[i..], vars, tempId);
          && whole.Some? == rest.Some?
          && (rest.Some? ==>
            && old(stmts) + whole.value.stmts == stmts + rest.value.stmts
            && whole.value.vars == rest.value.vars && whole.value.next == rest.value.next)
      {
        ghost var before := stmts;
        var tok, tid;
        ok, tok, tid := Expr(outputs[i]);
        if !ok { return; }
        stmts := stmts + [Output(tid, tok)];
        assert outputs[i..][1..] == outputs[i + 1..];
        ghost var rest := CompileOutputs(outputs[i + 1..], vars, tempId);
        if rest.Some? {
          assert before + (stmts[|before|..] + rest.value.stmts) == stmts + rest.value.stmts;
        }
      }
      ok := true;
    }

    method Body(body: seq<BodyStmt>) returns (ok: bool)
      modifies this
      ensures ok == CompileBody(body, old(vars), old(tempId)).Some?
      ensures ok ==> stmts == old(stmts) + CompileBody(body, old(vars), old(tempId)).value
    {
      hide CompileExpr, CompileOutputs;
      ghost var whole := CompileBody(body, vars, tempId);
      for i := 0 to |body|
        invariant var rest := CompileBody(body[i..], vars, tempId);
          && whole.Some? == rest.Some?
          && (rest.Some? ==> old(stmts) + whole.value == stmts + rest.value)
      {
        ghost var before := stmts;
        assert body[i..][1..] == body[i + 1..];
        match body[i] {
          case LetStmt(name, init) =>
            if init.Some? {
              var tok, tid;
              ok, tok, tid := Expr(init.value);
              if !ok { return; }
              stmts := stmts + [Alias(name, tok)];
              vars := vars[name := tid];
            }
          case Emit(outputs) =>
            ok := EmitOutputs(outputs);
            if !ok { return; }
        }
        ghost var rest := CompileBody(body[i + 1..], vars, tempId);
        if rest.Some? {
          assert before + (stmts[|before|..] + rest.value) == stmts + rest.value;
        }
      }
      ok := true;
    }
  }

  /** `compile_graph`: parameters become input nodes in order, then the body is compiled. */
  method CompileGraph(f: Function) returns (ok: bool, script: seq<Stmt>)
    ensures ok == CompileFunction(f).Some?
    ensures ok ==> script == CompileFunction(f).value
  {
    var ctx := new Ctx();
    script := [];
    for i := 0 to |f.params|
      invariant forall j | 0 <= j < i :: f.params[j].ty <= 44
      invariant ctx.tempId == 0
      invariant ctx.stmts + ParamStmts(f.params[i..]) == ParamStmts(f.params)
      invariant ParamVars(f.params[i..], ctx.vars) == ParamVars(f.params, map[])
    {
      var p := f.params[i];
      if p.ty > 44 {
        return false, [];
      }
      assert f.params[i..] == [p] + f.params[i + 1..];
      ctx.stmts := ctx.stmts + [ParamStmt(p)];
      ctx.vars := ctx.vars[p.name := p.ty];
    }
    assert forall p <- f.params :: p.ty <= 44;
    ok := ctx.Body(f.body);
    if ok {
      script := ctx.stmts;
    }
  }
}
