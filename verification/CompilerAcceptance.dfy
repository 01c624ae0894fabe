/** Which programs the compiler accepts: exactly those that have a value. */
module CompilerAcceptance {
  import opened LittleEndian
  import opened FheTypes
  import opened Evaluator
  import opened Dsl
  import opened Compiler
  import opened CompilerProof

  /** The compiler's variables give each source variable the type of its value. */
  predicate TypesMatch<V>(env: Env<V>, vars: map<string, byte>) {
    forall x :: x in env ==> x in vars && vars[x] == env[x].ty
  }

  /** Code of the right type, keeping the source variables' types. */
  predicate Accepted<V>(env: Env<V>, c: Option<Code>, ty: byte) {
    c.Some? && c.value.tid == ty && TypesMatch(env, c.value.vars)
  }

  predicate UserNames<V>(env: Env<V>) {
    forall x :: x in env ==> UserName(x)
  }

  lemma TempKeepsTypes<V>(env: Env<V>, vars: map<string, byte>, k: nat, tid: byte)
    requires UserNames(env) && TypesMatch(env, vars)
    ensures TypesMatch(env, vars[TempName(k) := tid])
  {
    assert "__t" <= TempName(k);
  }

  lemma VariableMatches<V>(env: Env<V>, vars: map<string, byte>, name: string)
    requires TypesMatch(env, vars) && name in env
    ensures name in vars && vars[name] == env[name].ty
  {
  }

  /** An expression with a value is accepted, at the type of its value. */
  lemma {:induction false} ExprAccepted<V>(eng: Engine<V>, e: Expr, env: Env<V>, vars: map<string, byte>, next: nat)
    requires UserNames(env) && TypesMatch(env, vars) && EvalExpr(eng, e, env).Ok?
    ensures Accepted(env, CompileExpr(e, vars, next), EvalExpr(eng, e, env).value.ty)
    decreases e, 1
  {
    hide TypesMatch, UserNames, TempName;
    match e
    case Var(name) => VariableMatches(env, vars, name);
    case Ref(inner) => ExprAccepted(eng, inner, env, vars, next);
    case Paren(inner) => ExprAccepted(eng, inner, env, vars, next);
    case Lit(_) =>
    case MethodCall(receiver, callee, args) =>
      ExprAccepted(eng, receiver, env, vars, next);
      var r := CompileExpr(receiver, vars, next).value;
      MethodAccepted(eng, EvalExpr(eng, receiver, env).value, r, ArityOf(callee), MethodCode(callee).value, args, env);
    case Binary(op, left, right) =>
      ExprAccepted(eng, left, env, vars, next);
      var l := CompileExpr(left, vars, next).value;
      RightAccepted(eng, l, right, env);
      var r := CompileRight(l, right).value;
      TempKeepsTypes(env, r.vars, r.next, l.tid);
    case Unary(_, operand) =>
      ExprAccepted(eng, operand, env, vars, next);
      var x := CompileExpr(operand, vars, next).value;
      TempKeepsTypes(env, x.vars, x.next, x.tid);
    case If(cond, _, _) =>
      ExprAccepted(eng, cond, env, vars, next);
      BranchesAccepted(eng, CompileExpr(cond, vars, next).value, e, env);
      UnfoldIf(e, vars, next);
    case Into(ty, operand) =>
      ExprAccepted(eng, operand, env, vars, next + 1);
      TempKeepsTypes(env, CompileExpr(operand, vars, next + 1).value.vars, next, ty);
    case _ => TempKeepsTypes(env, vars, next, e.ty);
  }

  lemma {:induction false} RightAccepted<V>(eng: Engine<V>, l: Code, right: Expr, env: Env<V>)
    requires UserNames(env) && TypesMatch(env, l.vars) && EvalRight(eng, l.tid, right, env).Ok?
    ensures Accepted(env, CompileRight(l, right), EvalRight(eng, l.tid, right, env).value.ty)
    decreases right, 2
  {
    hide TypesMatch, UserNames, TempName;
    if IsLiteral(right) {
      TempKeepsTypes(env, l.vars, l.next, LiteralType(l.tid));
    } else {
      ExprAccepted(eng, right, env, l.vars, l.next);
    }
  }

  lemma {:induction false} BranchesAccepted<V>(eng: Engine<V>, c: Code, e: Expr, env: Env<V>)
    requires e.If? && UserNames(env) && TypesMatch(env, c.vars) && EvalExpr(eng, e, env).Ok?
    ensures Accepted(env, CompileBranches(c, e), EvalExpr(eng, e, env).value.ty)
    decreases e, 0
  {
    hide TypesMatch, UserNames, TempName;
    ExprAccepted(eng, e.thn, env, c.vars, c.next);
    var t := CompileExpr(e.thn, c.vars, c.next).value;
    ExprAccepted(eng, e.els.value, env, t.vars, t.next);
    var f := CompileExpr(e.els.value, t.vars, t.next).value;
    TempKeepsTypes(env, f.vars, f.next, t.tid);
  }

  lemma {:induction false} MethodAccepted<V>(eng: Engine<V>, recv: Typed<V>, c: Code, arity: Arity, op: byte, args: seq<Expr>, env: Env<V>)
    requires UserNames(env) && TypesMatch(env, c.vars) && c.tid == recv.ty
    requires EvalMethod(eng, arity, op, recv, args, env).Ok?
    ensures Accepted(env, CompileMethod(c, arity, op, args), EvalMethod(eng, arity, op, recv, args, env).value.ty)
    decreases args, 0
  {
    hide TypesMatch, UserNames, TempName;
    if arity == UnarySame || (arity == General && args == []) {
      TempKeepsTypes(env, c.vars, c.next, c.tid);
    } else if arity == UnaryBool {
      TempKeepsTypes(env, c.vars, c.next, E_BOOL);
    } else {
      ExprAccepted(eng, args[0], env, c.vars, c.next);
      var a := CompileExpr(args[0], c.vars, c.next).value;
      if arity == General {
        TempKeepsTypes(env, a.vars, a.next, c.tid);
      } else {
        ExprAccepted(eng, args[1], env, a.vars, a.next);
        var b := CompileExpr(args[1], a.vars, a.next).value;
        TempKeepsTypes(env, b.vars, b.next, if arity == TernaryOfFirst then a.tid else c.tid);
      }
    }
  }

  lemma {:induction false} OutputsAccepted<V>(eng: Engine<V>, outputs: seq<Expr>, env: Env<V>, vars: map<string, byte>, next: nat)
    requires UserNames(env) && TypesMatch(env, vars) && EvalOutputs(eng, outputs, env).Ok?
    ensures var c := CompileOutputs(outputs, vars, next); c.Some? && TypesMatch(env, c.value.vars)
  {
    hide TypesMatch, UserNames;
    if outputs != [] {
      ExprAccepted(eng, outputs[0], env, vars, next);
      var x := CompileExpr(outputs[0], vars, next).value;
      OutputsAccepted(eng, outputs[1..], env, x.vars, x.next);
    }
  }

  lemma {:induction false} BodyAccepted<V>(eng: Engine<V>, body: seq<BodyStmt>, env: Env<V>, vars: map<string, byte>, next: nat)
    requires UserNames(env) && TypesMatch(env, vars) && EvalBody(eng, body, env).Ok?
    requires forall s <- body :: WellFormedStmt(s)
    ensures CompileBody(body, vars, next).Some?
    decreases |body|
  {
    hide EvalExpr, CompileExpr, WellFormedExpr;
    if body != [] {
      assert body[0] in body;
      match body[0]
      case LetStmt(name, init) =>
        if init.None? {
          BodyAccepted(eng, body[1..], env, vars, next);
        } else {
          ExprAccepted(eng, init.value, env, vars, next);
          var x, v := CompileExpr(init.value, vars, next).value, EvalExpr(eng, init.value, env).value;
          BodyAccepted(eng, body[1..], env[name := v], x.vars[name := x.tid], x.next);
        }
      case Emit(outputs) =>
        OutputsAccepted(eng, outputs, env, vars, next);
        var x := CompileOutputs(outputs, vars, next).value;
        BodyAccepted(eng, body[1..], env, x.vars, x.next);
    }
  }

  lemma {:induction false} ParamsMatch<V>(params: seq<Param>, inputs: seq<V>, env: Env<V>, vars: map<string, byte>)
    requires |params| == |inputs| && UserNames(env) && TypesMatch(env, vars)
    requires forall p <- params :: UserName(p.name)
    ensures UserNames(BindParams(params, inputs, env)) && TypesMatch(BindParams(params, inputs, env), ParamVars(params, vars))
  {
    if params != [] {
      assert params[0] in params;
      ParamsMatch(params[1..], inputs[1..], env[params[0].name := Typed(params[0].ty, inputs[0])],
                  vars[params[0].name := params[0].ty]);
    }
  }

  /** A well-formed function with a value, on any engine and any inputs, is accepted by the compiler. */
  lemma EveryProgramWithAValueCompiles<V>(eng: Engine<V>, f: Function, inputs: seq<V>)
    requires WellFormedFunction(f) && |inputs| == |f.params| && EvalFunction(eng, f, inputs).Ok?
    ensures CompileFunction(f).Some?
  {
    hide EvalBody, CompileBody;
    var env: Env<V> := map[];
    ParamsMatch(f.params, inputs, env, map[]);
    BodyAccepted(eng, f.body, BindParams(f.params, inputs, env), ParamVars(f.params, map[]), 0);
  }

  // ---- and only those ----

  /** A value, or no meaning at all: nothing failed on the way. */
  predicate NothingFailed<T>(r: Result<T, SourceError>) {
    r.Err? ==> r.error.Rejected?
  }

  lemma {:induction false} ExprOnlyRejected<V(!new)>(eng: Engine<V>, e: Expr, env: Env<V>)
    requires NeverFails(eng)
    ensures NothingFailed(EvalExpr(eng, e, env))
    decreases e, 1
  {
    match e
    case Var(_) =>
    case Ref(inner) => ExprOnlyRejected(eng, inner, env);
    case Paren(inner) => ExprOnlyRejected(eng, inner, env);
    case Lit(_) =>
    case MethodCall(receiver, callee, args) =>
      ExprOnlyRejected(eng, receiver, env);
      var r := EvalExpr(eng, receiver, env);
      if r.Ok? && MethodCode(callee).Some? {
        MethodOnlyRejected(eng, ArityOf(callee), MethodCode(callee).value, r.value, args, env);
      }
    case Binary(_, left, right) =>
      ExprOnlyRejected(eng, left, env);
      ExprOnlyRejected(eng, right, env);
    case Unary(_, operand) => ExprOnlyRejected(eng, operand, env);
    case If(cond, thn, els) =>
      ExprOnlyRejected(eng, cond, env);
      ExprOnlyRejected(eng, thn, env);
      if els.Some? {
        ExprOnlyRejected(eng, els.value, env);
      }
    case Into(_, operand) => ExprOnlyRejected(eng, operand, env);
    case _ =>
  }

  lemma {:induction false} MethodOnlyRejected<V(!new)>(eng: Engine<V>, arity: Arity, op: byte, recv: Typed<V>, args: seq<Expr>, env: Env<V>)
    requires NeverFails(eng)
    ensures NothingFailed(EvalMethod(eng, arity, op, recv, args, env))
    decreases args, 0
  {
    if |args| > 0 {
      ExprOnlyRejected(eng, args[0], env);
    }
    if |args| > 1 {
      ExprOnlyRejected(eng, args[1], env);
    }
  }

  lemma {:induction false} OutputsOnlyRejected<V(!new)>(eng: Engine<V>, outputs: seq<Expr>, env: Env<V>)
    requires NeverFails(eng)
    ensures NothingFailed(EvalOutputs(eng, outputs, env))
  {
    hide EvalExpr, NeverFails;
    if outputs != [] {
      ExprOnlyRejected(eng, outputs[0], env);
      OutputsOnlyRejected(eng, outputs[1..], env);
    }
  }

  lemma {:induction false} BodyOnlyRejected<V(!new)>(eng: Engine<V>, body: seq<BodyStmt>, env: Env<V>)
    requires NeverFails(eng)
    ensures NothingFailed(EvalBody(eng, body, env))
    decreases |body|
  {
    hide EvalExpr, EvalOutputs, NeverFails;
    if body != [] {
      match body[0]
      case LetStmt(name, init) =>
        if init.None? {
          BodyOnlyRejected(eng, body[1..], env);
        } else {
          ExprOnlyRejected(eng, init.value, env);
          if EvalExpr(eng, init.value, env).Ok? {
            BodyOnlyRejected(eng, body[1..], env[name := EvalExpr(eng, init.value, env).value]);
          }
        }
      case Emit(outputs) =>
        OutputsOnlyRejected(eng, outputs, env);
        BodyOnlyRejected(eng, body[1..], env);
    }
  }

  /** The compiler accepts exactly the programs that have a value, on any engine that does not fail. */
  lemma AcceptedIffValue<V(!new)>(eng: Engine<V>, f: Function, inputs: seq<V>)
    requires WellFormedFunction(f) && |inputs| == |f.params| && NeverFails(eng)
    ensures CompileFunction(f).Some? <==> EvalFunction(eng, f, inputs).Ok?
  {
    hide EvalBody, CompileBody, NeverFails;
    if EvalFunction(eng, f, inputs).Ok? {
      EveryProgramWithAValueCompiles(eng, f, inputs);
    }
    if CompileFunction(f).Some? {
      CompilerPreservesMeaning(eng, f, inputs);
      BodyOnlyRejected(eng, f.body, BindParams(f.params, inputs, map[]));
    }
  }

  /** An engine with one value, on which a program has a value exactly when it has a meaning. */
  const UNIT_ENGINE: Engine<()> := Engine((t, bytes) => (), (op, a, t) => Ok(()), (op, a, b, t) => Ok(()), (op, a, b, c, t) => Ok(()))

  /** Acceptance is a property of the program alone. */
  lemma AcceptedIffMeaning(f: Function)
    requires WellFormedFunction(f)
    ensures CompileFunction(f).Some? <==> EvalFunction(UNIT_ENGINE, f, seq(|f.params|, i => ())).Ok?
  {
    hide CompileFunction, EvalFunction;
    AcceptedIffValue(UNIT_ENGINE, f, seq(|f.params|, i => ()));
  }
}
