/** The compiler preserves meaning: the script emitted for a function computes, on every engine,
    what direct evaluation of the function computes. */
module CompilerProof {
  import opened LittleEndian
  import opened FheTypes
  import opened GraphFormat
  import opened GraphBuilding
  import opened Evaluator
  import opened Script
  import opened Dsl
  import opened Compiler

  // ---- names ----

  lemma {:induction false} DecimalInjective(m: nat, n: nat)
    requires Decimal(m) == Decimal(n)
    ensures m == n
    decreases m
  {
    var s := Decimal(m);
    if m < 10 && n < 10 {
      DigitInjective(m, n);
    } else if m >= 10 && n >= 10 {
      assert s[..|s| - 1] == Decimal(m / 10) && s[..|s| - 1] == Decimal(n / 10);
      assert s[|s| - 1] == Digit(m % 10) && s[|s| - 1] == Digit(n % 10);
      DecimalInjective(m / 10, n / 10);
      DigitInjective(m % 10, n % 10);
    }
  }

  lemma DigitInjective(c: nat, d: nat)
    requires c < 10 && d < 10 && Digit(c) == Digit(d)
    ensures c == d
  {
  }

  lemma TempNameInjective(m: nat, n: nat)
    requires TempName(m) == TempName(n)
    ensures m == n
  {
    assert TempName(m)[3..] == Decimal(m) && TempName(n)[3..] == Decimal(n);
    DecimalInjective(m, n);
  }

  /** No temporary from number n on has this name. */
  ghost predicate Settled(x: string, n: nat) {
    forall k: nat | n <= k :: x != TempName(k)
  }

  lemma UserNameSettled(x: string, n: nat)
    requires UserName(x)
    ensures Settled(x, n)
  {
    forall k: nat
      ensures "__t" <= TempName(k)
    {
    }
  }

  lemma TempSettles(k: nat)
    ensures Settled(TempName(k), k + 1) && !UserName(TempName(k))
  {
    forall j: nat | k + 1 <= j
      ensures TempName(k) != TempName(j)
    {
      if TempName(k) == TempName(j) {
        TempNameInjective(k, j);
      }
    }
  }

  // ---- scripts in sequence ----

  function Bound(script: seq<Stmt>): set<string> {
    if script == [] then {} else Binds(script[0]) + Bound(script[1..])
  }

  lemma {:induction false} ClosedAppend(s: seq<Stmt>, t: seq<Stmt>, names: set<string>)
    requires Closed(s, names) && Closed(t, names + Bound(s))
    ensures Closed(s + t, names)
    ensures Bound(s + t) == Bound(s) + Bound(t)
  {
    if s == [] {
      assert s + t == t && names + Bound(s) == names;
    } else {
      assert (s + t)[1..] == s[1..] + t;
      assert names + Bound(s) == names + Binds(s[0]) + Bound(s[1..]);
      ClosedAppend(s[1..], t, names + Binds(s[0]));
    }
  }

  /** Running a script of two parts is running the first and then the second. */
  lemma {:induction false} InterpretAppend<V>(eng: Engine<V>, s: seq<Stmt>, t: seq<Stmt>, st: Values<V>)
    requires Closed(s, st.regs.Keys) && Closed(t, st.regs.Keys + Bound(s))
    ensures Closed(s + t, st.regs.Keys)
    ensures Interpret(eng, s, st).Err? ==> Interpret(eng, s + t, st) == Interpret(eng, s, st)
    ensures Interpret(eng, s, st).Ok? ==>
      var mid := Interpret(eng, s, st).value;
      mid.regs.Keys == st.regs.Keys + Bound(s) && Interpret(eng, s + t, st) == Interpret(eng, t, mid)
    decreases |s|
  {
    ClosedAppend(s, t, st.regs.Keys);
    if s == [] {
      assert s + t == t && st.regs.Keys + Bound(s) == st.regs.Keys;
    } else {
      assert (s + t)[1..] == s[1..] + t;
      var r := StepValues(eng, s[0], st);
      if r.Ok? {
        assert st.regs.Keys + Bound(s) == r.value.regs.Keys + Bound(s[1..]);
        InterpretAppend(eng, s[1..], t, r.value);
      }
    }
  }

  // ---- emitted code is well-formed ----

  predicate TypesOk(vars: map<string, byte>) {
    forall x :: x in vars ==> vars[x] <= 44
  }

  /** No statement takes an input. */
  predicate NoInputs(script: seq<Stmt>) {
    forall s <- script :: s.Let? ==> !CallTakesInput(s.call)
  }

  /** What compiling anything does to the context: only fresh temporaries are added. */
  ghost predicate GoodState(vars: map<string, byte>, next: nat, c: Code) {
    && next <= c.next
    && Closed(c.stmts, vars.Keys) && c.vars.Keys == vars.Keys + Bound(c.stmts)
    && TypesOk(c.vars) && NoInputs(c.stmts)
    && (forall x :: x in vars && Settled(x, next) ==> c.vars[x] == vars[x])
    && (forall x :: x in c.vars && UserName(x) ==> x in vars)
  }

  ghost predicate GoodCode(vars: map<string, byte>, next: nat, c: Code) {
    GoodState(vars, next, c) && c.tok in c.vars && Settled(c.tok, c.next) && c.tid <= 44
  }

  lemma GoodThen(vars: map<string, byte>, next: nat, first: Code, second: Code)
    requires GoodState(vars, next, first) && GoodState(first.vars, first.next, second)
    ensures GoodState(vars, next, Then(first, second))
  {
    ClosedAppend(first.stmts, second.stmts, vars.Keys);
  }

  lemma GoodEmit(vars: map<string, byte>, next: nat, c: Code, call: Call, tid: byte)
    requires GoodState(vars, next, c) && tid <= 44
    requires CallOk(call) && Operands(call) <= c.vars.Keys && !CallTakesInput(call)
    ensures GoodCode(vars, next, EmitTemp(c, call, tid))
  {
    var tmp := TempName(c.next);
    ClosedAppend(c.stmts, [Let(tmp, call)], vars.Keys);
    TempSettles(c.next);
  }

  lemma ConstructorGood(e: Expr, call: Call)
    requires IsConstructor(e) && WellFormedExpr(e) && ConstructorCall(e) == Some(call)
    ensures CallOk(call) && call.ty == e.ty && (call.AddConstant? || call.AddConstantBytes?)
    ensures ConstantOf(call) == ConstructorBytes(e).value
  {
    if e.Splat? || e.SplatBytes? {
      if VecElementSize(e.ty) != 0 {
        LanesTile(e.ty);
      }
    }
  }

  lemma {:induction false} CompileGood(e: Expr, vars: map<string, byte>, next: nat)
    requires WellFormedExpr(e) && TypesOk(vars) && CompileExpr(e, vars, next).Some?
    ensures GoodCode(vars, next, CompileExpr(e, vars, next).value)
    decreases e, 1
  {
    hide GoodState, CompileMethod, CompileBranches, CompileRight, BinOpCode, UnOpCode, MethodCode, ArityOf, MaybeScalarOp;
    match e
    case Lit(_) =>
    case Var(name) =>
      UserNameSettled(name, next);
      GoodNothing(vars, next);
    case Ref(inner) =>
      CompileGood(inner, vars, next);
    case Paren(inner) =>
      CompileGood(inner, vars, next);
    case MethodCall(receiver, callee, args) =>
      CompileGood(receiver, vars, next);
      CompileMethodGood(vars, next, CompileExpr(receiver, vars, next).value, ArityOf(callee), MethodCode(callee).value, args);
    case Binary(op, left, right) =>
      CompileGood(left, vars, next);
      var l := CompileExpr(left, vars, next).value;
      CompileRightGood(l, right, vars, next);
      var r := CompileRight(l, right).value;
      GoodThen(vars, next, l, r);
      TokenStays(l.vars, l.next, r, l.tok);
      GoodEmit(vars, next, Then(l, r),
               AddBinaryOp(MaybeScalarOp(BinOpCode(op), l.tid, r.tid), l.tid, l.tok, r.tok), l.tid);
    case Unary(op, operand) =>
      CompileGood(operand, vars, next);
      var x := CompileExpr(operand, vars, next).value;
      GoodEmit(vars, next, x, AddUnaryOp(UnOpCode(op), x.tid, x.tok), x.tid);
    case If(cond, _, _) =>
      CompileGood(cond, vars, next);
      CompileBranchesGood(vars, next, CompileExpr(cond, vars, next).value, e);
    case Into(ty, operand) =>
      CompileGood(operand, vars, next + 1);
      GoodConversion(vars, next, CompileExpr(operand, vars, next + 1).value, ty);
    case _ =>
      ConstructorGood(e, ConstructorCall(e).value);
      GoodNothing(vars, next);
      GoodEmit(vars, next, NoCode(vars, next), ConstructorCall(e).value, e.ty);
  }

  lemma GoodNothing(vars: map<string, byte>, next: nat)
    requires TypesOk(vars)
    ensures GoodState(vars, next, NoCode(vars, next))
    ensures forall name, tid :: GoodState(vars, next, Code([], name, tid, vars, next))
  {
  }

  lemma TokenStays(vars: map<string, byte>, next: nat, c: Code, tok: string)
    requires GoodState(vars, next, c) && tok in vars && Settled(tok, next)
    ensures tok in c.vars && Settled(tok, c.next) && c.vars[tok] == vars[tok]
  {
  }

  lemma GoodConversion(vars: map<string, byte>, next: nat, x: Code, ty: byte)
    requires GoodCode(vars, next + 1, x) && ty <= 44
    ensures GoodCode(vars, next, Code(x.stmts + [Let(TempName(next), AddUnaryOp(INTO, ty, x.tok))], TempName(next), ty,
                                      x.vars[TempName(next) := ty], x.next))
  {
    ClosedAppend(x.stmts, [Let(TempName(next), AddUnaryOp(INTO, ty, x.tok))], vars.Keys);
    TempSettles(next);
  }

  lemma {:induction false} CompileRightGood(l: Code, right: Expr, vars: map<string, byte>, next: nat)
    requires GoodCode(vars, next, l) && WellFormedExpr(right) && CompileRight(l, right).Some?
    ensures GoodCode(l.vars, l.next, CompileRight(l, right).value)
    decreases right, 2
  {
    hide CompileExpr;
    assert TypesOk(l.vars);
    if IsLiteral(right) {
      var ty := LiteralType(l.tid);
      GoodNothing(l.vars, l.next);
      GoodEmit(l.vars, l.next, NoCode(l.vars, l.next), AddConstant(ty, right.value), ty);
    } else {
      CompileGood(right, l.vars, l.next);
    }
  }

  lemma {:induction false} CompileMethodGood(vars: map<string, byte>, next: nat, recv: Code, arity: Arity, op: byte, args: seq<Expr>)
    requires GoodCode(vars, next, recv) && (forall a <- args :: WellFormedExpr(a))
    requires CompileMethod(recv, arity, op, args).Some?
    ensures GoodCode(vars, next, CompileMethod(recv, arity, op, args).value)
    decreases args, 0
  {
    hide CompileExpr, GoodState, MaybeScalarOp;
    assert TypesOk(recv.vars) by { CodeTypes(vars, next, recv); }
    if arity == UnarySame || (arity == General && args == []) {
      GoodEmit(vars, next, recv, AddUnaryOp(op, recv.tid, recv.tok), recv.tid);
    } else if arity == UnaryBool {
      GoodEmit(vars, next, recv, AddUnaryOp(op, E_BOOL, recv.tok), E_BOOL);
    } else if arity == General {
      CompileGood(args[0], recv.vars, recv.next);
      var x := CompileExpr(args[0], recv.vars, recv.next).value;
      GoodThen(vars, next, recv, x);
      TokenStays(recv.vars, recv.next, x, recv.tok);
      GoodEmit(vars, next, Then(recv, x), AddBinaryOp(MaybeScalarOp(op, recv.tid, x.tid), recv.tid, recv.tok, x.tok), recv.tid);
    } else {
      CompileGood(args[0], recv.vars, recv.next);
      var a := CompileExpr(args[0], recv.vars, recv.next).value;
      CodeTypes(recv.vars, recv.next, a);
      CompileGood(args[1], a.vars, a.next);
      var b := CompileExpr(args[1], a.vars, a.next).value;
      var tid := if arity == TernaryOfFirst then a.tid else recv.tid;
      GoodTernary(vars, next, recv, a, b, op, tid);
    }
  }

  lemma CodeTypes(vars: map<string, byte>, next: nat, c: Code)
    requires GoodState(vars, next, c)
    ensures TypesOk(c.vars) && next <= c.next
  {
  }

  lemma GoodTernary(vars: map<string, byte>, next: nat, c: Code, t: Code, f: Code, op: byte, tid: byte)
    requires GoodCode(vars, next, c) && GoodCode(c.vars, c.next, t) && GoodCode(t.vars, t.next, f) && tid <= 44
    ensures GoodCode(vars, next, EmitTemp(Then(c, Then(t, f)), AddTernaryOp(op, tid, c.tok, t.tok, f.tok), tid))
  {
    hide GoodState, Closed, Settled;
    GoodThen(c.vars, c.next, t, f);
    GoodThen(vars, next, c, Then(t, f));
    TokenStays(t.vars, t.next, f, t.tok);
    TokenStays(c.vars, c.next, Then(t, f), c.tok);
    GoodEmit(vars, next, Then(c, Then(t, f)), AddTernaryOp(op, tid, c.tok, t.tok, f.tok), tid);
  }

  lemma {:induction false} CompileBranchesGood(vars: map<string, byte>, next: nat, c: Code, e: Expr)
    requires e.If? && WellFormedExpr(e) && GoodCode(vars, next, c) && CompileBranches(c, e).Some?
    ensures GoodCode(vars, next, CompileBranches(c, e).value)
    decreases e, 0
  {
    hide CompileExpr, GoodState;
    CodeTypes(vars, next, c);
    CompileGood(e.thn, c.vars, c.next);
    var t := CompileExpr(e.thn, c.vars, c.next).value;
    CodeTypes(c.vars, c.next, t);
    CompileGood(e.els.value, t.vars, t.next);
    GoodTernary(vars, next, c, t, CompileExpr(e.els.value, t.vars, t.next).value, SELECT, t.tid);
  }

  // ---- emitted code computes what the expression means ----

  /** Source variables and registers hold the same values under the same types. */
  ghost predicate Agree<V>(env: Env<V>, vars: map<string, byte>, regs: map<string, V>) {
    && regs.Keys == vars.Keys
    && (forall x :: x in env ==> UserName(x) && x in vars && env[x].ty == vars[x] && env[x].value == regs[x])
    && (forall x :: x in vars && UserName(x) ==> x in env)
  }

  /** Nothing but registers changes, and settled registers keep their value. */
  ghost predicate Frames<V>(next: nat, st: Values<V>, st': Values<V>) {
    && st'.inputs == st.inputs && st'.outs == st.outs
    && (forall x :: x in st.regs && Settled(x, next) ==> x in st'.regs && st'.regs[x] == st.regs[x])
  }

  /** Running c from st leaves v in c's register, or fails as v does. */
  ghost predicate Computes<V>(eng: Engine<V>, env: Env<V>, vars: map<string, byte>, next: nat, c: Code, st: Values<V>,
                              v: Result<Typed<V>, SourceError>)
  {
    && GoodCode(vars, next, c) && st.regs.Keys == vars.Keys
    && var r := Interpret(eng, c.stmts, st);
    if v.Ok? then
      && r.Ok? && Agree(env, c.vars, r.value.regs) && Frames(next, st, r.value)
      && r.value.regs[c.tok] == v.value.value && c.tid == v.value.ty
    else v.error.Failed? && r == Err(v.error.error)
  }

  /** State after code that computed a value. */
  function After<V>(eng: Engine<V>, c: Code, st: Values<V>): Values<V>
    requires Closed(c.stmts, st.regs.Keys) && Interpret(eng, c.stmts, st).Ok?
  {
    Interpret(eng, c.stmts, st).value
  }

  lemma ComputesState<V>(eng: Engine<V>, env: Env<V>, vars: map<string, byte>, next: nat, c: Code, st: Values<V>,
                         v: Result<Typed<V>, SourceError>)
    requires Computes(eng, env, vars, next, c, st, v) && v.Ok?
    ensures Closed(c.stmts, st.regs.Keys) && Interpret(eng, c.stmts, st).Ok?
    ensures After(eng, c, st).regs.Keys == c.vars.Keys && Agree(env, c.vars, After(eng, c, st).regs)
    ensures TypesOk(c.vars) && c.tid <= 44 && c.tid == v.value.ty && c.tok in c.vars
    ensures After(eng, c, st).regs[c.tok] == v.value.value && Settled(c.tok, c.next) && next <= c.next
  {
  }

  /** Code behind code: the second runs in the state the first leaves, and the first's token survives. */
  lemma ComputesThen<V>(eng: Engine<V>, env: Env<V>, vars: map<string, byte>, next: nat, first: Code, second: Code,
                        st: Values<V>, v: Result<Typed<V>, SourceError>, w: Result<Typed<V>, SourceError>)
    requires Computes(eng, env, vars, next, first, st, v) && v.Ok?
    requires Computes(eng, env, first.vars, first.next, second, After(eng, first, st), w)
    ensures GoodCode(vars, next, Then(first, second))
    ensures Computes(eng, env, vars, next, Then(first, second), st, w)
    ensures w.Ok? ==>
      var regs := After(eng, Then(first, second), st).regs;
      first.tok in regs && regs[first.tok] == v.value.value
    ensures w.Ok? ==> first.tok in second.vars && Settled(first.tok, second.next)
  {
    GoodThen(vars, next, first, second);
    TokenStays(first.vars, first.next, second, first.tok);
    InterpretAppend(eng, first.stmts, second.stmts, st);
  }

  /** One more call behind code: its value lands in the fresh temporary. */
  lemma ComputesEmit<V>(eng: Engine<V>, env: Env<V>, vars: map<string, byte>, next: nat, c: Code, call: Call, tid: byte,
                        st: Values<V>, mid: Values<V>, v: Result<Typed<V>, SourceError>)
    requires GoodState(vars, next, c) && tid <= 44 && CallOk(call) && Operands(call) <= c.vars.Keys && !CallTakesInput(call)
    requires st.regs.Keys == vars.Keys && mid.regs.Keys == c.vars.Keys
    requires Interpret(eng, c.stmts, st) == Ok(mid) && Agree(env, c.vars, mid.regs) && Frames(next, st, mid)
    requires v == match CallValue(eng, call, mid) case Ok(value) => Ok(Typed(tid, value)) case Err(e) => Err(Failed(e))
    ensures Computes(eng, env, vars, next, EmitTemp(c, call, tid), st, v)
  {
    hide Closed, Interpret, GoodState, Agree, Frames, CallOk, Operands, CallValue, TypesOk, Settled;
    var tmp := TempName(c.next);
    GoodEmit(vars, next, c, call, tid);
    CodeTypes(vars, next, c);
    OneStatement(eng, Let(tmp, call), mid);
    GoodStateNames(vars, next, c);
    InterpretAppend(eng, c.stmts, [Let(tmp, call)], st);
    var r := CallValue(eng, call, mid);
    if r.Ok? {
      FreshRegister(env, c.vars, mid, c.next, tid, r.value, st, next);
      assert StepValues(eng, Let(tmp, call), mid) == Ok(mid.(regs := mid.regs[tmp := r.value]));
    }
  }

  lemma GoodStateNames(vars: map<string, byte>, next: nat, c: Code)
    requires GoodState(vars, next, c)
    ensures Closed(c.stmts, vars.Keys) && c.vars.Keys == vars.Keys + Bound(c.stmts)
  {
  }

  /** A fresh temporary disturbs neither the source variables nor any settled register. */
  lemma FreshRegister<V>(env: Env<V>, vars: map<string, byte>, mid: Values<V>, k: nat, tid: byte, value: V,
                         st: Values<V>, next: nat)
    requires Agree(env, vars, mid.regs) && Frames(next, st, mid) && next <= k
    ensures Agree(env, vars[TempName(k) := tid], mid.regs[TempName(k) := value])
    ensures Frames(next, st, mid.(regs := mid.regs[TempName(k) := value]))
  {
    TempSettles(k);
    assert forall x :: Settled(x, next) ==> x != TempName(k);
  }

  lemma OneStatement<V>(eng: Engine<V>, s: Stmt, st: Values<V>)
    requires StmtOk(s, st.regs.Keys)
    ensures Closed([s], st.regs.Keys) && Interpret(eng, [s], st) == StepValues(eng, s, st)
    ensures Bound([s]) == Binds(s)
  {
    assert [s][1..] == [];
    assert Bound([s]) == Binds(s) + Bound([s][1..]);
  }

  /** A script that fails still fails, the same way, with more statements behind it. */
  lemma FailureStays<V>(eng: Engine<V>, s: seq<Stmt>, t: seq<Stmt>, st: Values<V>)
    requires Closed(s, st.regs.Keys) && Closed(t, st.regs.Keys + Bound(s)) && Interpret(eng, s, st).Err?
    ensures Closed(s + t, st.regs.Keys) && Interpret(eng, s + t, st) == Interpret(eng, s, st)
  {
    InterpretAppend(eng, s, t, st);
  }

  /** Two expressions in a row: the second's outcome, or the first's failure. */
  lemma Sequence<V>(eng: Engine<V>, env: Env<V>, vars: map<string, byte>, next: nat, first: Code, second: Code,
                    st: Values<V>, v: Result<Typed<V>, SourceError>, w: Result<Typed<V>, SourceError>)
    requires Computes(eng, env, vars, next, first, st, v)
    requires v.Ok? ==> Computes(eng, env, first.vars, first.next, second, After(eng, first, st), w)
    requires v.Err? ==> GoodCode(first.vars, first.next, second)
    ensures Computes(eng, env, vars, next, Then(first, second), st, if v.Ok? then w else v)
    ensures first.tok in second.vars
    ensures v.Ok? && w.Ok? ==> After(eng, Then(first, second), st).regs[first.tok] == v.value.value
  {
    GoodThen(vars, next, first, second);
    TokenStays(first.vars, first.next, second, first.tok);
    if v.Ok? {
      ComputesThen(eng, env, vars, next, first, second, st, v, w);
    } else {
      FailureStays(eng, first.stmts, second.stmts, st);
    }
  }

  function CallOutcome<V>(eng: Engine<V>, call: Call, tid: byte, st: Values<V>): Result<Typed<V>, SourceError>
    requires CallOk(call) && Operands(call) <= st.regs.Keys
  {
    match CallValue(eng, call, st) case Ok(value) => Ok(Typed(tid, value)) case Err(e) => Err(Failed(e))
  }

  /** A call on the results of the code before it. */
  lemma ComputesCall<V>(eng: Engine<V>, env: Env<V>, vars: map<string, byte>, next: nat, c: Code, call: Call, tid: byte,
                        st: Values<V>, u: Result<Typed<V>, SourceError>, v: Result<Typed<V>, SourceError>)
    requires Computes(eng, env, vars, next, c, st, u)
    requires tid <= 44 && CallOk(call) && Operands(call) <= c.vars.Keys && !CallTakesInput(call)
    requires u.Ok? ==> After(eng, c, st).regs.Keys == c.vars.Keys && v == CallOutcome(eng, call, tid, After(eng, c, st))
    requires u.Err? ==> v == u
    ensures Computes(eng, env, vars, next, EmitTemp(c, call, tid), st, v)
  {
    if u.Ok? {
      ComputesEmit(eng, env, vars, next, c, call, tid, st, After(eng, c, st), v);
    } else {
      GoodEmit(vars, next, c, call, tid);
      GoodStateNames(vars, next, c);
      assert Closed([Let(TempName(c.next), call)], c.vars.Keys);
      FailureStays(eng, c.stmts, [Let(TempName(c.next), call)], st);
    }
  }

  /** State shared by every case of the main induction: the code before the last call. */
  lemma {:induction false} CompileComputes<V>(eng: Engine<V>, e: Expr, env: Env<V>, vars: map<string, byte>, next: nat, st: Values<V>)
    requires WellFormedExpr(e) && TypesOk(vars) && CompileExpr(e, vars, next).Some?
    requires Agree(env, vars, st.regs)
    ensures Computes(eng, env, vars, next, CompileExpr(e, vars, next).value, st, EvalExpr(eng, e, env))
    decreases e, 1
  {
    hide Computes, GoodCode, Agree, CompileMethod, CompileBranches, CompileRight, EvalMethod, EvalRight,
      BinOpCode, UnOpCode, MethodCode, ArityOf, MaybeScalarOp;
    match e
    case Lit(_) =>
    case Var(name) =>
      VariableComputes(eng, name, env, vars, next, st);
    case Ref(inner) =>
      CompileComputes(eng, inner, env, vars, next, st);
    case Paren(inner) =>
      CompileComputes(eng, inner, env, vars, next, st);
    case MethodCall(receiver, callee, args) =>
      CompileComputes(eng, receiver, env, vars, next, st);
      MethodComputes(eng, env, vars, next, CompileExpr(receiver, vars, next).value, ArityOf(callee),
                     MethodCode(callee).value, args, st, EvalExpr(eng, receiver, env));
    case Binary(op, left, right) =>
      CompileComputes(eng, left, env, vars, next, st);
      OperatorComputes(eng, env, vars, next, CompileExpr(left, vars, next).value, BinOpCode(op), right, st,
                       EvalExpr(eng, left, env));
    case Unary(op, operand) =>
      CompileComputes(eng, operand, env, vars, next, st);
      UnaryComputes(eng, env, vars, next, CompileExpr(operand, vars, next).value, UnOpCode(op), st, EvalExpr(eng, operand, env));
    case If(cond, _, _) =>
      CompileComputes(eng, cond, env, vars, next, st);
      BranchesCompute(eng, env, vars, next, CompileExpr(cond, vars, next).value, e, st, EvalExpr(eng, cond, env));
    case Into(ty, operand) =>
      CompileComputes(eng, operand, env, vars, next + 1, st);
      ConversionComputes(eng, env, vars, next, CompileExpr(operand, vars, next + 1).value, ty, st, EvalExpr(eng, operand, env));
    case _ =>
      ConstructorComputes(eng, e, env, vars, next, st);
  }

  lemma VariableComputes<V>(eng: Engine<V>, name: string, env: Env<V>, vars: map<string, byte>, next: nat, st: Values<V>)
    requires UserName(name) && TypesOk(vars) && name in vars && Agree(env, vars, st.regs)
    ensures Computes(eng, env, vars, next, Code([], name, vars[name], vars, next), st, EvalExpr(eng, Var(name), env))
  {
    UserNameSettled(name, next);
    GoodNothing(vars, next);
  }

  lemma UnaryComputes<V>(eng: Engine<V>, env: Env<V>, vars: map<string, byte>, next: nat, x: Code, op: byte, st: Values<V>,
                         v: Result<Typed<V>, SourceError>)
    requires Computes(eng, env, vars, next, x, st, v)
    ensures Computes(eng, env, vars, next, EmitTemp(x, AddUnaryOp(op, x.tid, x.tok), x.tid), st,
                     if v.Err? then v else UnaryResult(eng, op, v.value.ty, v.value.value))
  {
    if v.Ok? { ComputesState(eng, env, vars, next, x, st, v); }
    ComputesCall(eng, env, vars, next, x, AddUnaryOp(op, x.tid, x.tok), x.tid, st, v,
                 if v.Err? then v else UnaryResult(eng, op, v.value.ty, v.value.value));
  }

  lemma {:induction false} OperatorComputes<V>(eng: Engine<V>, env: Env<V>, vars: map<string, byte>, next: nat, l: Code, op: byte,
                                               right: Expr, st: Values<V>, v: Result<Typed<V>, SourceError>)
    requires WellFormedExpr(right) && Computes(eng, env, vars, next, l, st, v) && CompileRight(l, right).Some?
    ensures var r := CompileRight(l, right).value;
            var w := if v.Err? then v else EvalRight(eng, v.value.ty, right, env);
            Computes(eng, env, vars, next,
                     EmitTemp(Then(l, r), AddBinaryOp(MaybeScalarOp(op, l.tid, r.tid), l.tid, l.tok, r.tok), l.tid), st,
                     if w.Err? then w
                     else BinaryResult(eng, MaybeScalarOp(op, v.value.ty, w.value.ty), v.value.ty, v.value.value, w.value.value))
    decreases right, 3
  {
    hide GoodState, Agree, Frames, CompileRight, EvalRight, MaybeScalarOp, Settled, TypesOk;
    var r := CompileRight(l, right).value;
    CompileRightGood(l, right, vars, next);
    var w := if v.Err? then v else EvalRight(eng, v.value.ty, right, env);
    if v.Ok? {
      ComputesState(eng, env, vars, next, l, st, v);
      RightComputes(eng, env, l, right, After(eng, l, st));
    }
    Sequence(eng, env, vars, next, l, r, st, v, w);
    if w.Ok? { ComputesState(eng, env, vars, next, Then(l, r), st, w); }
    ComputesCall(eng, env, vars, next, Then(l, r), AddBinaryOp(MaybeScalarOp(op, l.tid, r.tid), l.tid, l.tok, r.tok), l.tid, st, w,
                 if w.Err? then w
                 else BinaryResult(eng, MaybeScalarOp(op, v.value.ty, w.value.ty), v.value.ty, v.value.value, w.value.value));
  }

  lemma {:induction false} RightComputes<V>(eng: Engine<V>, env: Env<V>, l: Code, right: Expr, st: Values<V>)
    requires WellFormedExpr(right) && TypesOk(l.vars) && l.tid <= 44 && Agree(env, l.vars, st.regs)
    requires CompileRight(l, right).Some?
    ensures Computes(eng, env, l.vars, l.next, CompileRight(l, right).value, st, EvalRight(eng, l.tid, right, env))
    decreases right, 2
  {
    hide Computes, GoodState, CompileExpr, EvalExpr;
    if IsLiteral(right) {
      var ty := LiteralType(l.tid);
      ConstantComputes(eng, env, l.vars, l.next, AddConstant(ty, right.value), st);
    } else {
      CompileComputes(eng, right, env, l.vars, l.next, st);
    }
  }

  lemma ConstantComputes<V>(eng: Engine<V>, env: Env<V>, vars: map<string, byte>, next: nat, call: Call, st: Values<V>)
    requires TypesOk(vars) && Agree(env, vars, st.regs)
    requires CallOk(call) && (call.AddConstant? || call.AddConstantBytes?)
    ensures Computes(eng, env, vars, next, EmitTemp(NoCode(vars, next), call, call.ty), st,
                     Ok(Typed(call.ty, eng.constant(call.ty, ConstantOf(call)))))
  {
    GoodNothing(vars, next);
    ComputesEmit(eng, env, vars, next, NoCode(vars, next), call, call.ty, st, st,
                 Ok(Typed(call.ty, eng.constant(call.ty, ConstantOf(call)))));
  }

  lemma ConstructorComputes<V>(eng: Engine<V>, e: Expr, env: Env<V>, vars: map<string, byte>, next: nat, st: Values<V>)
    requires IsConstructor(e) && WellFormedExpr(e) && TypesOk(vars) && CompileExpr(e, vars, next).Some?
    requires Agree(env, vars, st.regs)
    ensures Computes(eng, env, vars, next, CompileExpr(e, vars, next).value, st, EvalExpr(eng, e, env))
  {
    hide Computes, GoodState, Agree;
    var call := ConstructorCall(e).value;
    ConstructorGood(e, call);
    ConstantComputes(eng, env, vars, next, call, st);
  }

  lemma ConversionComputes<V>(eng: Engine<V>, env: Env<V>, vars: map<string, byte>, next: nat, x: Code, ty: byte, st: Values<V>,
                              v: Result<Typed<V>, SourceError>)
    requires ty <= 44 && Computes(eng, env, vars, next + 1, x, st, v)
    ensures Computes(eng, env, vars, next,
                     Code(x.stmts + [Let(TempName(next), AddUnaryOp(INTO, ty, x.tok))], TempName(next), ty,
                          x.vars[TempName(next) := ty], x.next), st,
                     if v.Err? then v else UnaryResult(eng, INTO, ty, v.value.value))
  {
    hide Closed, Interpret, GoodState, Agree, Frames, TypesOk, Settled;
    var tmp := TempName(next);
    var s := Let(tmp, AddUnaryOp(INTO, ty, x.tok));
    GoodConversion(vars, next, x, ty);
    GoodStateNames(vars, next + 1, x);
    ClosedOne(s, x.vars.Keys);
    InterpretAppend(eng, x.stmts, [s], st);
    if v.Ok? {
      var mid := After(eng, x, st);
      ComputesState(eng, env, vars, next + 1, x, st, v);
      OneStatement(eng, s, mid);
      var r := eng.unary(INTO, v.value.value, ty);
      if r.Ok? {
        EarlierFrames(next, st, mid);
        FreshRegister(env, x.vars, mid, next, ty, r.value, st, next);
        assert StepValues(eng, s, mid) == Ok(mid.(regs := mid.regs[tmp := r.value]));
      }
    }
  }

  lemma ClosedOne(s: Stmt, names: set<string>)
    requires StmtOk(s, names)
    ensures Closed([s], names)
  {
    assert [s][1..] == [];
  }

  lemma EarlierFrames<V>(next: nat, st: Values<V>, st': Values<V>)
    requires Frames(next + 1, st, st')
    ensures Frames(next, st, st')
  {
    assert forall x :: Settled(x, next) ==> Settled(x, next + 1);
  }

  lemma {:induction false} BranchesCompute<V>(eng: Engine<V>, env: Env<V>, vars: map<string, byte>, next: nat, c: Code, e: Expr,
                                              st: Values<V>, v: Result<Typed<V>, SourceError>)
    requires e.If? && WellFormedExpr(e) && Computes(eng, env, vars, next, c, st, v) && CompileBranches(c, e).Some?
    requires v == EvalExpr(eng, e.cond, env)
    ensures Computes(eng, env, vars, next, CompileBranches(c, e).value, st, EvalExpr(eng, e, env))
    decreases e, 0
  {
    hide GoodState, Agree, Frames, CompileExpr, Settled, TypesOk;
    CodeTypes(vars, next, c);
    CompileGood(e.thn, c.vars, c.next);
    var t := CompileExpr(e.thn, c.vars, c.next).value;
    CodeTypes(c.vars, c.next, t);
    CompileGood(e.els.value, t.vars, t.next);
    var f := CompileExpr(e.els.value, t.vars, t.next).value;
    var vt, vf := EvalExpr(eng, e.thn, env), EvalExpr(eng, e.els.value, env);
    TokensInOrder(c.vars, c.next, t, f);
    if v.Ok? {
      ComputesState(eng, env, vars, next, c, st, v);
      var mid := After(eng, c, st);
      CompileComputes(eng, e.thn, env, c.vars, c.next, mid);
      if vt.Ok? {
        ComputesState(eng, env, c.vars, c.next, t, mid, vt);
        CompileComputes(eng, e.els.value, env, t.vars, t.next, After(eng, t, mid));
      }
      Sequence(eng, env, c.vars, c.next, t, f, mid, vt, vf);
      if vt.Ok? && vf.Ok? { ComputesState(eng, env, c.vars, c.next, Then(t, f), mid, vf); }
    }
    TernaryComputes(eng, env, vars, next, c, t, f, SELECT, t.tid, st, v, vt, vf);
  }

  /** All three operands' registers survive to the call. */
  lemma TernaryOperands<V>(eng: Engine<V>, env: Env<V>, vars: map<string, byte>, next: nat, c: Code, t: Code, f: Code,
                           st: Values<V>, v: Result<Typed<V>, SourceError>, both: Result<Typed<V>, SourceError>,
                           vt: Result<Typed<V>, SourceError>, vf: Result<Typed<V>, SourceError>)
    requires Computes(eng, env, vars, next, c, st, v)
    requires GoodCode(c.vars, c.next, t) && GoodCode(t.vars, t.next, f) && GoodCode(c.vars, c.next, Then(t, f))
    requires both == if vt.Ok? then vf else vt
    requires v.Ok? ==> Computes(eng, env, c.vars, c.next, Then(t, f), After(eng, c, st), both)
    requires v.Ok? && vt.Ok? && vf.Ok? ==>
      var regs := After(eng, Then(t, f), After(eng, c, st)).regs;
      t.tok in regs && regs[t.tok] == vt.value.value
    ensures Computes(eng, env, vars, next, Then(c, Then(t, f)), st, if v.Ok? then both else v)
    ensures {c.tok, t.tok, f.tok} <= f.vars.Keys
    ensures v.Ok? && vt.Ok? && vf.Ok? ==>
      var regs := After(eng, Then(c, Then(t, f)), st).regs;
      && {c.tok, t.tok, f.tok} <= regs.Keys
      && regs[c.tok] == v.value.value && regs[t.tok] == vt.value.value && regs[f.tok] == vf.value.value
  {
    hide GoodState, Agree, Frames, Settled, TypesOk, Closed, Interpret;
    Sequence(eng, env, vars, next, c, Then(t, f), st, v, both);
    TokenStays(t.vars, t.next, f, t.tok);
    TokenStays(c.vars, c.next, Then(t, f), c.tok);
    if v.Ok? {
      ComputesState(eng, env, vars, next, c, st, v);
      if both.Ok? {
        ComputesState(eng, env, c.vars, c.next, Then(t, f), After(eng, c, st), both);
      }
      GoodStateNames(vars, next, c);
      GoodStateNames(c.vars, c.next, Then(t, f));
      InterpretAppend(eng, c.stmts, Then(t, f).stmts, st);
    }
  }

  /** Three operands and the call on them. */
  lemma TernaryComputes<V>(eng: Engine<V>, env: Env<V>, vars: map<string, byte>, next: nat, c: Code, t: Code, f: Code,
                           op: byte, tid: byte, st: Values<V>, v: Result<Typed<V>, SourceError>,
                           vt: Result<Typed<V>, SourceError>, vf: Result<Typed<V>, SourceError>)
    requires Computes(eng, env, vars, next, c, st, v) && tid <= 44
    requires GoodCode(c.vars, c.next, t) && GoodCode(t.vars, t.next, f) && GoodCode(c.vars, c.next, Then(t, f))
    requires v.Ok? ==> Computes(eng, env, c.vars, c.next, Then(t, f), After(eng, c, st), if vt.Ok? then vf else vt)
    requires v.Ok? && vt.Ok? && vf.Ok? ==>
      var regs := After(eng, Then(t, f), After(eng, c, st)).regs;
      t.tok in regs && regs[t.tok] == vt.value.value
    ensures Computes(eng, env, vars, next, EmitTemp(Then(c, Then(t, f)), AddTernaryOp(op, tid, c.tok, t.tok, f.tok), tid), st,
                     if v.Err? then v else if vt.Err? then vt else if vf.Err? then vf
                     else TernaryValue(eng, op, tid, v.value.value, vt.value.value, vf.value.value))
  {
    hide GoodState, Agree, Settled, TypesOk;
    var both := if vt.Ok? then vf else vt;
    var u := if v.Ok? then both else v;
    TokenStays(t.vars, t.next, f, t.tok);
    TernaryOperands(eng, env, vars, next, c, t, f, st, v, both, vt, vf);
    if u.Ok? { ComputesState(eng, env, vars, next, Then(c, Then(t, f)), st, u); }
    ComputesCall(eng, env, vars, next, Then(c, Then(t, f)), AddTernaryOp(op, tid, c.tok, t.tok, f.tok), tid, st, u,
                 if v.Err? then v else if vt.Err? then vt else if vf.Err? then vf
                 else TernaryValue(eng, op, tid, v.value.value, vt.value.value, vf.value.value));
  }

  lemma BooleanComputes<V>(eng: Engine<V>, env: Env<V>, vars: map<string, byte>, next: nat, x: Code, op: byte, st: Values<V>,
                           v: Result<Typed<V>, SourceError>)
    requires Computes(eng, env, vars, next, x, st, v)
    ensures Computes(eng, env, vars, next, EmitTemp(x, AddUnaryOp(op, E_BOOL, x.tok), E_BOOL), st,
                     if v.Err? then v else UnaryResult(eng, op, E_BOOL, v.value.value))
  {
    if v.Ok? { ComputesState(eng, env, vars, next, x, st, v); }
    ComputesCall(eng, env, vars, next, x, AddUnaryOp(op, E_BOOL, x.tok), E_BOOL, st, v,
                 if v.Err? then v else UnaryResult(eng, op, E_BOOL, v.value.value));
  }

  /** The outcome of a method given the outcome of its receiver. */
  function MethodOutcome<V>(eng: Engine<V>, arity: Arity, op: byte, recv: Result<Typed<V>, SourceError>, args: seq<Expr>,
                            env: Env<V>): Result<Typed<V>, SourceError>
  {
    if recv.Err? then recv else EvalMethod(eng, arity, op, recv.value, args, env)
  }

  lemma {:induction false} MethodComputes<V>(eng: Engine<V>, env: Env<V>, vars: map<string, byte>, next: nat, recv: Code, arity: Arity,
                                             op: byte, args: seq<Expr>, st: Values<V>, v: Result<Typed<V>, SourceError>)
    requires (forall a <- args :: WellFormedExpr(a)) && Computes(eng, env, vars, next, recv, st, v)
    requires CompileMethod(recv, arity, op, args).Some?
    ensures Computes(eng, env, vars, next, CompileMethod(recv, arity, op, args).value, st,
                     MethodOutcome(eng, arity, op, v, args, env))
    decreases args, 1
  {
    hide Computes, CompileExpr, EvalExpr, MaybeScalarOp;
    if arity == UnarySame || (arity == General && args == []) {
      UnaryComputes(eng, env, vars, next, recv, op, st, v);
    } else if arity == UnaryBool {
      BooleanComputes(eng, env, vars, next, recv, op, st, v);
    } else if arity == General {
      ArgumentComputes(eng, env, vars, next, recv, op, args[0], st, v);
    } else {
      TwoArgumentsCompute(eng, env, vars, next, recv, arity, op, args, st, v);
    }
  }

  lemma {:induction false} ArgumentComputes<V>(eng: Engine<V>, env: Env<V>, vars: map<string, byte>, next: nat, recv: Code, op: byte,
                                               arg: Expr, st: Values<V>, v: Result<Typed<V>, SourceError>)
    requires WellFormedExpr(arg) && Computes(eng, env, vars, next, recv, st, v)
    requires CompileExpr(arg, recv.vars, recv.next).Some?
    ensures var x := CompileExpr(arg, recv.vars, recv.next).value;
            var w := if v.Err? then v else EvalExpr(eng, arg, env);
            Computes(eng, env, vars, next,
                     EmitTemp(Then(recv, x), AddBinaryOp(MaybeScalarOp(op, recv.tid, x.tid), recv.tid, recv.tok, x.tok), recv.tid), st,
                     if w.Err? then w
                     else BinaryResult(eng, MaybeScalarOp(op, v.value.ty, w.value.ty), v.value.ty, v.value.value, w.value.value))
    decreases arg, 2
  {
    hide GoodState, Agree, Frames, CompileExpr, EvalExpr, MaybeScalarOp, Settled, TypesOk;
    var x := CompileExpr(arg, recv.vars, recv.next).value;
    CodeTypes(vars, next, recv);
    CompileGood(arg, recv.vars, recv.next);
    var w := if v.Err? then v else EvalExpr(eng, arg, env);
    if v.Ok? {
      ComputesState(eng, env, vars, next, recv, st, v);
      CompileComputes(eng, arg, env, recv.vars, recv.next, After(eng, recv, st));
    }
    Sequence(eng, env, vars, next, recv, x, st, v, w);
    if w.Ok? { ComputesState(eng, env, vars, next, Then(recv, x), st, w); }
    ComputesCall(eng, env, vars, next, Then(recv, x),
                 AddBinaryOp(MaybeScalarOp(op, recv.tid, x.tid), recv.tid, recv.tok, x.tok), recv.tid, st, w,
                 if w.Err? then w
                 else BinaryResult(eng, MaybeScalarOp(op, v.value.ty, w.value.ty), v.value.ty, v.value.value, w.value.value));
  }

  lemma {:induction false} TwoArgumentsCompute<V>(eng: Engine<V>, env: Env<V>, vars: map<string, byte>, next: nat, recv: Code, arity: Arity,
                                                  op: byte, args: seq<Expr>, st: Values<V>, v: Result<Typed<V>, SourceError>)
    requires (forall a <- args :: WellFormedExpr(a)) && Computes(eng, env, vars, next, recv, st, v)
    requires (arity == TernaryOfFirst || arity == TernaryOfReceiver) && CompileMethod(recv, arity, op, args).Some?
    ensures Computes(eng, env, vars, next, CompileMethod(recv, arity, op, args).value, st,
                     MethodOutcome(eng, arity, op, v, args, env))
    decreases args, 0
  {
    hide GoodState, Agree, Frames, CompileExpr, EvalExpr, Settled, TypesOk;
    CodeTypes(vars, next, recv);
    CompileGood(args[0], recv.vars, recv.next);
    var a := CompileExpr(args[0], recv.vars, recv.next).value;
    CodeTypes(recv.vars, recv.next, a);
    CompileGood(args[1], a.vars, a.next);
    var b := CompileExpr(args[1], a.vars, a.next).value;
    var va, vb := EvalExpr(eng, args[0], env), EvalExpr(eng, args[1], env);
    GoodThen(recv.vars, recv.next, a, b);
    TokensInOrder(recv.vars, recv.next, a, b);
    var tid := if arity == TernaryOfFirst then a.tid else recv.tid;
    if v.Ok? {
      ComputesState(eng, env, vars, next, recv, st, v);
      var mid := After(eng, recv, st);
      CompileComputes(eng, args[0], env, recv.vars, recv.next, mid);
      if va.Ok? {
        ComputesState(eng, env, recv.vars, recv.next, a, mid, va);
        CompileComputes(eng, args[1], env, a.vars, a.next, After(eng, a, mid));
      }
      Sequence(eng, env, recv.vars, recv.next, a, b, mid, va, vb);
      if va.Ok? && vb.Ok? { ComputesState(eng, env, recv.vars, recv.next, Then(a, b), mid, vb); }
    }
    TernaryComputes(eng, env, vars, next, recv, a, b, op, tid, st, v, va, vb);
  }

  lemma TokensInOrder(vars: map<string, byte>, next: nat, a: Code, b: Code)
    requires GoodCode(vars, next, a) && GoodCode(a.vars, a.next, b)
    ensures GoodCode(vars, next, Then(a, b))
  {
    GoodThen(vars, next, a, b);
    TokenStays(a.vars, a.next, b, a.tok);
  }

  // ---- whole functions ----

  /** What emitting outputs computes: the outputs' values appended, or the first failure. */
  ghost predicate ComputesOutputs<V>(eng: Engine<V>, env: Env<V>, vars: map<string, byte>, next: nat, c: Code, st: Values<V>,
                                     v: Result<seq<V>, SourceError>)
  {
    && GoodState(vars, next, c) && st.regs.Keys == vars.Keys
    && var r := Interpret(eng, c.stmts, st);
    if v.Ok? then
      && r.Ok? && Agree(env, c.vars, r.value.regs) && r.value.inputs == st.inputs && r.value.outs == st.outs + v.value
    else v.error.Failed? && r == Err(v.error.error)
  }

  /** An expression and its output statement. */
  lemma OutputComputes<V>(eng: Engine<V>, env: Env<V>, vars: map<string, byte>, next: nat, x: Code, st: Values<V>,
                          v: Result<Typed<V>, SourceError>)
    requires Computes(eng, env, vars, next, x, st, v)
    ensures ComputesOutputs(eng, env, vars, next, x.(stmts := x.stmts + [Output(x.tid, x.tok)]), st,
                            if v.Err? then Err(v.error) else Ok([v.value.value]))
  {
    hide Interpret, Settled;
    var s := Output(x.tid, x.tok);
    GoodStateNames(vars, next, x);
    ClosedOne(s, x.vars.Keys);
    ClosedAppend(x.stmts, [s], vars.Keys);
    assert Bound([s]) == {} by { assert [s][1..] == []; }
    InterpretAppend(eng, x.stmts, [s], st);
    if v.Ok? {
      OneStatement(eng, s, After(eng, x, st));
    }
  }

  lemma OutputsThen<V>(eng: Engine<V>, env: Env<V>, vars: map<string, byte>, next: nat, first: Code, second: Code,
                       st: Values<V>, v: Result<seq<V>, SourceError>, w: Result<seq<V>, SourceError>)
    requires ComputesOutputs(eng, env, vars, next, first, st, v)
    requires v.Ok? ==> ComputesOutputs(eng, env, first.vars, first.next, second, After(eng, first, st), w)
    requires v.Err? ==> GoodState(first.vars, first.next, second)
    ensures ComputesOutputs(eng, env, vars, next, Then(first, second), st,
                            if v.Err? then v else if w.Err? then w else Ok(v.value + w.value))
  {
    hide Interpret, Settled;
    GoodThen(vars, next, first, second);
    GoodStateNames(vars, next, first);
    GoodStateNames(first.vars, first.next, second);
    InterpretAppend(eng, first.stmts, second.stmts, st);
    if v.Ok? && w.Ok? {
      assert st.outs + v.value + w.value == st.outs + (v.value + w.value);
    }
  }

  lemma {:induction false} OutputsGood(outputs: seq<Expr>, vars: map<string, byte>, next: nat)
    requires (forall e <- outputs :: WellFormedExpr(e)) && TypesOk(vars) && CompileOutputs(outputs, vars, next).Some?
    ensures GoodState(vars, next, CompileOutputs(outputs, vars, next).value)
  {
    if outputs == [] {
      GoodNothing(vars, next);
    } else {
      hide GoodState, CompileExpr;
      CompileGood(outputs[0], vars, next);
      var x := CompileExpr(outputs[0], vars, next).value;
      CodeTypes(vars, next, x);
      OutputsGood(outputs[1..], x.vars, x.next);
      var rest := CompileOutputs(outputs[1..], x.vars, x.next).value;
      OutputGood(vars, next, x);
      GoodThen(vars, next, x.(stmts := x.stmts + [Output(x.tid, x.tok)]), rest);
    }
  }

  lemma OutputGood(vars: map<string, byte>, next: nat, x: Code)
    requires GoodCode(vars, next, x)
    ensures GoodState(vars, next, x.(stmts := x.stmts + [Output(x.tid, x.tok)]))
  {
    var s := Output(x.tid, x.tok);
    ClosedOne(s, x.vars.Keys);
    ClosedAppend(x.stmts, [s], vars.Keys);
    assert Bound([s]) == {} by { assert [s][1..] == []; }
  }

  lemma {:induction false} OutputsCompute<V>(eng: Engine<V>, outputs: seq<Expr>, env: Env<V>, vars: map<string, byte>, next: nat,
                                             st: Values<V>)
    requires (forall e <- outputs :: WellFormedExpr(e)) && TypesOk(vars) && CompileOutputs(outputs, vars, next).Some?
    requires Agree(env, vars, st.regs)
    ensures ComputesOutputs(eng, env, vars, next, CompileOutputs(outputs, vars, next).value, st, EvalOutputs(eng, outputs, env))
    decreases |outputs|
  {
    if outputs == [] {
      GoodNothing(vars, next);
      assert st.outs + [] == st.outs;
    } else {
      hide GoodState, CompileExpr, EvalExpr, Agree, Interpret, Closed;
      CompileComputes(eng, outputs[0], env, vars, next, st);
      var x, v := CompileExpr(outputs[0], vars, next).value, EvalExpr(eng, outputs[0], env);
      OutputComputes(eng, env, vars, next, x, st, v);
      var first := x.(stmts := x.stmts + [Output(x.tid, x.tok)]);
      var one := if v.Err? then Err(v.error) else Ok([v.value.value]);
      CodeTypes(vars, next, x);
      OutputsGood(outputs[1..], x.vars, x.next);
      var rest := CompileOutputs(outputs[1..], x.vars, x.next).value;
      GoodStateNames(vars, next, first);
      if v.Ok? {
        OutputsCompute(eng, outputs[1..], env, x.vars, x.next, After(eng, first, st));
      }
      OutputsThen(eng, env, vars, next, first, rest, st, one, EvalOutputs(eng, outputs[1..], env));
    }
  }

  /** A body's script: closed, input-free, and computing the body's outputs. */
  ghost predicate ComputesBody<V>(eng: Engine<V>, names: set<string>, script: seq<Stmt>, st: Values<V>,
                                  v: Result<seq<V>, SourceError>)
  {
    && st.regs.Keys == names && Closed(script, names) && NoInputs(script)
    && var r := Interpret(eng, script, st);
    if v.Ok? then r.Ok? && r.value.outs == st.outs + v.value else v.error.Failed? && r == Err(v.error.error)
  }

  lemma {:induction false} BodyGood(body: seq<BodyStmt>, vars: map<string, byte>, next: nat)
    requires (forall s <- body :: WellFormedStmt(s)) && TypesOk(vars) && CompileBody(body, vars, next).Some?
    ensures Closed(CompileBody(body, vars, next).value, vars.Keys) && NoInputs(CompileBody(body, vars, next).value)
    decreases |body|
  {
    if body != [] {
      hide GoodState, CompileExpr, CompileOutputs;
      assert WellFormedStmt(body[0]) by { assert body[0] in body; }
      match body[0]
      case LetStmt(name, init) =>
        if init.None? {
          BodyGood(body[1..], vars, next);
        } else {
          CompileGood(init.value, vars, next);
          var x := CompileExpr(init.value, vars, next).value;
          LetGood(vars, next, x, name);
          BodyGood(body[1..], x.vars[name := x.tid], x.next);
          ClosedAppend(x.stmts + [Alias(name, x.tok)], CompileBody(body[1..], x.vars[name := x.tid], x.next).value, vars.Keys);
        }
      case Emit(outputs) =>
        OutputsGood(outputs, vars, next);
        var x := CompileOutputs(outputs, vars, next).value;
        CodeTypes(vars, next, x);
        GoodStateNames(vars, next, x);
        NoInputsIn(vars, next, x);
        BodyGood(body[1..], x.vars, x.next);
        ClosedAppend(x.stmts, CompileBody(body[1..], x.vars, x.next).value, vars.Keys);
    }
  }

  lemma NoInputsIn(vars: map<string, byte>, next: nat, c: Code)
    requires GoodState(vars, next, c)
    ensures NoInputs(c.stmts)
  {
  }

  lemma LetGood(vars: map<string, byte>, next: nat, x: Code, name: string)
    requires GoodCode(vars, next, x)
    ensures Closed(x.stmts + [Alias(name, x.tok)], vars.Keys) && NoInputs(x.stmts + [Alias(name, x.tok)])
    ensures vars.Keys + Bound(x.stmts + [Alias(name, x.tok)]) == x.vars[name := x.tid].Keys
    ensures TypesOk(x.vars[name := x.tid])
  {
    var s := Alias(name, x.tok);
    ClosedOne(s, x.vars.Keys);
    ClosedAppend(x.stmts, [s], vars.Keys);
    assert Bound([s]) == {name} by { assert [s][1..] == []; }
  }

  /** Aliasing a name to a register that holds a value binds the name to that value. */
  lemma AliasBinds<V>(env: Env<V>, vars: map<string, byte>, regs: map<string, V>, name: string, tok: string, v: Typed<V>)
    requires Agree(env, vars, regs) && UserName(name) && tok in regs && regs[tok] == v.value
    ensures Agree(env[name := v], vars[name := v.ty], regs[name := regs[tok]])
  {
    hide UserName;
  }

  /** A let binds, and possibly shadows, its name to the expression's value. */
  lemma LetComputes<V>(eng: Engine<V>, env: Env<V>, vars: map<string, byte>, next: nat, x: Code, name: string, st: Values<V>,
                       v: Result<Typed<V>, SourceError>)
    requires Computes(eng, env, vars, next, x, st, v) && UserName(name)
    ensures Closed(x.stmts + [Alias(name, x.tok)], st.regs.Keys)
    ensures var r := Interpret(eng, x.stmts + [Alias(name, x.tok)], st);
            && (v.Ok? ==>
              && r.Ok? && Agree(env[name := v.value], x.vars[name := x.tid], r.value.regs)
              && r.value.inputs == st.inputs && r.value.outs == st.outs)
            && (v.Err? ==> v.error.Failed? && r == Err(v.error.error))
  {
    hide Interpret, Settled, Closed, Agree, TypesOk, NoInputs, UserName;
    var s := Alias(name, x.tok);
    GoodStateNames(vars, next, x);
    ClosedOne(s, x.vars.Keys);
    InterpretAppend(eng, x.stmts, [s], st);
    if v.Ok? {
      ComputesState(eng, env, vars, next, x, st, v);
      OneStatement(eng, s, After(eng, x, st));
      AliasBinds(env, x.vars, After(eng, x, st).regs, name, x.tok, v.value);
    }
  }

  lemma BodyThen<V>(eng: Engine<V>, s: seq<Stmt>, t: seq<Stmt>, st: Values<V>, emitted: Result<seq<V>, SourceError>,
                    w: Result<seq<V>, SourceError>)
    requires ComputesBody(eng, st.regs.Keys, s, st, emitted) && NoInputs(t) && Closed(t, st.regs.Keys + Bound(s))
    requires emitted.Ok? ==>
      var mid := Interpret(eng, s, st).value;
      ComputesBody(eng, mid.regs.Keys, t, mid, w)
    ensures ComputesBody(eng, st.regs.Keys, s + t, st,
                         if emitted.Err? then emitted else if w.Err? then w else Ok(emitted.value + w.value))
  {
    hide Interpret, Closed, Bound;
    InterpretAppend(eng, s, t, st);
    if emitted.Ok? && w.Ok? {
      assert st.outs + emitted.value + w.value == st.outs + (emitted.value + w.value);
    }
  }

  lemma {:induction false} BodyComputes<V>(eng: Engine<V>, body: seq<BodyStmt>, env: Env<V>, vars: map<string, byte>, next: nat,
                                           st: Values<V>)
    requires (forall s <- body :: WellFormedStmt(s)) && TypesOk(vars) && CompileBody(body, vars, next).Some?
    requires Agree(env, vars, st.regs)
    ensures ComputesBody(eng, vars.Keys, CompileBody(body, vars, next).value, st, EvalBody(eng, body, env))
    decreases |body|
  {
    BodyGood(body, vars, next);
    if body == [] {
      assert st.outs + [] == st.outs;
    } else {
      hide GoodState, CompileExpr, CompileOutputs, EvalExpr, EvalOutputs, Closed, Interpret, ComputesBody, Agree;
      assert WellFormedStmt(body[0]) by { assert body[0] in body; }
      match body[0]
      case LetStmt(name, init) =>
        if init.None? {
          BodyComputes(eng, body[1..], env, vars, next, st);
        } else {
          LetBodyComputes(eng, name, init.value, body[1..], env, vars, next, st);
        }
      case Emit(outputs) =>
        EmitBodyComputes(eng, outputs, body[1..], env, vars, next, st);
    }
  }

  lemma {:induction false} LetBodyComputes<V>(eng: Engine<V>, name: string, init: Expr, rest: seq<BodyStmt>, env: Env<V>,
                                              vars: map<string, byte>, next: nat, st: Values<V>)
    requires UserName(name) && WellFormedExpr(init) && (forall s <- rest :: WellFormedStmt(s)) && TypesOk(vars)
    requires CompileExpr(init, vars, next).Some?
    requires var x := CompileExpr(init, vars, next).value; CompileBody(rest, x.vars[name := x.tid], x.next).Some?
    requires Agree(env, vars, st.regs)
    ensures var x := CompileExpr(init, vars, next).value;
            var v := EvalExpr(eng, init, env);
            ComputesBody(eng, vars.Keys, x.stmts + [Alias(name, x.tok)] + CompileBody(rest, x.vars[name := x.tid], x.next).value, st,
                         if v.Err? then Err(v.error) else EvalBody(eng, rest, env[name := v.value]))
    decreases |rest| + 1, 0
  {
    hide GoodState, CompileExpr, CompileBody, EvalExpr, EvalBody, Closed, Interpret;
    var x, v := CompileExpr(init, vars, next).value, EvalExpr(eng, init, env);
    CompileGood(init, vars, next);
    LetGood(vars, next, x, name);
    CompileComputes(eng, init, env, vars, next, st);
    LetComputes(eng, env, vars, next, x, name, st, v);
    var s, t := x.stmts + [Alias(name, x.tok)], CompileBody(rest, x.vars[name := x.tid], x.next).value;
    BodyGood(rest, x.vars[name := x.tid], x.next);
    var r := Interpret(eng, s, st);
    if v.Ok? {
      BodyComputes(eng, rest, env[name := v.value], x.vars[name := x.tid], x.next, r.value);
      assert st.outs + [] == st.outs;
    }
    var emitted: Result<seq<V>, SourceError> := if v.Err? then Err(v.error) else Ok([]);
    var w := if v.Err? then Err(v.error) else EvalBody(eng, rest, env[name := v.value]);
    BodyThen(eng, s, t, st, emitted, w);
    if w.Ok? { assert [] + w.value == w.value; }
  }

  lemma {:induction false} EmitBodyComputes<V>(eng: Engine<V>, outputs: seq<Expr>, rest: seq<BodyStmt>, env: Env<V>,
                                               vars: map<string, byte>, next: nat, st: Values<V>)
    requires (forall e <- outputs :: WellFormedExpr(e)) && (forall s <- rest :: WellFormedStmt(s)) && TypesOk(vars)
    requires CompileOutputs(outputs, vars, next).Some?
    requires var x := CompileOutputs(outputs, vars, next).value; CompileBody(rest, x.vars, x.next).Some?
    requires Agree(env, vars, st.regs)
    ensures var x := CompileOutputs(outputs, vars, next).value;
            var v, w := EvalOutputs(eng, outputs, env), EvalBody(eng, rest, env);
            ComputesBody(eng, vars.Keys, x.stmts + CompileBody(rest, x.vars, x.next).value, st,
                         if v.Err? then v else if w.Err? then w else Ok(v.value + w.value))
    decreases |rest| + 1, 0
  {
    hide GoodState, CompileOutputs, CompileBody, EvalOutputs, EvalBody, Closed, Interpret;
    var x := CompileOutputs(outputs, vars, next).value;
    var v, w := EvalOutputs(eng, outputs, env), EvalBody(eng, rest, env);
    OutputsGood(outputs, vars, next);
    OutputsCompute(eng, outputs, env, vars, next, st);
    CodeTypes(vars, next, x);
    GoodStateNames(vars, next, x);
    NoInputsIn(vars, next, x);
    BodyGood(rest, x.vars, x.next);
    if v.Ok? {
      BodyComputes(eng, rest, env, x.vars, x.next, Interpret(eng, x.stmts, st).value);
    }
    BodyThen(eng, x.stmts, CompileBody(rest, x.vars, x.next).value, st, v, w);
  }

  /** Parameters become inputs, consumed in order. */
  lemma {:induction false} ParamsCompute<V>(eng: Engine<V>, params: seq<Param>, env: Env<V>, vars: map<string, byte>, st: Values<V>)
    requires (forall p <- params :: UserName(p.name) && p.ty <= 44) && TypesOk(vars)
    requires Agree(env, vars, st.regs) && |st.inputs| == |params|
    ensures Closed(ParamStmts(params), vars.Keys) && TypesOk(ParamVars(params, vars))
    ensures var r := Interpret(eng, ParamStmts(params), st);
            && r.Ok? && Agree(BindParams(params, st.inputs, env), ParamVars(params, vars), r.value.regs)
            && r.value.inputs == [] && r.value.outs == st.outs
    ensures vars.Keys + Bound(ParamStmts(params)) == ParamVars(params, vars).Keys
    decreases |params|
  {
    if params != [] {
      var p := params[0];
      assert p in params;
      var s := ParamStmt(p);
      assert ParamStmts(params)[1..] == ParamStmts(params[1..]);
      var next := StepValues(eng, s, st).value;
      ParamsCompute(eng, params[1..], env[p.name := Typed(p.ty, st.inputs[0])], vars[p.name := p.ty], next);
    }
  }

  /** An accepted program's meaning, as an evaluation result. */
  function AsResult<V>(r: Result<seq<V>, SourceError>): Result<seq<V>, EvalError>
    requires r.Err? ==> r.error.Failed?
  {
    match r case Ok(vals) => Ok(vals) case Err(e) => Err(e.error)
  }

  /** The compiler preserves meaning: for every well-formed function it accepts, every engine and
      every choice of inputs, the script it emits computes what the function says. */
  lemma CompilerPreservesMeaning<V>(eng: Engine<V>, f: Function, inputs: seq<V>)
    requires WellFormedFunction(f) && CompileFunction(f).Some? && |inputs| == |f.params|
    ensures Closed(CompileFunction(f).value, {})
    ensures EvalFunction(eng, f, inputs) != Err(Rejected)
    ensures Meaning(eng, CompileFunction(f).value, inputs) == AsResult(EvalFunction(eng, f, inputs))
  {
    hide CompileBody, EvalBody, Interpret, Closed, ComputesBody;
    var start := InitialValues(inputs);
    var env: Env<V> := map[];
    var vars := ParamVars(f.params, map[]);
    assert Agree(env, map[], start.regs) && start.regs.Keys == {};
    ParamsCompute(eng, f.params, env, map[], start);
    var mid := Interpret(eng, ParamStmts(f.params), start).value;
    BodyComputes(eng, f.body, BindParams(f.params, inputs, env), vars, 0, mid);
    BodyMeaning(eng, f, inputs, start, mid);
  }

  lemma BodyMeaning<V>(eng: Engine<V>, f: Function, inputs: seq<V>, start: Values<V>, mid: Values<V>)
    requires CompileFunction(f).Some? && |inputs| == |f.params| && start == InitialValues(inputs)
    requires start.regs.Keys == {} && Closed(ParamStmts(f.params), start.regs.Keys)
    requires Interpret(eng, ParamStmts(f.params), start) == Ok(mid) && mid.outs == []
    requires ComputesBody(eng, ParamVars(f.params, map[]).Keys, CompileBody(f.body, ParamVars(f.params, map[]), 0).value, mid,
                          EvalFunction(eng, f, inputs))
    requires start.regs.Keys + Bound(ParamStmts(f.params)) == ParamVars(f.params, map[]).Keys
    ensures Closed(CompileFunction(f).value, {})
    ensures EvalFunction(eng, f, inputs) != Err(Rejected)
    ensures Meaning(eng, CompileFunction(f).value, inputs) == AsResult(EvalFunction(eng, f, inputs))
  {
    hide CompileBody, EvalFunction, ParamStmts, ParamVars;
    InterpretAppend(eng, ParamStmts(f.params), CompileBody(f.body, ParamVars(f.params, map[]), 0).value, start);
    var v := EvalFunction(eng, f, inputs);
    if v.Ok? {
      assert mid.outs + v.value == v.value;
    }
  }

  // ---- compiled graphs ----

  function CompiledGraph(f: Function): Graph
    requires CompileFunction(f).Some? && Closed(CompileFunction(f).value, {})
  {
    GraphOf(CompileFunction(f).value, true)
  }

  function OutputCount(body: seq<BodyStmt>): nat {
    if body == [] then 0 else (if body[0].Emit? then |body[0].outputs| else 0) + OutputCount(body[1..])
  }

  lemma {:induction false} OutputsLength<V>(eng: Engine<V>, outputs: seq<Expr>, env: Env<V>)
    requires EvalOutputs(eng, outputs, env).Ok?
    ensures |EvalOutputs(eng, outputs, env).value| == |outputs|
  {
    if outputs != [] {
      OutputsLength(eng, outputs[1..], env);
    }
  }

  lemma {:induction false} BodyLength<V>(eng: Engine<V>, body: seq<BodyStmt>, env: Env<V>)
    requires EvalBody(eng, body, env).Ok?
    ensures |EvalBody(eng, body, env).value| == OutputCount(body)
    decreases |body|
  {
    hide EvalExpr, EvalOutputs;
    if body != [] {
      match body[0]
      case LetStmt(name, init) =>
        if init.None? {
          BodyLength(eng, body[1..], env);
        } else {
          BodyLength(eng, body[1..], env[name := EvalExpr(eng, init.value, env).value]);
        }
      case Emit(outputs) =>
        OutputsLength(eng, outputs, env);
        BodyLength(eng, body[1..], env);
    }
  }

  function InputCalls(script: seq<Stmt>): nat {
    if script == [] then 0
    else (if script[0].Let? && CallTakesInput(script[0].call) then 1 else 0) + InputCalls(script[1..])
  }

  /** A graph takes one input per input call of its script, and at most as many encrypted ones. */
  lemma {:induction false} BuildInputs(script: seq<Stmt>, b: Built, dedup: bool)
    requires Closed(script, b.regs.Keys)
    ensures InputsTaken(Build(script, b, dedup).g.nodes) == InputsTaken(b.g.nodes) + InputCalls(script)
    decreases |script|
  {
    if script != [] {
      var next := StepBuild(script[0], b, dedup);
      StepInputs(script[0], b, dedup);
      BuildInputs(script[1..], next, dedup);
    }
  }

  lemma StepInputs(s: Stmt, b: Built, dedup: bool)
    requires StmtOk(s, b.regs.Keys)
    ensures InputsTaken(StepBuild(s, b, dedup).g.nodes)
         == InputsTaken(b.g.nodes) + (if s.Let? && CallTakesInput(s.call) then 1 else 0)
  {
    var next := StepBuild(s, b, dedup);
    if next.g.nodes != b.g.nodes {
      assert next.g.nodes[..|b.g.nodes|] == b.g.nodes;
    }
  }

  lemma {:induction false} NoInputCalls(script: seq<Stmt>)
    requires NoInputs(script)
    ensures InputCalls(script) == 0
  {
    if script != [] {
      assert script[0] in script;
      NoInputCalls(script[1..]);
    }
  }

  lemma {:induction false} ParamInputCalls(params: seq<Param>, rest: seq<Stmt>)
    ensures InputCalls(ParamStmts(params) + rest) == |params| + InputCalls(rest)
  {
    if params == [] {
      assert ParamStmts(params) + rest == rest;
    } else {
      assert (ParamStmts(params) + rest)[1..] == ParamStmts(params[1..]) + rest;
      ParamInputCalls(params[1..], rest);
    }
  }

  /** A compiled graph takes exactly one input per parameter. */
  lemma CompiledInputs<V>(eng: Engine<V>, f: Function, inputs: seq<V>)
    requires WellFormedFunction(f) && CompileFunction(f).Some? && |inputs| == |f.params|
    ensures Closed(CompileFunction(f).value, {})
    ensures InputsTaken(CompiledGraph(f).nodes) == |f.params|
    ensures CountKind(CompiledGraph(f).nodes, KIND_INPUT) <= |f.params|
  {
    CompilerPreservesMeaning(eng, f, inputs);
    var script := CompileFunction(f).value;
    assert START.regs.Keys == {};
    BuildInputs(script, START, true);
    var start := InitialValues(inputs);
    var env: Env<V> := map[];
    assert Agree(env, map[], start.regs) && start.regs.Keys == {};
    ParamsCompute(eng, f.params, env, map[], start);
    BodyGood(f.body, ParamVars(f.params, map[]), 0);
    var body := CompileBody(f.body, ParamVars(f.params, map[]), 0).value;
    NoInputCalls(body);
    ParamInputCalls(f.params, body);
    InputsCounted(CompiledGraph(f).nodes);
  }

  /** End to end: compile, build with deduplication, serialize, append anything, parse and evaluate;
      on every engine the outputs are those of direct evaluation, in order. */
  lemma CompiledGraphComputesSource<V>(eng: Engine<V>, f: Function, inputs: seq<V>, trailing: seq<byte>)
    requires WellFormedFunction(f) && CompileFunction(f).Some? && |inputs| == |f.params|
    ensures Closed(CompileFunction(f).value, {})
    ensures WithinLimits(CompiledGraph(f)) ==>
      EvalFunction(eng, f, inputs) != Err(Rejected) &&
      EvaluateGraph(eng, Serialize(CompiledGraph(f)) + trailing, inputs) == AsResult(EvalFunction(eng, f, inputs))
  {
    CompilerPreservesMeaning(eng, f, inputs);
    CompiledInputs(eng, f, inputs);
    if WithinLimits(CompiledGraph(f)) {
      SerializedGraphComputesScript(eng, CompileFunction(f).value, inputs, trailing, true);
    }
  }

  /** Evaluating a compiled graph never fails structurally: the graph is topologically ordered and
      its constants tile their section, so only the engine can stop it, and it returns one value
      per output expression. */
  lemma CompiledGraphNeverFailsStructurally<V>(eng: Engine<V>, f: Function, inputs: seq<V>, trailing: seq<byte>)
    requires WellFormedFunction(f) && CompileFunction(f).Some? && |inputs| == |f.params|
    ensures Closed(CompileFunction(f).value, {})
    ensures WithinLimits(CompiledGraph(f)) ==>
      var r := EvaluateGraph(eng, Serialize(CompiledGraph(f)) + trailing, inputs);
      && WellFormed(CompiledGraph(f))
      && (r.Err? ==> r.error.Compute?)
      && (r.Ok? ==> |r.value| == OutputCount(f.body))
  {
    CompiledGraphComputesSource(eng, f, inputs, trailing);
    if WithinLimits(CompiledGraph(f)) {
      CompiledInputs(eng, f, inputs);
      var g := CompiledGraph(f);
      LimitsFit(CompileFunction(f).value, true);
      EvaluateSerialized(eng, g, trailing, inputs);
      NoStructuralError(eng, g.nodes, g.constants, inputs);
      if EvalFunction(eng, f, inputs).Ok? {
        BodyLength(eng, f.body, BindParams(f.params, inputs, map[]));
      }
    }
  }
}
