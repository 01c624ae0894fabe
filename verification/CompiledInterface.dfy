/** What a compiled graph shows the outside: its input and output nodes, in order and with their types, and
    the counts in its header, read off the source. */
module CompiledInterface {
  import opened LittleEndian
  import opened FheTypes
  import opened GraphFormat
  import opened GraphBuilding
  import opened Script
  import opened Dsl
  import opened Compiler
  import opened CompilerProof

  // ---- types of expressions ----

  /** The type of a compiled expression: an operator has its left operand's, a conditional its first
      branch's, a method its receiver's, except that a choice has its first argument's and `to_boolean`
      gives a bool. */
  function TypeOf(e: Expr, vars: map<string, byte>): byte {
    match e
    case Var(name) => if name in vars then vars[name] else 0
    case Ref(inner) => TypeOf(inner, vars)
    case Paren(inner) => TypeOf(inner, vars)
    case Lit(_) => 0
    case MethodCall(receiver, m, args) =>
      if m.ToBoolean? then E_BOOL
      else if (m.Select? || m.SelectScalar? || m.Blend?) && args != [] then TypeOf(args[0], vars)
      else TypeOf(receiver, vars)
    case Binary(_, left, _) => TypeOf(left, vars)
    case Unary(_, operand) => TypeOf(operand, vars)
    case If(_, thn, _) => TypeOf(thn, vars)
    case Into(ty, _) => ty
    case _ => e.ty
  }

  /** The same user names with the same types. */
  ghost predicate SameUsers(vars: map<string, byte>, vars': map<string, byte>) {
    && (forall x :: x in vars && UserName(x) ==> x in vars' && vars'[x] == vars[x])
    && (forall x :: x in vars' && UserName(x) ==> x in vars)
  }

  lemma {:induction false} TypeFrame(e: Expr, vars: map<string, byte>, vars': map<string, byte>)
    requires WellFormedExpr(e) && SameUsers(vars, vars')
    ensures TypeOf(e, vars') == TypeOf(e, vars)
  {
    hide UserName;
    match e
    case Ref(inner) => TypeFrame(inner, vars, vars');
    case Paren(inner) => TypeFrame(inner, vars, vars');
    case MethodCall(receiver, _, args) =>
      TypeFrame(receiver, vars, vars');
      if args != [] {
        assert args[0] in args;
        TypeFrame(args[0], vars, vars');
      }
    case Binary(_, left, _) => TypeFrame(left, vars, vars');
    case Unary(_, operand) => TypeFrame(operand, vars, vars');
    case If(_, thn, _) => TypeFrame(thn, vars, vars');
    case _ =>
  }

  // ---- code only binds, and has the type ----

  predicate OnlyLets(script: seq<Stmt>) {
    forall s <- script :: s.Let?
  }

  /** Emitted code: good, without outputs, and of a type. */
  ghost predicate Typed(vars: map<string, byte>, next: nat, c: Code, ty: byte) {
    GoodCode(vars, next, c) && OnlyLets(c.stmts) && c.tid == ty
  }

  lemma UsersKept(vars: map<string, byte>, next: nat, c: Code)
    requires GoodState(vars, next, c)
    ensures SameUsers(vars, c.vars) && TypesOk(c.vars)
  {
    hide UserName, Settled, TypesOk, Closed;
    forall x | x in vars && UserName(x)
      ensures x in c.vars && c.vars[x] == vars[x]
    {
      UserNameSettled(x, next);
    }
  }

  lemma {:induction false} CodeTyped(e: Expr, vars: map<string, byte>, next: nat)
    requires WellFormedExpr(e) && TypesOk(vars) && CompileExpr(e, vars, next).Some?
    ensures Typed(vars, next, CompileExpr(e, vars, next).value, TypeOf(e, vars))
    decreases e, 1
  {
    hide GoodCode, GoodState, TypesOk, CompileMethod, CompileRight, ArityOf, MethodCode, BinOpCode, UnOpCode, MaybeScalarOp, ConstructorCall;
    CompileGood(e, vars, next);
    match e
    case Var(_) =>
    case Ref(inner) => CodeTyped(inner, vars, next);
    case Paren(inner) => CodeTyped(inner, vars, next);
    case Lit(_) =>
    case MethodCall(receiver, m, args) =>
      CodeTyped(receiver, vars, next);
      MethodTyped(vars, next, CompileExpr(receiver, vars, next).value, m, args, TypeOf(receiver, vars));
    case Binary(_, left, right) =>
      CodeTyped(left, vars, next);
      var l := CompileExpr(left, vars, next).value;
      GoodUsers(vars, next, l);
      RightTyped(l, right);
    case Unary(_, operand) => CodeTyped(operand, vars, next);
    case If(cond, _, _) =>
      CodeTyped(cond, vars, next);
      UnfoldIf(e, vars, next);
      BranchesTyped(vars, next, CompileExpr(cond, vars, next).value, e);
    case Into(_, operand) => CodeTyped(operand, vars, next + 1);
    case _ =>
  }

  lemma GoodUsers(vars: map<string, byte>, next: nat, c: Code)
    requires GoodCode(vars, next, c)
    ensures SameUsers(vars, c.vars) && TypesOk(c.vars)
  {
    hide GoodState;
    UsersKept(vars, next, c);
  }

  lemma {:induction false} RightTyped(l: Code, right: Expr)
    requires WellFormedExpr(right) && TypesOk(l.vars) && CompileRight(l, right).Some?
    ensures OnlyLets(CompileRight(l, right).value.stmts)
    decreases right, 2
  {
    hide TypesOk, CompileExpr, GoodCode;
    if !IsLiteral(right) {
      CodeTyped(right, l.vars, l.next);
    }
  }

  lemma {:induction false} MethodTyped(vars: map<string, byte>, next: nat, recv: Code, m: Method, args: seq<Expr>, ty: byte)
    requires (forall a <- args :: WellFormedExpr(a)) && Typed(vars, next, recv, ty) && MethodCode(m).Some?
    requires CompileMethod(recv, ArityOf(m), MethodCode(m).value, args).Some?
    ensures var c := CompileMethod(recv, ArityOf(m), MethodCode(m).value, args).value;
            && OnlyLets(c.stmts)
            && c.tid == if m.ToBoolean? then E_BOOL
                        else if (m.Select? || m.SelectScalar? || m.Blend?) && args != [] then TypeOf(args[0], vars) else ty
    decreases args, 0
  {
    hide GoodCode, TypesOk, CompileExpr, TypeOf, MethodCode;
    GoodUsers(vars, next, recv);
    if args != [] && ArityOf(m) != UnarySame && ArityOf(m) != UnaryBool {
      assert args[0] in args;
      CodeTyped(args[0], recv.vars, recv.next);
      TypeFrame(args[0], vars, recv.vars);
      if ArityOf(m) != General {
        var a := CompileExpr(args[0], recv.vars, recv.next).value;
        GoodUsers(recv.vars, recv.next, a);
        assert args[1] in args;
        CodeTyped(args[1], a.vars, a.next);
      }
    }
  }

  lemma {:induction false} BranchesTyped(vars: map<string, byte>, next: nat, c: Code, e: Expr)
    requires e.If? && WellFormedExpr(e) && GoodCode(vars, next, c) && OnlyLets(c.stmts) && CompileBranches(c, e).Some?
    ensures OnlyLets(CompileBranches(c, e).value.stmts)
    ensures CompileBranches(c, e).value.tid == TypeOf(e.thn, vars)
    decreases e, 0
  {
    hide GoodCode, TypesOk, CompileExpr, TypeOf;
    GoodUsers(vars, next, c);
    CodeTyped(e.thn, c.vars, c.next);
    TypeFrame(e.thn, vars, c.vars);
    var t := CompileExpr(e.thn, c.vars, c.next).value;
    GoodUsers(c.vars, c.next, t);
    CodeTyped(e.els.value, t.vars, t.next);
  }

  // ---- statements and whole functions ----

  /** What a script shows: inputs as kind 0, plaintext inputs as kind 1, outputs as kind 4, with types. */
  function Shown(s: Stmt): seq<(byte, byte)> {
    match s
    case Let(_, AddInput(ty)) => [(0, ty)]
    case Let(_, AddPlaintextInput(ty)) => [(1, ty)]
    case Output(ty, _) => [(4, ty)]
    case _ => []
  }

  function ScriptInterface(script: seq<Stmt>): seq<(byte, byte)> {
    if script == [] then [] else Shown(script[0]) + ScriptInterface(script[1..])
  }

  lemma {:induction false} InterfaceAppend(s: seq<Stmt>, t: seq<Stmt>)
    ensures ScriptInterface(s + t) == ScriptInterface(s) + ScriptInterface(t)
  {
    if s == [] {
      assert s + t == t;
    } else {
      assert (s + t)[1..] == s[1..] + t;
      InterfaceAppend(s[1..], t);
    }
  }

  lemma {:induction false} NothingShown(script: seq<Stmt>)
    requires OnlyLets(script) && NoInputs(script)
    ensures ScriptInterface(script) == []
  {
    if script != [] {
      assert script[0] in script;
      NothingShown(script[1..]);
    }
  }

  lemma ExprShowsNothing(vars: map<string, byte>, next: nat, c: Code, ty: byte)
    requires Typed(vars, next, c, ty)
    ensures ScriptInterface(c.stmts) == []
  {
    hide UserName, Settled, Closed, TypesOk;
    NothingShown(c.stmts);
  }

  function OutputsShown(outputs: seq<Expr>, vars: map<string, byte>): seq<(byte, byte)> {
    if outputs == [] then [] else [(4, TypeOf(outputs[0], vars))] + OutputsShown(outputs[1..], vars)
  }

  /** What a function's body shows: an output of its type for every output expression, in order. */
  function BodyShown(body: seq<BodyStmt>, vars: map<string, byte>): seq<(byte, byte)> {
    if body == [] then []
    else
      match body[0]
      case LetStmt(name, init) =>
        if init.None? then BodyShown(body[1..], vars)
        else BodyShown(body[1..], vars[name := TypeOf(init.value, vars)])
      case Emit(outputs) => OutputsShown(outputs, vars) + BodyShown(body[1..], vars)
  }

  function ParamsShown(params: seq<Param>): (s: seq<(byte, byte)>)
    ensures |s| == |params|
  {
    seq(|params|, i requires 0 <= i < |params| => (if params[i].plaintext then 1 else 0, params[i].ty))
  }

  lemma SameUsersTrans(a: map<string, byte>, b: map<string, byte>, c: map<string, byte>)
    requires SameUsers(a, b) && SameUsers(b, c)
    ensures SameUsers(a, c)
  {
    hide UserName;
  }

  lemma {:induction false} OutputsShow(outputs: seq<Expr>, vars: map<string, byte>, next: nat, users: map<string, byte>)
    requires (forall e <- outputs :: WellFormedExpr(e)) && TypesOk(vars) && SameUsers(users, vars)
    requires CompileOutputs(outputs, vars, next).Some?
    ensures ScriptInterface(CompileOutputs(outputs, vars, next).value.stmts) == OutputsShown(outputs, users)
    decreases |outputs|
  {
    hide CompileExpr, TypesOk, TypeOf, SameUsers, GoodCode, OnlyLets;
    if outputs != [] {
      assert outputs[0] in outputs;
      CodeTyped(outputs[0], vars, next);
      var x := CompileExpr(outputs[0], vars, next).value;
      GoodUsers(vars, next, x);
      SameUsersTrans(users, vars, x.vars);
      TypeFrame(outputs[0], users, vars);
      ExprShowsNothing(vars, next, x, TypeOf(outputs[0], vars));
      OutputsShow(outputs[1..], x.vars, x.next, users);
      var shown := [Output(x.tid, x.tok)];
      assert shown[1..] == [];
      InterfaceAppend(x.stmts, shown);
      InterfaceAppend(x.stmts + shown, CompileOutputs(outputs[1..], x.vars, x.next).value.stmts);
    }
  }

  lemma {:induction false} BodyShows(body: seq<BodyStmt>, vars: map<string, byte>, next: nat, users: map<string, byte>)
    requires (forall s <- body :: WellFormedStmt(s)) && TypesOk(vars) && SameUsers(users, vars)
    requires CompileBody(body, vars, next).Some?
    ensures ScriptInterface(CompileBody(body, vars, next).value) == BodyShown(body, users)
    decreases |body|
  {
    hide CompileExpr, CompileOutputs, TypesOk, TypeOf, SameUsers, GoodCode, GoodState, OnlyLets;
    if body != [] {
      assert WellFormedStmt(body[0]) by { assert body[0] in body; }
      match body[0]
      case LetStmt(name, init) =>
        if init.None? {
          BodyShows(body[1..], vars, next, users);
        } else {
          LetShows(vars, next, users, name, init.value);
          var x := CompileExpr(init.value, vars, next).value;
          BodyShows(body[1..], x.vars[name := x.tid], x.next, users[name := TypeOf(init.value, users)]);
          InterfaceAppend(x.stmts + [Alias(name, x.tok)], CompileBody(body[1..], x.vars[name := x.tid], x.next).value);
        }
      case Emit(outputs) =>
        OutputsShow(outputs, vars, next, users);
        OutputsGood(outputs, vars, next);
        var x := CompileOutputs(outputs, vars, next).value;
        UsersKept(vars, next, x);
        SameUsersTrans(users, vars, x.vars);
        BodyShows(body[1..], x.vars, x.next, users);
        InterfaceAppend(x.stmts, CompileBody(body[1..], x.vars, x.next).value);
    }
  }

  lemma LetShows(vars: map<string, byte>, next: nat, users: map<string, byte>, name: string, init: Expr)
    requires WellFormedExpr(init) && UserName(name) && TypesOk(vars) && SameUsers(users, vars)
    requires CompileExpr(init, vars, next).Some?
    ensures var x := CompileExpr(init, vars, next).value;
            && TypesOk(x.vars[name := x.tid]) && SameUsers(users[name := TypeOf(init, users)], x.vars[name := x.tid])
            && ScriptInterface(x.stmts + [Alias(name, x.tok)]) == []
  {
    hide CompileExpr, TypesOk, TypeOf, UserName, GoodCode, OnlyLets;
    CodeTyped(init, vars, next);
    var x := CompileExpr(init, vars, next).value;
    LetGood(vars, next, x, name);
    GoodUsers(vars, next, x);
    TypeFrame(init, users, vars);
    ExprShowsNothing(vars, next, x, TypeOf(init, vars));
    assert [Alias(name, x.tok)][1..] == [];
    InterfaceAppend(x.stmts, [Alias(name, x.tok)]);
  }

  lemma {:induction false} ParamsShow(params: seq<Param>)
    ensures ScriptInterface(ParamStmts(params)) == ParamsShown(params)
  {
    if params != [] {
      ParamsShow(params[1..]);
      assert ParamsShown(params) == [(if params[0].plaintext then 1 else 0, params[0].ty)] + ParamsShown(params[1..]);
    }
  }

  lemma {:induction false} ParamTypesOk(params: seq<Param>, vars: map<string, byte>)
    requires TypesOk(vars) && forall p <- params :: p.ty <= 44
    ensures TypesOk(ParamVars(params, vars))
  {
    if params != [] {
      assert params[0] in params;
      ParamTypesOk(params[1..], vars[params[0].name := params[0].ty]);
    }
  }

  // ---- graphs ----

  /** The input and output nodes of a graph, in order. */
  function Interface(nodes: seq<Node>): seq<(byte, byte)> {
    if nodes == [] then []
    else
      var n := nodes[|nodes| - 1];
      Interface(nodes[..|nodes| - 1]) + if n.kind == 0 || n.kind == 1 || n.kind == 4 then [(n.kind, n.ty)] else []
  }

  lemma StepInterface(s: Stmt, b: Built, dedup: bool)
    requires StmtOk(s, b.regs.Keys)
    ensures Interface(StepBuild(s, b, dedup).g.nodes) == Interface(b.g.nodes) + Shown(s)
  {
    hide FindConstant, HoldsConstant, ConstantOf;
    var g' := StepBuild(s, b, dedup).g;
    if g'.nodes != b.g.nodes {
      assert g'.nodes[..|b.g.nodes|] == b.g.nodes;
    }
  }

  lemma {:induction false} BuildInterface(script: seq<Stmt>, b: Built, dedup: bool)
    requires Closed(script, b.regs.Keys)
    ensures Interface(Build(script, b, dedup).g.nodes) == Interface(b.g.nodes) + ScriptInterface(script)
    decreases |script|
  {
    hide Interface, Shown;
    if script != [] {
      StepInterface(script[0], b, dedup);
      BuildInterface(script[1..], StepBuild(script[0], b, dedup), dedup);
    }
  }

  /** The graph of a function shows its parameters in order, each encrypted or plaintext and of its type,
      and then its outputs in order, each of the type of its expression. */
  lemma CompiledGraphShows(f: Function)
    requires WellFormedFunction(f) && CompileFunction(f).Some? && Closed(CompileFunction(f).value, {})
    ensures Interface(CompiledGraph(f).nodes) == ParamsShown(f.params) + BodyShown(f.body, ParamVars(f.params, map[]))
  {
    hide CompileBody, Build, Interface, ScriptInterface, BodyShown, Closed;
    var vars := ParamVars(f.params, map[]);
    var body := CompileBody(f.body, vars, 0).value;
    assert START.regs.Keys == {};
    EmptyInterface();
    BuildInterface(CompileFunction(f).value, START, true);
    InterfaceAppend(ParamStmts(f.params), body);
    ParamsShow(f.params);
    ParamTypesOk(f.params, map[]);
    BodyShows(f.body, vars, 0, vars);
  }

  lemma EmptyInterface()
    ensures Interface(START.g.nodes) == []
  {
  }

  /** How often a kind is shown. */
  function TimesShown(shown: seq<(byte, byte)>, kind: byte): nat {
    if shown == [] then 0 else TimesShown(shown[..|shown| - 1], kind) + if shown[|shown| - 1].0 == kind then 1 else 0
  }

  lemma {:induction false} CountedInInterface(nodes: seq<Node>, kind: byte)
    requires kind == 0 || kind == 1 || kind == 4
    ensures CountKind(nodes, kind) == TimesShown(Interface(nodes), kind)
  {
    if nodes != [] {
      var front, n := Interface(nodes[..|nodes| - 1]), nodes[|nodes| - 1];
      CountedInInterface(nodes[..|nodes| - 1], kind);
      OneShown((n.kind, n.ty), kind);
      TimesAppend(front, [(n.kind, n.ty)], kind);
      assert front + [] == front;
    }
  }

  lemma OneShown(x: (byte, byte), kind: byte)
    ensures TimesShown([x], kind) == if x.0 == kind then 1 else 0
  {
    assert [x][..0] == [];
  }

  lemma {:induction false} TimesAppend(s: seq<(byte, byte)>, t: seq<(byte, byte)>, kind: byte)
    ensures TimesShown(s + t, kind) == TimesShown(s, kind) + TimesShown(t, kind)
  {
    if t == [] {
      assert s + t == s;
    } else {
      assert (s + t)[..|s + t| - 1] == s + t[..|t| - 1];
      TimesAppend(s, t[..|t| - 1], kind);
    }
  }

  lemma {:induction false} OnlyOutputs(body: seq<BodyStmt>, vars: map<string, byte>)
    ensures TimesShown(BodyShown(body, vars), 0) == TimesShown(BodyShown(body, vars), 1) == 0
    ensures TimesShown(BodyShown(body, vars), 4) == OutputCount(body)
    decreases |body|
  {
    hide TypeOf;
    if body != [] {
      match body[0]
      case LetStmt(name, init) =>
        OnlyOutputs(body[1..], if init.None? then vars else vars[name := TypeOf(init.value, vars)]);
      case Emit(outputs) =>
        EachAnOutput(outputs, vars);
        OnlyOutputs(body[1..], vars);
        forall kind: byte
          ensures TimesShown(BodyShown(body, vars), kind)
               == TimesShown(OutputsShown(outputs, vars), kind) + TimesShown(BodyShown(body[1..], vars), kind)
        {
          TimesAppend(OutputsShown(outputs, vars), BodyShown(body[1..], vars), kind);
        }
    }
  }

  lemma {:induction false} EachAnOutput(outputs: seq<Expr>, vars: map<string, byte>)
    ensures TimesShown(OutputsShown(outputs, vars), 0) == TimesShown(OutputsShown(outputs, vars), 1) == 0
    ensures TimesShown(OutputsShown(outputs, vars), 4) == |outputs|
  {
    hide TypeOf;
    if outputs != [] {
      EachAnOutput(outputs[1..], vars);
      var first: (byte, byte) := (4, TypeOf(outputs[0], vars));
      forall kind: byte
        ensures TimesShown(OutputsShown(outputs, vars), kind)
             == (if kind == 4 then 1 else 0) + TimesShown(OutputsShown(outputs[1..], vars), kind)
      {
        OneShown(first, kind);
        TimesAppend([first], OutputsShown(outputs[1..], vars), kind);
      }
    }
  }

  function PlaintextParams(params: seq<Param>): nat {
    if params == [] then 0 else PlaintextParams(params[..|params| - 1]) + if params[|params| - 1].plaintext then 1 else 0
  }

  lemma {:induction false} ParamsCounted(params: seq<Param>)
    ensures TimesShown(ParamsShown(params), 1) == PlaintextParams(params)
    ensures TimesShown(ParamsShown(params), 0) == |params| - PlaintextParams(params)
    ensures TimesShown(ParamsShown(params), 4) == 0
  {
    if params != [] {
      var last := |params| - 1;
      ParamsCounted(params[..last]);
      assert ParamsShown(params)[..last] == ParamsShown(params[..last]);
    }
  }

  /** The header of a compiled graph counts the encrypted parameters, the plaintext parameters and the output
      expressions of the source. */
  lemma CompiledHeader(f: Function)
    requires WellFormedFunction(f) && CompileFunction(f).Some? && Closed(CompileFunction(f).value, {})
    requires WithinLimits(CompiledGraph(f))
    ensures var s := Serialize(CompiledGraph(f));
            && |s| >= 8 && s[0] == 1
            && s[1] == |f.params| - PlaintextParams(f.params) && s[2] == PlaintextParams(f.params)
            && s[5] == OutputCount(f.body)
  {
    hide CompiledGraph, Serialize, Interface, ParamsShown, BodyShown, CountKind, TimesShown, HasBytes, CompileFunction, Closed;
    var g, vars := CompiledGraph(f), ParamVars(f.params, map[]);
    SerializedLayout(g);
    CompiledGraphShows(f);
    CountedInInterface(g.nodes, 0);
    CountedInInterface(g.nodes, 1);
    CountedInInterface(g.nodes, 4);
    TimesAppend(ParamsShown(f.params), BodyShown(f.body, vars), 0);
    TimesAppend(ParamsShown(f.params), BodyShown(f.body, vars), 1);
    TimesAppend(ParamsShown(f.params), BodyShown(f.body, vars), 4);
    ParamsCounted(f.params);
    OnlyOutputs(f.body, vars);
  }
}
